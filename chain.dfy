/** The segment chain of the snake: the entries of `Head.bodyArray`, what a
    follow tick (`moveBody`) and a growth step (`getNewBody`, `changeZindex`)
    do to them, and the facts those steps guarantee. */
module Chain {

  datatype Option<T> = None | Some(value: T)

  /** A point of the play area. The engine works with float vectors; the model
      only copies and compares positions, so integer pairs stand for them. */
  datatype Position = Position(x: int, y: int)

  /** One entry of the segment list: a missing reference, the head's own node
      (whose position and sibling index are fields of the head object), or a
      body segment carrying its position and its index among its parent's
      children. */
  datatype Node = Null | HeadNode | BodyNode(pos: Position, sibling: int)

  /** The position entry `n` shows while the head stands at `head`. */
  function PosOf(n: Node, head: Position): Option<Position>
  {
    match n
    case Null => None
    case HeadNode => Some(head)
    case BodyNode(p, _) => Some(p)
  }

  /** The chain seen as positions, `None` for a missing node. */
  function View(a: seq<Node>, head: Position): seq<Option<Position>>
  {
    seq(|a|, j requires 0 <= j < |a| => PosOf(a[j], head))
  }

  predicate NoNull(a: seq<Node>)
  {
    forall j :: 0 <= j < |a| ==> !a[j].Null?
  }

  predicate NoHead(a: seq<Node>)
  {
    forall j :: 0 <= j < |a| ==> !a[j].HeadNode?
  }

  /** The head's node occurs at most once in the chain. */
  predicate UniqueHead(a: seq<Node>)
  {
    forall i, j :: 0 <= i < j < |a| && a[i].HeadNode? ==> !a[j].HeadNode?
  }

  /** Two entries of the same kind at the same place; sibling indices may differ. */
  predicate SameSpot(m: Node, n: Node)
  {
    m.Null? == n.Null? && m.HeadNode? == n.HeadNode? && (m.BodyNode? ==> m.pos == n.pos)
  }

  /** Two chains with the same entries apart from the positions they hold. */
  predicate SameShape(a: seq<Node>, b: seq<Node>)
  {
    |a| == |b| &&
    forall j :: 0 <= j < |a| ==>
      a[j].Null? == b[j].Null? && a[j].HeadNode? == b[j].HeadNode? &&
      (a[j].BodyNode? ==> a[j].sibling == b[j].sibling)
  }

  // ---------------------------------------------------------------------------
  // Follow tick

  /** The pair of entries (i, i + 1) holds a missing node. */
  predicate Gap(v: seq<Option<Position>>, i: int)
    requires 0 <= i < |v| - 1
  {
    v[i].None? || v[i + 1].None?
  }

  /** The largest pair index `k <= from` whose pair holds a missing node, or -1
      when there is none: the pair at which a backward walk started at `from`
      stops. */
  function LastGap(v: seq<Option<Position>>, from: int): (k: int)
    requires -1 <= from <= |v| - 2
    ensures -1 <= k <= from
    ensures k >= 0 ==> Gap(v, k)
    ensures forall j :: k < j <= from ==> !Gap(v, j)
    decreases from + 1
  {
    if from < 0 then -1
    else if Gap(v, from) then from
    else LastGap(v, from - 1)
  }

  /** The positions after one follow tick with the head at `h`. The walk goes
      from the last pair down to the first, each entry taking its predecessor's
      position; it stops at the first pair (from the tail) that holds a missing
      node, leaving everything from that pair towards the head as it was. Only
      a complete walk gives entry 0 the head position; a single missing entry
      is left alone (the assignment to it fails). */
  function AfterMove(v: seq<Option<Position>>, h: Position): seq<Option<Position>>
  {
    if |v| == 0 then v
    else
      var k := LastGap(v, |v| - 2);
      if k >= 0 then v[..k + 2] + v[k + 1..|v| - 1]
      else if v[0].None? then v
      else [Some(h)] + v[..|v| - 1]
  }

  /** A tick on an empty chain changes nothing. */
  lemma MoveEmpty(h: Position)
    ensures AfterMove([], h) == []
  {
  }

  /** A walk that meets no missing pair shifts every entry one place towards
      the tail and puts the head position at index 0. */
  lemma MoveNoGap(v: seq<Option<Position>>, h: Position)
    requires |v| >= 1 && v[0].Some?
    requires forall j :: 0 <= j <= |v| - 2 ==> !Gap(v, j)
    ensures |AfterMove(v, h)| == |v|
    ensures AfterMove(v, h)[0] == Some(h)
    ensures forall k :: 1 <= k < |v| ==> AfterMove(v, h)[k] == v[k - 1]
  {
  }

  /** The full shift on a chain without missing nodes. */
  lemma MoveFullShift(v: seq<Option<Position>>, h: Position)
    requires |v| >= 1
    requires forall j :: 0 <= j < |v| ==> v[j].Some?
    ensures |AfterMove(v, h)| == |v|
    ensures AfterMove(v, h)[0] == Some(h)
    ensures forall k :: 1 <= k < |v| ==> AfterMove(v, h)[k] == v[k - 1]
  {
    MoveNoGap(v, h);
  }

  /** When pair (i, i + 1) is the last pair holding a missing node, the tick
      stops there: entries above i + 1 are already shifted, entries 0 .. i + 1
      are untouched, and in particular entry 0 does not receive the head
      position. */
  lemma MoveAbort(v: seq<Option<Position>>, h: Position, i: int)
    requires 0 <= i <= |v| - 2 && Gap(v, i)
    requires forall j :: i < j <= |v| - 2 ==> !Gap(v, j)
    ensures |AfterMove(v, h)| == |v|
    ensures forall j :: 0 <= j <= i + 1 ==> AfterMove(v, h)[j] == v[j]
    ensures forall j :: i + 2 <= j < |v| ==> AfterMove(v, h)[j] == v[j - 1]
  {
    assert LastGap(v, |v| - 2) == i;
  }

  /** Progress of the follow walk over the view `v0`: `w` is the view once
      every entry above index i + 1 took the position of its predecessor
      and no missing pair was met on the way. */
  ghost predicate Walked(v0: seq<Option<Position>>, w: seq<Option<Position>>, i: int)
  {
    -1 <= i <= |v0| - 2 && |w| == |v0|
    && (forall j :: 0 <= j <= i + 1 ==> w[j] == v0[j])
    && (forall j :: i + 2 <= j < |v0| ==> w[j] == v0[j - 1])
    && (forall j :: i < j <= |v0| - 2 ==> !Gap(v0, j))
  }

  /** One step of the walk: entry i + 1 takes the position of entry i. */
  lemma WalkStep(v0: seq<Option<Position>>, w: seq<Option<Position>>, i: int)
    requires Walked(v0, w, i) && i >= 0 && !Gap(v0, i)
    ensures Walked(v0, w[i + 1 := w[i]], i - 1)
  {
  }

  /** A walk stopped at a missing pair has produced the follow tick. */
  lemma WalkAbort(v0: seq<Option<Position>>, w: seq<Option<Position>>, i: int, h: Position)
    requires Walked(v0, w, i) && i >= 0 && Gap(v0, i)
    ensures w == AfterMove(v0, h)
  {
    MoveAbort(v0, h, i);
  }

  /** A walk that reached the front, followed by entry 0 taking the head
      position, has produced the follow tick. */
  lemma WalkFinish(v0: seq<Option<Position>>, w: seq<Option<Position>>, h: Position)
    requires Walked(v0, w, -1) && v0[0].Some?
    ensures w[0 := Some(h)] == AfterMove(v0, h)
  {
    MoveNoGap(v0, h);
  }

  /** `t` follow ticks with the head held at `h`. */
  function Ticks(v: seq<Option<Position>>, h: Position, t: nat): seq<Option<Position>>
    decreases t
  {
    if t == 0 then v else AfterMove(Ticks(v, h, t - 1), h)
  }

  /** After `t` ticks on a complete chain with the head held still, the first
      `t` entries hold the head position and every other entry holds what the
      entry `t` places nearer the head held at the start: no position is lost
      before it has been copied. */
  lemma {:induction false} TicksShift(v: seq<Option<Position>>, h: Position, t: nat)
    requires |v| >= 1
    requires forall j :: 0 <= j < |v| ==> v[j].Some?
    ensures |Ticks(v, h, t)| == |v|
    ensures forall j :: 0 <= j < |v| ==> Ticks(v, h, t)[j] == if j < t then Some(h) else v[j - t]
  {
    if t > 0 {
      TicksShift(v, h, t - 1);
      var w := Ticks(v, h, t - 1);
      MoveFullShift(w, h);
    }
  }

  /** Convergence: with the head held still and entry 0 already at the head
      position, |v| - 1 ticks bring every entry to the head position. */
  lemma Converge(v: seq<Option<Position>>, h: Position)
    requires |v| >= 1 && v[0] == Some(h)
    requires forall j :: 0 <= j < |v| ==> v[j].Some?
    ensures var w := Ticks(v, h, |v| - 1); |w| == |v| && forall j :: 0 <= j < |v| ==> w[j] == Some(h)
  {
    TicksShift(v, h, |v| - 1);
    var w := Ticks(v, h, |v| - 1);
    assert w[|v| - 1] == v[0];
  }

  /** Whatever the chain held, |v| ticks with the head held still bring every
      entry to the head position. */
  lemma ConvergeFromAnywhere(v: seq<Option<Position>>, h: Position)
    requires |v| >= 1
    requires forall j :: 0 <= j < |v| ==> v[j].Some?
    ensures var w := Ticks(v, h, |v|); |w| == |v| && forall j :: 0 <= j < |v| ==> w[j] == Some(h)
  {
    TicksShift(v, h, |v|);
  }

  // ---------------------------------------------------------------------------
  // Construction and growth

  /** The list with its missing entries dropped (`filter(node => node !== null)`). */
  function Compact(a: seq<Node>): (r: seq<Node>)
    ensures NoNull(r) && |r| <= |a|
    ensures NoHead(a) ==> NoHead(r)
    ensures NoNull(a) ==> r == a
  {
    if |a| == 0 then []
    else
      var rest := Compact(a[1..]);
      if a[0].Null? then rest else [a[0]] + rest
  }

  /** Compacting keeps every present entry, as often as it occurs, and drops
      exactly the missing ones. */
  lemma {:induction false} CompactCounts(a: seq<Node>)
    ensures |Compact(a)| == |a| - multiset(a)[Null]
    ensures forall n :: n != Null ==> multiset(Compact(a))[n] == multiset(a)[n]
  {
    if |a| > 0 {
      assert a == [a[0]] + a[1..];
      CompactCounts(a[1..]);
    }
  }

  /** Compacting keeps the order of the present entries: the entry before the
      first present one is dropped and the rest is compacted in turn. */
  lemma {:induction false} CompactAppend(a: seq<Node>, b: seq<Node>)
    ensures Compact(a + b) == Compact(a) + Compact(b)
  {
    if |a| > 0 {
      assert (a + b)[1..] == a[1..] + b;
      CompactAppend(a[1..], b);
    } else {
      assert a + b == b;
    }
  }

  /** The index of the head's node in the chain, or -1 when it is absent. */
  function IndexOfHead(a: seq<Node>): (k: int)
    ensures -1 <= k < |a|
    ensures k >= 0 ==> a[k].HeadNode? && forall j :: 0 <= j < k ==> !a[j].HeadNode?
    ensures k < 0 ==> NoHead(a)
  {
    if |a| == 0 then -1
    else if a[0].HeadNode? then 0
    else
      var k := IndexOfHead(a[1..]);
      if k < 0 then -1 else k + 1
  }

  /** What a growth step works on: the segment list, the number of children of
      the head's parent, and the sibling index of the head's own node. */
  datatype DrawOrder = DrawOrder(chain: seq<Node>, children: int, headSibling: int)

  /** The draw-order pass (`changeZindex`): with `top` the index of the parent's
      last child, every entry j before the last one receives sibling index
      top - j; missing entries are skipped. */
  function Restack(st: DrawOrder): (r: DrawOrder)
    ensures |r.chain| == |st.chain| && r.children == st.children
    ensures forall j :: 0 <= j < |st.chain| ==> SameSpot(r.chain[j], st.chain[j])
    ensures UniqueHead(st.chain) ==> UniqueHead(r.chain)
  {
    var n := |st.chain|;
    var top := st.children - 1;
    var k := IndexOfHead(st.chain);
    DrawOrder(seq(n, j requires 0 <= j < n =>
                if j < n - 1 && st.chain[j].BodyNode? then st.chain[j].(sibling := top - j) else st.chain[j]),
          st.children,
          if 0 <= k < n - 1 then top - k else st.headSibling)
  }

  /** The sibling index of a present entry of the chain. */
  function SiblingAt(st: DrawOrder, j: int): int
    requires 0 <= j < |st.chain| && !st.chain[j].Null?
  {
    if st.chain[j].HeadNode? then st.headSibling else st.chain[j].sibling
  }

  /** After the draw-order pass every present entry before the last one has
      sibling index top - j, so a segment nearer the head is drawn above every
      segment further from it. */
  lemma RestackOrders(st: DrawOrder)
    requires UniqueHead(st.chain)
    ensures forall j :: 0 <= j < |st.chain| - 1 && !st.chain[j].Null? ==>
              SiblingAt(Restack(st), j) == st.children - 1 - j
    ensures forall i, j :: 0 <= i < j < |st.chain| - 1 && !st.chain[i].Null? && !st.chain[j].Null? ==>
              SiblingAt(Restack(st), i) > SiblingAt(Restack(st), j)
  {
    var r := Restack(st);
    var k := IndexOfHead(st.chain);
    forall j | 0 <= j < |st.chain| - 1 && !st.chain[j].Null?
      ensures SiblingAt(r, j) == st.children - 1 - j
    {
      if st.chain[j].HeadNode? {
        assert k == j;
      }
    }
  }

  /** The backfill and push of `getNewBody`, before its draw-order pass. A
      single entry gets the new segment behind it. With two or more entries a
      missing last entry and then a missing second-to-last entry are replaced
      by fresh prefab nodes, each attached as the parent's next child, before
      the new segment at `placed` is attached and pushed. */
  function Extend(st: DrawOrder, prefab: Position, placed: Position): (r: DrawOrder)
    requires |st.chain| >= 1
    ensures |r.chain| == |st.chain| + 1 && r.headSibling == st.headSibling
    ensures r.chain[|st.chain|] == BodyNode(placed, r.children - 1)
    ensures forall j :: 0 <= j < |st.chain| && (j < |st.chain| - 2 || !st.chain[j].Null?) ==>
              r.chain[j] == st.chain[j]
    ensures forall j :: |st.chain| >= 2 && |st.chain| - 2 <= j < |st.chain| && st.chain[j].Null? ==>
              r.chain[j].BodyNode? && r.chain[j].pos == prefab
    ensures |st.chain| == 1 ==> r.children == st.children + 1
    ensures |st.chain| >= 2 ==>
              r.children == st.children + 1 + (if st.chain[|st.chain| - 1].Null? then 1 else 0)
                                            + (if st.chain[|st.chain| - 2].Null? then 1 else 0)
  {
    var n := |st.chain|;
    if n == 1 then DrawOrder(st.chain + [BodyNode(placed, st.children)], st.children + 1, st.headSibling)
    else
      var s1 := if st.chain[n - 1].Null?
                then DrawOrder(st.chain[n - 1 := BodyNode(prefab, st.children)], st.children + 1, st.headSibling)
                else st;
      var s2 := if s1.chain[n - 2].Null?
                then DrawOrder(s1.chain[n - 2 := BodyNode(prefab, s1.children)], s1.children + 1, s1.headSibling)
                else s1;
      DrawOrder(s2.chain + [BodyNode(placed, s2.children)], s2.children + 1, s2.headSibling)
  }

  /** One successful `getNewBody`: backfill, push, draw-order pass. */
  function Grow(st: DrawOrder, prefab: Position, placed: Position): (r: DrawOrder)
    requires |st.chain| >= 1
    ensures |r.chain| == |st.chain| + 1
    ensures UniqueHead(st.chain) ==> UniqueHead(r.chain)
  {
    var e := Extend(st, prefab, placed);
    assert forall j :: 0 <= j < |e.chain| && e.chain[j].HeadNode? ==> j < |st.chain| && st.chain[j].HeadNode?;
    Restack(e)
  }

  /** Growth: the chain grows by exactly one present entry, at `placed`; when
      it had two or more entries its last two are present afterwards, a
      missing one replaced by a prefab node; every other entry keeps its kind
      and position; the parent gains one child per node attached. */
  lemma GrowthFacts(st: DrawOrder, prefab: Position, placed: Position)
    requires |st.chain| >= 1
    ensures var r := Grow(st, prefab, placed);
      |r.chain| == |st.chain| + 1 &&
      r.chain[|st.chain|] == BodyNode(placed, r.children - 1) &&
      (|st.chain| >= 2 ==> !r.chain[|st.chain| - 1].Null? && !r.chain[|st.chain| - 2].Null?) &&
      (forall j :: 0 <= j < |st.chain| && (j < |st.chain| - 2 || !st.chain[j].Null?) ==>
         SameSpot(r.chain[j], st.chain[j])) &&
      (forall j :: |st.chain| >= 2 && |st.chain| - 2 <= j < |st.chain| && st.chain[j].Null? ==>
         r.chain[j].BodyNode? && r.chain[j].pos == prefab) &&
      (|st.chain| == 1 ==> r.children == st.children + 1) &&
      (|st.chain| >= 2 ==>
         r.children == st.children + 1 + (if st.chain[|st.chain| - 1].Null? then 1 else 0)
                                       + (if st.chain[|st.chain| - 2].Null? then 1 else 0))
  {
    var e := Extend(st, prefab, placed);
    var r := Restack(e);
    assert r.chain[|st.chain|] == e.chain[|st.chain|];
  }

  /** The draw order a growth step leaves: every present entry j before the
      last has sibling index children - 1 - j, and the last entry is a body
      segment holding the index it was attached at, children - 1. */
  predicate Ordered(st: DrawOrder)
  {
    |st.chain| >= 1
    && (forall j :: 0 <= j < |st.chain| - 1 && !st.chain[j].Null? ==>
          SiblingAt(st, j) == st.children - 1 - j)
    && st.chain[|st.chain| - 1].BodyNode?
    && st.chain[|st.chain| - 1].sibling == st.children - 1
  }

  /** Every growth step leaves the draw order `Ordered`, whatever it was
      before. */
  lemma GrowOrders(st: DrawOrder, prefab: Position, placed: Position)
    requires |st.chain| >= 1 && UniqueHead(st.chain)
    ensures Ordered(Grow(st, prefab, placed))
  {
    var e := Extend(st, prefab, placed);
    assert UniqueHead(e.chain) by {
      assert forall j :: 0 <= j < |e.chain| && e.chain[j].HeadNode? ==>
        j < |st.chain| && st.chain[j].HeadNode?;
    }
    RestackOrders(e);
    var r := Restack(e);
    assert r.chain[|st.chain|] == e.chain[|st.chain|];
  }

  /** `a` is the chain `onLoad` builds from the compacted list `wired` after
      `count` growth steps: the wired segments in their places and positions,
      then the head, then `count` new segments, the m-th at `place(m)`, and no
      missing entry. */
  predicate Built(a: seq<Node>, wired: seq<Node>, place: int -> Position, count: int)
  {
    count >= 0 && |a| == |wired| + 1 + count && NoNull(a) && a[|wired|] == HeadNode &&
    (forall j :: 0 <= j < |wired| ==> SameSpot(a[j], wired[j])) &&
    (forall j :: |wired| < j < |a| ==> a[j].BodyNode? && a[j].pos == place(j - |wired|))
  }

  /** One more growth step extends a built chain by the next new segment. */
  lemma BuiltGrows(a: seq<Node>, wired: seq<Node>, place: int -> Position, count: nat,
                   c: int, s: int, prefab: Position)
    requires Built(a, wired, place, count)
    ensures Built(Grow(DrawOrder(a, c, s), prefab, place(count + 1)).chain, wired, place, count + 1)
    ensures Grow(DrawOrder(a, c, s), prefab, place(count + 1)).children == c + 1
  {
    var st := DrawOrder(a, c, s);
    var e := Extend(st, prefab, place(count + 1));
    var r := Restack(e).chain;
    assert Grow(st, prefab, place(count + 1)).chain == r;
    assert forall j :: 0 <= j < |a| ==> e.chain[j] == a[j];
    forall j | 0 <= j < |r|
      ensures SameSpot(r[j], e.chain[j]) && !r[j].Null?
    {
    }
    forall j | |wired| < j < |r|
      ensures r[j].BodyNode? && r[j].pos == place(j - |wired|)
    {
      if j == |a| {
        assert j - |wired| == count + 1;
      }
    }
  }

  /** The shape of a chain built from the pre-wired list `w`: no missing
      entry, one entry per present pre-wired node, then the head, then the
      new segments; the head's index is the number of present pre-wired
      nodes. */
  lemma BuiltShape(a: seq<Node>, w: seq<Node>, place: int -> Position, count: int)
    requires Built(a, Compact(w), place, count)
    ensures NoNull(a) && |a| == (|w| - multiset(w)[Null]) + 1 + count
    ensures a[|w| - multiset(w)[Null]] == HeadNode
    ensures NoNull(w) ==> a[|w|] == HeadNode
  {
    CompactCounts(w);
  }

  /** `getNewBody` as a whole: nothing happens without a parent or on an empty
      chain, otherwise one growth step. */
  function GrowStep(st: DrawOrder, attached: bool, prefab: Position, placed: Position): DrawOrder
  {
    if !attached || |st.chain| == 0 then st else Grow(st, prefab, placed)
  }
}
