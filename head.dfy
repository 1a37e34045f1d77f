/** The snake's head component (`Head` in assets/scripts/Head.ts): the segment
    list it keeps, the frame update, the follow tick, growth, the start and
    boost controls and the collision handler. */
module HeadComponent {
  import opened Chain
  import opened Steering
  import opened Decimal
  import opened Boost

  /** Collision group of food items. */
  const FoodGroup: int := 4

  /** Collision group of obstacles. */
  const ObstacleGroup: int := 8

  /** The text shown on the game-over panel before the score ("score"). */
  const ScoreCaption: string := "得分"

  datatype Phase = NotStarted | Running | GameOver

  /** The direction the head faces at load: its position vector. Normalising
      is left to the engine; the origin gives the zero direction. */
  function FacingOf(p: Position): (d: Dir)
    ensures IsZero(d) <==> p == Position(0, 0)
  {
    Dir(p.x, p.y)
  }

  class Head {
    /** The segment list, head included once `OnLoad` has run. */
    var bodyArray: seq<Node>
    /** How many body segments `OnLoad` creates. */
    const bodyNum: int
    /** Whether the head's node has a parent (the play area). */
    const hasParent: bool
    /** Where a node freshly instantiated from the body prefab stands. */
    const prefabPos: Position
    /** How many children the head's parent has. */
    var children: int
    /** The head node's own position and sibling index. */
    var position: Position
    var sibling: int
    var speed: int
    var isExpediting: bool
    var isGameStarted: bool
    /** Whether the director has paused the game. */
    var paused: bool
    var snakDir: Dir
    var previousMoveDir: Dir
    var score: int
    /** The score label's text and the game-over panel's text and visibility. */
    var scoreText: string
    var gameOverText: string
    var gameOverVisible: bool
    var startPanelVisible: bool
    /** Whether the joystick and the expedite button are active. */
    var joystickActive: bool
    var expediteActive: bool

    ghost predicate Valid()
      reads this
    {
      UniqueHead(bodyArray)
    }

    function DrawOrderOf(): DrawOrder
      reads this
    {
      DrawOrder(bodyArray, children, sibling)
    }

    function ThrottleOf(): Throttle
      reads this
    {
      Throttle(isExpediting, speed)
    }

    function PhaseOf(): Phase
      reads this
    {
      if gameOverVisible then GameOver else if isGameStarted then Running else NotStarted
    }

    /** The component as the scene wires it: the pre-wired segment list (which
        does not hold the head itself) and the editor's settings. */
    constructor (wired: seq<Node>, bodyNum: int, start: Position, startSibling: int,
                 hasParent: bool, children: nat, prefabPos: Position)
      requires NoHead(wired)
      ensures Valid()
      ensures bodyArray == wired && this.bodyNum == bodyNum && position == start
      ensures sibling == startSibling && this.hasParent == hasParent
      ensures this.children == children && this.prefabPos == prefabPos
      ensures speed == BaseSpeed && !isExpediting && !isGameStarted && !paused && score == 0
      ensures !gameOverVisible && startPanelVisible && PhaseOf() == NotStarted
    {
      bodyArray := wired;
      this.bodyNum := bodyNum;
      this.hasParent := hasParent;
      this.prefabPos := prefabPos;
      this.children := children;
      position := start;
      sibling := startSibling;
      speed := BaseSpeed;
      isExpediting := false;
      isGameStarted := false;
      paused := false;
      snakDir := Dir(0, 0);
      previousMoveDir := Dir(0, 0);
      score := 0;
      scoreText := "";
      gameOverText := "";
      gameOverVisible := false;
      startPanelVisible := true;
      joystickActive := true;
      expediteActive := true;
    }

    /** `onLoad`: drop the missing pre-wired entries, append the head, face
        along the head's position, create `bodyNum` segments (the m-th at
        `place(m)`), move the head to `spawn` (the origin without a parent) and
        disable the controls. */
    method OnLoad(spawn: Position, place: int -> Position)
      requires Valid() && NoHead(bodyArray)
      modifies this`bodyArray, this`children, this`sibling, this`position
      modifies this`previousMoveDir, this`joystickActive, this`expediteActive
      ensures Valid()
      ensures var grown := if hasParent && bodyNum > 0 then bodyNum else 0;
              Built(bodyArray, Compact(old(bodyArray)), place, grown) &&
              children == old(children) + grown
      ensures hasParent && bodyNum > 0 ==> Ordered(DrawOrderOf())
      ensures !(hasParent && bodyNum > 0) ==>
                bodyArray == Compact(old(bodyArray)) + [HeadNode] && sibling == old(sibling)
      ensures previousMoveDir == FacingOf(old(position))
      ensures position == if hasParent then spawn else Position(0, 0)
      ensures !joystickActive && !expediteActive
    {
      bodyArray := Compact(bodyArray);
      ghost var wired := bodyArray;
      bodyArray := bodyArray + [HeadNode];
      assert Built(bodyArray, wired, place, 0);
      previousMoveDir := FacingOf(position);
      CreateBodies(wired, place);
      position := if hasParent then spawn else Position(0, 0);
      joystickActive := false;
      expediteActive := false;
    }

    /** `start`: with a parent, the first food joins the parent as one more
        child; the director is resumed only when it is not paused, which
        leaves the pause state as it is. Without a parent nothing happens. */
    method Start()
      modifies this`children
      ensures children == old(children) + (if hasParent then 1 else 0)
    {
      if hasParent {
        children := children + 1;
      }
    }

    /** The loop of `onLoad` that creates the body: `bodyNum` calls of
        `getNewBody`, the m-th placing its segment at `place(m)`. Once one
        segment has been created, the draw order is the one a growth step
        leaves; without any, nothing changes. */
    method CreateBodies(ghost wired: seq<Node>, place: int -> Position)
      requires Valid() && Built(bodyArray, wired, place, 0)
      modifies this`bodyArray, this`children, this`sibling
      ensures Valid()
      ensures var grown := if hasParent && bodyNum > 0 then bodyNum else 0;
              Built(bodyArray, wired, place, grown) && children == old(children) + grown
      ensures hasParent && bodyNum > 0 ==> Ordered(DrawOrderOf())
      ensures !(hasParent && bodyNum > 0) ==> bodyArray == old(bodyArray) && sibling == old(sibling)
    {
      var i := 1;
      while i <= bodyNum
        invariant 1 <= i <= if bodyNum >= 1 then bodyNum + 1 else 1
        invariant Built(bodyArray, wired, place, if hasParent then i - 1 else 0)
        invariant children == old(children) + (if hasParent then i - 1 else 0)
        invariant hasParent && i > 1 ==> Ordered(DrawOrderOf())
        invariant !(hasParent && i > 1) ==> bodyArray == old(bodyArray) && sibling == old(sibling)
      {
        if hasParent {
          BuiltGrows(bodyArray, wired, place, i - 1, children, sibling, prefabPos);
        }
        ghost var before := DrawOrderOf();
        GetNewBody(place(i));
        if hasParent {
          GrowOrders(before, prefabPos, place(i));
        }
        i := i + 1;
      }
    }

    /** `update`: before the game has started, without a parent or without a
        joystick, nothing happens; otherwise the frame's direction is the
        joystick's when nonzero and the previous one otherwise, and it becomes
        the new previous direction. */
    method Update(stick: Option<Dir>)
      modifies this`snakDir, this`previousMoveDir
      ensures if isGameStarted && hasParent && stick.Some?
              then snakDir == Steer(stick.value, old(previousMoveDir)) && previousMoveDir == snakDir
              else snakDir == old(snakDir) && previousMoveDir == old(previousMoveDir)
    {
      if !isGameStarted {
        return;
      }
      if !hasParent {
        return;
      }
      if stick.None? {
        return;
      }
      snakDir := stick.value;
      if IsZero(snakDir) {
        snakDir := previousMoveDir;
      } else {
        previousMoveDir := snakDir;
      }
    }

    /** `getNewBody`: grow the chain by one segment at `placed`. */
    method GetNewBody(placed: Position)
      requires Valid()
      modifies this`bodyArray, this`children, this`sibling
      ensures Valid()
      ensures DrawOrderOf() == GrowStep(old(DrawOrderOf()), hasParent, prefabPos, placed)
    {
      if !hasParent {
        return;
      }
      var n := |bodyArray|;
      if n == 0 {
        return;
      }
      if n >= 2 {
        if bodyArray[n - 1].Null? {
          bodyArray := bodyArray[n - 1 := BodyNode(prefabPos, children)];
          children := children + 1;
        }
        if bodyArray[n - 2].Null? {
          bodyArray := bodyArray[n - 2 := BodyNode(prefabPos, children)];
          children := children + 1;
        }
      }
      bodyArray := bodyArray + [BodyNode(placed, children)];
      children := children + 1;
      assert DrawOrderOf() == Extend(old(DrawOrderOf()), prefabPos, placed);
      ChangeZindex();
    }

    /** `bodyArray[j].position = p`: moves the node of entry j, which for the
        head's entry is the head itself. */
    method SetNodePosition(j: int, p: Position)
      requires Valid() && 0 <= j < |bodyArray| && !bodyArray[j].Null?
      modifies this`bodyArray, this`position
      ensures Valid() && SameShape(bodyArray, old(bodyArray))
      ensures View(bodyArray, position) == old(View(bodyArray, position))[j := Some(p)]
      ensures old(bodyArray[j]).BodyNode? ==> position == old(position)
    {
      if bodyArray[j].HeadNode? {
        position := p;
      } else {
        bodyArray := bodyArray[j := bodyArray[j].(pos := p)];
      }
    }

    /** `moveBody`, the follow tick: from the tail towards the head every
        entry takes the position of the entry before it, then entry 0 takes
        the head position read before the walk. A pair holding a missing node
        ends the tick at once. */
    method MoveBody()
      requires Valid()
      modifies this`bodyArray, this`position
      ensures Valid() && SameShape(bodyArray, old(bodyArray))
      ensures View(bodyArray, position) == AfterMove(old(View(bodyArray, position)), old(position))
      ensures NoHead(old(bodyArray)) ==> position == old(position)
    {
      ghost var a0 := bodyArray;
      ghost var v0 := View(bodyArray, position);
      if |bodyArray| == 0 {
        return;
      }
      var headPos := position;
      var i := |bodyArray| - 2;
      while i >= 0
        invariant -1 <= i <= |a0| - 2
        invariant Valid() && SameShape(bodyArray, a0)
        invariant Walked(v0, View(bodyArray, position), i)
        invariant forall j :: i < j <= |a0| - 2 ==> !bodyArray[j].Null?
        invariant NoHead(a0) ==> position == headPos
        decreases i + 1
      {
        ghost var w := View(bodyArray, position);
        if bodyArray[i].Null? || bodyArray[i + 1].Null? {
          WalkAbort(v0, w, i, headPos);
          return;
        }
        WalkStep(v0, w, i);
        var p := PosOf(bodyArray[i], position).value;
        SetNodePosition(i + 1, p);
        i := i - 1;
      }
      ghost var w := View(bodyArray, position);
      if bodyArray[0].Null? {
        assert w == v0;
        return;
      }
      SetNodePosition(0, headPos);
      WalkFinish(v0, w, headPos);
    }

    /** `changeZindex`: gives every entry before the last the sibling index
        `children - 1 - i`, so that segments nearer the head are drawn above. */
    method ChangeZindex()
      requires Valid()
      modifies this`bodyArray, this`sibling
      ensures Valid()
      ensures DrawOrderOf() == if hasParent then Restack(old(DrawOrderOf())) else old(DrawOrderOf())
    {
      if !hasParent {
        return;
      }
      var lastIndex := children - 1;
      ghost var a0 := bodyArray;
      ghost var k := IndexOfHead(a0);
      var i := 0;
      while i < |bodyArray| - 1
        invariant 0 <= i <= |a0|
        invariant |a0| >= 1 ==> i <= |a0| - 1
        invariant |bodyArray| == |a0|
        invariant forall j :: 0 <= j < |a0| ==>
                    bodyArray[j] == if j < i && a0[j].BodyNode? then a0[j].(sibling := lastIndex - j) else a0[j]
        invariant sibling == if 0 <= k < i then lastIndex - k else old(sibling)
      {
        if bodyArray[i].HeadNode? {
          assert k == i;
          sibling := lastIndex - i;
        } else if bodyArray[i].BodyNode? {
          bodyArray := bodyArray[i := bodyArray[i].(sibling := lastIndex - i)];
        }
        i := i + 1;
      }
      assert bodyArray == Restack(old(DrawOrderOf())).chain;
    }

    /** `playGame`: resume the director, start the game, enable the controls
        and hide the start panel. */
    method PlayGame()
      modifies this`paused, this`isGameStarted, this`joystickActive, this`expediteActive, this`startPanelVisible
      ensures isGameStarted && !paused && joystickActive && expediteActive && !startPanelVisible
      ensures old(PhaseOf()) == NotStarted ==> PhaseOf() == Running
    {
      paused := false;
      isGameStarted := true;
      joystickActive := true;
      expediteActive := true;
      startPanelVisible := false;
    }

    /** `onExpediteStart`: set the flag and add a step to the speed. */
    method OnExpediteStart()
      modifies this`isExpediting, this`speed
      ensures isExpediting && speed == old(speed) + BoostStep
      ensures ThrottleOf() == ExpediteStart(old(ThrottleOf()))
    {
      isExpediting := true;
      speed := speed + BoostStep;
    }

    /** `onExpediteEnd`: when the flag is set, clear it and restore the base
        speed; otherwise nothing. */
    method OnExpediteEnd()
      modifies this`isExpediting, this`speed
      ensures old(isExpediting) ==> !isExpediting && speed == BaseSpeed
      ensures !old(isExpediting) ==> !isExpediting && speed == old(speed)
      ensures ThrottleOf() == ExpediteEnd(old(ThrottleOf()))
    {
      if isExpediting {
        isExpediting := false;
        speed := BaseSpeed;
      }
    }

    /** `onBeginContact` with a collider of group `group`. Food: one more
        point, the score label shows it, the food is replaced and the snake
        grows by one segment at `placed`. Obstacle: the game-over panel shows
        the score and the director pauses. Any other group: nothing. */
    method OnBeginContact(group: int, placed: Position)
      requires Valid()
      modifies this`score, this`scoreText, this`bodyArray, this`children, this`sibling
      modifies this`gameOverVisible, this`gameOverText, this`paused
      ensures Valid()
      ensures group == FoodGroup ==>
                score == old(score) + 1 && scoreText == IntToString(score) &&
                DrawOrderOf() == GrowStep(old(DrawOrderOf()), hasParent, prefabPos, placed) &&
                gameOverVisible == old(gameOverVisible) && gameOverText == old(gameOverText) &&
                paused == old(paused)
      ensures group == ObstacleGroup ==>
                score == old(score) && scoreText == old(scoreText) && DrawOrderOf() == old(DrawOrderOf()) &&
                gameOverVisible && gameOverText == ScoreCaption + IntToString(score) && paused &&
                PhaseOf() == GameOver
      ensures group != FoodGroup && group != ObstacleGroup ==>
                score == old(score) && scoreText == old(scoreText) && DrawOrderOf() == old(DrawOrderOf()) &&
                gameOverVisible == old(gameOverVisible) && gameOverText == old(gameOverText) &&
                paused == old(paused)
    {
      if group == FoodGroup {
        // The eaten food leaves the parent and a new one joins it: the
        // parent's child count is as before.
        score := score + 1;
        scoreText := IntToString(score);
        GetNewBody(placed);
      }
      if group == ObstacleGroup {
        gameOverVisible := true;
        gameOverText := ScoreCaption + IntToString(score);
        paused := true;
      }
    }
  }
}
