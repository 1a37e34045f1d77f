# GreedySnake head component in Dafny

This project models the `Head` component of the GreedySnake game
(assets/scripts/Head.ts). `Head` is the snake's head. It holds:

- the segment list `bodyArray`, which contains the head itself once the component has loaded;
- the steering state, made of the current direction and the previous direction;
- the speed and the boost flag;
- the game-started flag and the score;
- the collision handler, which grows the snake on food and ends the game on an obstacle.

Positions are integer pairs. A node of the segment list is one of three:

- a missing entry (`Null`, a `null` in the editor-wired array);
- the head's own node (`HeadNode`), whose position is the head's position field;
- a body segment with its own position and sibling index.

The follow tick is specified on the list's *view*, the position of each entry or
`None` when the entry is missing. Writing to the head's entry therefore moves the
head, as it does in the engine.

Modules (one per file):

- `Chain` (chain.dfy) holds the segment list and its specification functions:
  - the follow tick `AfterMove` and repeated ticks `Ticks`;
  - compaction `Compact`;
  - growth: `Extend`, `Grow` and `GrowStep`;
  - the draw-order pass `Restack`;
  - the shape `onLoad` builds, `Built`.

  It also holds the lemmas about all of these.
- `Steering` (steering.dfy) holds the directional inertia of `update`, together with a
  reference definition ("the last nonzero input") and the lemma linking the two.
- `Decimal` (decimal.dfy) holds the decimal text of an integer (`score.toString()`) and
  its round trip.
- `Boost` (boost.dfy) holds the expedite press and release as functions on
  `(expediting, speed)`, with lemmas about sequences of presses.
- `HeadComponent` (head.dfy) is the `Head` class. Each event handler of the component
  is a method that changes the class's fields and states the whole new value of
  what it modifies, by way of the `Chain`, `Steering`, `Decimal` and `Boost`
  functions.

Inputs that the engine supplies are method parameters:

- the joystick direction of a frame (`None` when there is no joystick component);
- the collider group of a contact;
- the positions where the engine places new segments and the spawn point.

Whether the head has a parent, the editor's `bodyNum` and the position of a freshly
instantiated body prefab are constants of the object.

Four behaviours of the code that the model follows as written:

- `onExpediteStart` has no guard, so every press adds 50 to the speed again. Repeated
  presses compound (`Boost.PressesCompound`). They are not idempotent.
- `playGame` tests `director.isPaused` without calling it (Head.ts:237). The test is a
  function value, so it is always truthy, and the director is always resumed.
- Food contact on a head without a parent fails at `this.node.parent.addChild`
  (Head.ts:273) after the score and text have changed. The model keeps those two
  changes and leaves the chain alone. The effect is that of `getNewBody` returning at
  its parent check.
- `onBeginContact` has no guard per contact. A contact that the engine reports twice
  scores twice and grows the snake twice.

## Model

| member | source | states |
|---|---|---|
| Chain.LastGap | assets/scripts/Head.ts:193-197 | the walk from the tail stops at the highest pair (i, i+1) that holds a missing node: the result is such a pair, or -1, and no pair above it holds a missing node |
| Chain.MoveEmpty | assets/scripts/Head.ts:187-190 | a tick on an empty list changes nothing |
| Chain.MoveNoGap | assets/scripts/Head.ts:192-200 | a walk that meets no missing pair keeps the length, moves every entry k ≥ 1 to the old position of entry k-1 and puts the captured head position at entry 0 |
| Chain.MoveFullShift | assets/scripts/Head.ts:185-201 | full shift on a list without missing nodes: same length, new a[k] = old a[k-1], new a[0] = head position captured before the walk |
| Chain.MoveAbort | assets/scripts/Head.ts:193-197 | when (i, i+1) is the pair where the walk meets a missing node, entries i+2.. are already shifted, entries 0..i+1 are untouched and entry 0 does not get the head position |
| Chain.WalkStep | assets/scripts/Head.ts:193-199 | one iteration of the backward walk (a[i+1] takes a[i]) keeps the walk's progress invariant, one index further down |
| Chain.WalkAbort | assets/scripts/Head.ts:194-197 | a walk that stops at a missing pair has produced exactly the follow tick |
| Chain.WalkFinish | assets/scripts/Head.ts:193-200 | a walk that reaches the front, followed by a[0] := headPos, has produced exactly the follow tick |
| Chain.TicksShift | assets/scripts/Head.ts:192-200 | after t ticks with the head held still, entries 0..t-1 hold the head position and every other entry j holds the original entry j-t: no position is lost before it is copied |
| Chain.Converge | assets/scripts/Head.ts:192-200 | with entry 0 at the head position and the head held still, n-1 ticks bring every entry to the head position |
| Chain.ConvergeFromAnywhere | assets/scripts/Head.ts:192-200 | from any complete list, n ticks with the head held still bring every entry to the head position |
| Chain.Compact | assets/scripts/Head.ts:57 | the filtered list has no missing entries, is no longer than the input, has no head if the input had none, and equals the input when nothing was missing |
| Chain.CompactCounts | assets/scripts/Head.ts:57 | filtering drops exactly the missing entries (length = length minus the number of nulls) and keeps every present node as often as it occurred |
| Chain.CompactAppend | assets/scripts/Head.ts:57 | filtering commutes with concatenation, so the present nodes keep their order |
| Chain.IndexOfHead | assets/scripts/Head.ts:226-228 | the index of the head's node in the list is its first occurrence, and -1 means the head is absent |
| Chain.Restack | assets/scripts/Head.ts:219-233 | the draw-order pass keeps the length and the parent's child count, keeps every entry's kind and position, and keeps the head unique |
| Chain.RestackOrders | assets/scripts/Head.ts:225-228 | after the pass every present entry i before the last one has sibling index lastIndex - i, so sibling indices strictly decrease from head end to tail |
| Chain.Extend | assets/scripts/Head.ts:145-173 | backfill and push: one entry more; the pushed segment stands at the placement point with the parent's newest index. With two or more entries, a missing last or second-to-last entry becomes a prefab node and other entries are unchanged. The parent gains one child per node attached |
| Chain.Grow | assets/scripts/Head.ts:132-178 | one successful growth step adds exactly one entry and keeps the head unique |
| Chain.GrowthFacts | assets/scripts/Head.ts:145-174 | after growth: length + 1; the appended entry is present; the last two old entries are present; every other entry keeps kind and position; the child count rises by one per attached node |
| Chain.GrowOrders | assets/scripts/Head.ts:171-174 | after any growth step, every present entry j before the last has sibling index children - 1 - j, and the pushed tail holds the index it was attached at, children - 1 |
| Chain.BuiltGrows | assets/scripts/Head.ts:63-65 | one more loop iteration of `onLoad` extends the built chain by the next new segment and the parent by one child |
| Chain.BuiltShape | assets/scripts/Head.ts:57-65 | the chain `onLoad` builds has no missing entry and has length (present pre-wired nodes) + 1 + bodyNum; the head sits at the index equal to the number of present pre-wired nodes |
| Steering.Steer | assets/scripts/Head.ts:118-123 | the frame's direction is the input exactly when the input is nonzero, otherwise the previous direction |
| Steering.SteerAllIsLastNonZero | assets/scripts/Head.ts:118-123 | frame by frame steering remembers exactly the last nonzero input of a run, or the initial direction if there was none |
| Steering.SteerAllSnoc | assets/scripts/Head.ts:118-123 | running one more frame after a run steers from the run's resulting direction |
| Steering.NeutralRunKeepsDirection | assets/scripts/Head.ts:119-120 | any number of zero inputs keeps the previous direction |
| Steering.NeverStops | assets/scripts/Head.ts:119-123 | once the previous direction is nonzero, no input sequence makes it zero |
| Decimal.NatToString | assets/scripts/Head.ts:271 | the decimal text of a natural number is nonempty, all digits and has no leading zero |
| Decimal.IntToString | assets/scripts/Head.ts:271 | the text of an integer is a numeral and starts with a minus sign exactly when the integer is negative |
| Decimal.NatRoundTrip | assets/scripts/Head.ts:271 | reading the digits back gives the number |
| Decimal.IntRoundTrip | assets/scripts/Head.ts:271 | the score text reads back as the score |
| Decimal.IntToStringInjective | assets/scripts/Head.ts:271 | different scores give different texts |
| Boost.PressesCompound | assets/scripts/Head.ts:251-255 | k presses add exactly 50·k to the speed and leave the flag set when k > 0 |
| Boost.ReleaseRestores | assets/scripts/Head.ts:257-263 | a release after one or more presses gives exactly speed 200 with the flag cleared |
| Boost.ReleaseIdempotent | assets/scripts/Head.ts:258-262 | a release with the flag clear changes nothing, two releases equal one, and the flag is clear after a release |
| HeadComponent.FacingOf | assets/scripts/Head.ts:60 | the initial facing direction is zero exactly when the head stands at the origin |
| HeadComponent.Head.constructor | assets/scripts/Head.ts:9-53 | the component's initial field values: speed 200, score 0, not expediting, not started, start panel shown |
| HeadComponent.Head.OnLoad | assets/scripts/Head.ts:55-76 | the list becomes the filtered pre-wired nodes, then the head, then bodyNum new segments, with one more child per segment (none without a parent); with at least one segment created, the draw order is the one a growth step leaves (entry j has sibling index children - 1 - j), otherwise the list is the filtered nodes plus the head and the head's sibling index is unchanged; the facing is the initial position; the head moves to the spawn point; the controls are disabled |
| HeadComponent.Head.CreateBodies | assets/scripts/Head.ts:63-65 | bodyNum growth steps extend the built chain by bodyNum segments, the m-th at the m-th placement point, and leave the draw order of the last growth step; with no step nothing changes |
| HeadComponent.Head.Start | assets/scripts/Head.ts:78-99 | with a parent, the first food joins the parent as one more child; without one nothing changes |
| HeadComponent.Head.Update | assets/scripts/Head.ts:101-130 | before the game starts, without a parent or without a joystick nothing changes; otherwise the direction is the nonzero input or the previous direction, and it becomes the previous direction |
| HeadComponent.Head.GetNewBody | assets/scripts/Head.ts:132-178 | the new list, child count and head sibling are exactly one growth step, or unchanged without a parent or on an empty list; the head stays unique |
| HeadComponent.Head.SetNodePosition | assets/scripts/Head.ts:198 | writing a node's position changes exactly that entry of the view, moving the head itself when the entry is the head |
| HeadComponent.Head.MoveBody | assets/scripts/Head.ts:185-201 | the new view is exactly the follow tick of the old view with the captured head position; kinds and sibling indices are unchanged; the head stays put when the list does not hold it |
| HeadComponent.Head.ChangeZindex | assets/scripts/Head.ts:219-233 | the new list and head sibling are exactly the draw-order pass, or unchanged without a parent |
| HeadComponent.Head.PlayGame | assets/scripts/Head.ts:236-244 | the game is started and resumed, the controls are enabled, the start panel is hidden; a game that had not started is now running |
| HeadComponent.Head.OnExpediteStart | assets/scripts/Head.ts:251-255 | the flag is set and the speed is the old speed + 50 |
| HeadComponent.Head.OnExpediteEnd | assets/scripts/Head.ts:257-263 | with the flag set: flag cleared and speed 200; otherwise nothing changes |
| HeadComponent.Head.OnBeginContact | assets/scripts/Head.ts:265-282 | food: score + 1, score text = the new score's decimal text, exactly one growth step, nothing else. Obstacle: score and chain unchanged, game-over text "得分" + score, panel shown, paused. Any other group: nothing changes |

## Left out

- Floating-point vector arithmetic is not modelled: `normalize` and `length`, the integration `position + dir·speed·dt` in `update`, `rotateHead` and `node.angle`, and the placement of a new segment `bodyDistance` behind the previous one. The engine's placement points are parameters, a fresh prefab node stands at a fixed position, and a direction is zero exactly when its integer components are.
- HeadComponent.Update: does not move the head or turn it. Only the gating and the direction choice are modelled, because the movement is floating-point.
- `randomPos` and all of assets/scripts/Food.ts are not modelled, because they draw from `Math.random`. The spawn point is a parameter of `OnLoad`, and it is the origin without a parent.
- HeadComponent.Head.Start: models only the first food joining the parent. The 0.2 s schedule of `moveBody` and the collider registration are engine setup and are not modelled. The director resume at Head.ts:81-83 runs only when the director is not paused, so it changes nothing. The gap between frame updates and the follow timer is not modelled either: `MoveBody` is an explicit step.
- `restartGame` reloads the scene, which is a reset to a freshly constructed component. It is not a separate operation of the model.
- `director.pause` stopping further callbacks is not modelled. `paused` is a flag, and methods still run if called.
- Console logging, `instantiate` failing and the `this.node` check in `onLoad` are not modelled. The head node always exists.
- The text colour of the score label is not modelled.
- Joystick internals are not modelled. That includes the in-place `normalize` that may make `previousMoveDir` alias the joystick's vector. Directions are values.
- HeadComponent.Head.MoveBody: the captured `headPos` is a value. In the engine, `node.position` returns a live reference, and that reference is what entry 0 receives. Duplicate or aliased body nodes in the list are not modelled: each entry is its own node.
- HeadComponent.Head.MoveBody: when entry 0 is missing on a one-entry list, the source fails on the null entry. The model ends the tick with nothing changed.
- HeadComponent.Head.OnLoad: requires that the wired list does not already hold the head's own node. A head wired into the list by hand is not modelled.
- HeadComponent.Head.ChangeZindex: `setSiblingIndex` reordering the parent's other children is not modelled. Each node records the index it was given. In the engine, the pass moves the entries before the tail to the top indices, and that pushes the newly added tail down to lastIndex - (n-1). `Chain.Extend` and `Chain.GrowOrders` record the index the tail was attached at, children - 1.
- `speed` and `score` are JavaScript numbers (Head.ts:24, 35), that is, doubles. They are modelled as unbounded integers, which assumes they stay below 2^53. `Decimal.IntToString` writes plain digits, as `toString` does for integers below 10^21; from there on the engine writes an exponent form.
- The joystick, expedite button and start panel nodes are assumed to be wired. `onLoad` (Head.ts:69-70) and `playGame` (Head.ts:241-243) set their `active` flags without a null check and would fail on an unwired node. The joystick check that `update` makes (Head.ts:111) is modelled by the `None` input.
- HeadComponent.Head.CreateBodies: a helper holding `onLoad`'s loop, so that the loop can be given its own contract.
- `Chain.Ticks` iterates ticks with the head held still. How the head moves between ticks is not modelled.
