# collider-rs in Dafny

This project models the core of collider-rs, a continuous-time 2D collision
detection library. The user adds hitboxes to a `Collider`. Each hitbox is a
circle or an axis-aligned rectangle, with a velocity and a duration. The user
advances the clock, and `next` hands out `Collide` and `Separate` events at
the moment two hitboxes begin or stop overlapping.

The model has these parts:

- **Geometry.** Vectors (`Vec`), shapes and placed shapes (`Shape`), the
  cardinal directions of the two geometry modules (`Geom` and `GeomCard`),
  and the sector and bounding-box helpers (`GeomExt`).
- **Moving hitboxes.** `Core` covers a hitbox that moves linearly for its
  duration. `DurationHitbox` covers the variant whose duration is kept in
  its own field.
- **Grid cells.** `IndexRects` models rectangles of grid cells and their
  iterator. `Grids` models the spatial grid that finds candidate neighbours.
- **Event queue.** `Events` models the event manager: a queue of internal
  events keyed by time and a unique index. Every hitbox records the keys of
  the events that involve it.
- **The collider.** `Colliders` models the collider itself, a class over
  hitbox records, the grid and the event manager. Its invariant `Valid`
  holds the library's internal consistency conditions:
  - every queued key is recorded by exactly the hitboxes its event
    involves (`Mirror`);
  - the overlap relation is symmetric;
  - a queued `Collide` joins non-overlapping hitboxes, and a queued
    `Separate` joins overlapping ones;
  - at most one pair event is queued per pair;
  - nothing is queued before the clock;
  - every hitbox has its solitary event queued (re-check, duration passed
    or too small);
  - every hitbox is stored in exactly the grid cells of its area.

  Every public operation that ends with `Ok` leaves `Valid` holding, and
  `advance` keeps it on a panic too.

Numbers are modelled as exact reals. `f64::INFINITY` is modelled as the
`PosInf` case of `XReal`.

A panic of the collider's public operations is modelled as an
`Outcome.Panic` with its reason. A refusal for a used or unknown id
(`IdInUse`, `IdNotFound`), an invalid hitbox (`InvalidHitbox`) or a bad
`advance` leaves the collider unchanged. Running out of event indices
(`IndicesExhausted`) and the panic events `next` pops do not: the contracts
promise nothing about the state they leave beyond the exhausted counter.
The assertions of the
constructor and of the geometry and hitbox helpers are preconditions
instead; "## Left out" lists them. The model follows the debug build; where
the release build differs, "## Left out" says so.

## Model

| member | source | states |
|---|---|---|
| Vec.AddLaws | src/geom/vec.rs:82-87 | vector addition has zero as identity and is commutative and associative |
| Vec.Sub | src/geom/vec.rs:89-94 | subtraction undoes addition: adding `b` back to `a - b` gives `a` |
| Vec.Neg | src/geom/vec.rs:96-101 | a vector plus its negation is the zero vector |
| Vec.Scale | src/geom/vec.rs:68-73 | scaling by 1 is the identity, scaling by 0 gives zero, and scaling by -1 is negation |
| Vec.DotSymmetric | src/geom/vec.rs:75-80 | the dot product does not depend on the order of its operands |
| Vec.LenSq | src/geom/vec.rs:44-46 | the squared length is the dot product of the vector with itself and is never negative |
| Vec.DistSq | src/geom/vec.rs:59-61 | the squared distance is never negative and is zero between equal points |
| Vec.DistSqSymmetric | src/geom/vec.rs:59-61 | the squared distance from a to b equals that from b to a |
| Vec.ToVec2 | src/geom/vec.rs:129-133 | a direction-with-length becomes its direction scaled by its length |
| Vec.Flip | src/geom/vec.rs:124-126 | flipping keeps the length and negates the direction |
| Vec.FlipLaws | src/geom/vec.rs:124-133 | flipping twice is the identity, and a flipped value denotes the negated vector |
| Shape.New | src/geom/shape/mod.rs:34-37 | construction succeeds exactly when the shape is a rectangle or a circle with equal width and height, and it keeps kind, width and height |
| Shape.NewCircle | src/geom/shape/mod.rs:39-41 | a circle of diameter d is the always-successful `new(Circle, d, d)` |
| Shape.NewRect | src/geom/shape/mod.rs:43-45 | a rectangle is the always-successful `new(Rect, w, h)` |
| Shape.Scale | src/geom/shape/mod.rs:63-68 | scaling keeps the kind and multiplies both dimensions |
| Shape.Add | src/geom/shape/mod.rs:70-76 | adding is defined exactly when both shapes are of the same kind, and it adds the dimensions |
| Shape.Sub | src/geom/shape/mod.rs:78-84 | subtracting is defined exactly when the kinds agree, and it undoes adding |
| Shape.Neg | src/geom/shape/mod.rs:86-91 | subtracting a shape is adding its negation |
| Shape.SubUndoesAdd | src/geom/shape/mod.rs:70-91 | `(a + b) - b == a`, and negating twice is the identity |
| Shape.PlacedShape.Bottom | src/geom/shape/mod.rs:120-122 | the bottom edge lies half the height below the centre |
| Shape.PlacedShape.Left | src/geom/shape/mod.rs:124-126 | the left edge lies half the width left of the centre |
| Shape.PlacedShape.Top | src/geom/shape/mod.rs:128-130 | the top edge lies one height above the bottom edge |
| Shape.PlacedShape.Right | src/geom/shape/mod.rs:132-134 | the right edge lies one width right of the left edge |
| Shape.PlacedScale | src/geom/shape/mod.rs:150-155 | scaling a placed shape scales every edge |
| Shape.PlacedAdd | src/geom/shape/mod.rs:157-162 | adding placed shapes is defined exactly when their kinds agree; the sum has that kind and each of its edges is the sum of the two edges |
| Shape.PlacedSub | src/geom/shape/mod.rs:164-169 | subtracting placed shapes undoes adding them |
| Shape.PlacedNeg | src/geom/shape/mod.rs:171-176 | negating a placed shape negates its edges, and `p + (-p)` is zero |
| Geom.Card.Flip | src/geom/mod.rs:32-39 | no direction is its own opposite |
| Geom.Card.ToVec2 | src/geom/mod.rs:48-56 | each direction is a unit vector along one axis |
| Geom.Vals | src/geom/mod.rs:41-46 | the four listed directions are distinct and every direction is listed |
| Geom.FlipInvolution | src/geom/mod.rs:32-56 | the opposite of the opposite is the direction itself, and the opposite's vector is the negated vector |
| GeomCard.Card.Flip | src/geom/card.rs:36-43 | the opposite differs from the direction and lies on the same axis |
| GeomCard.Card.Index | src/geom/card.rs:88-95 | every direction indexes one of the four flags |
| GeomCard.Values | src/geom/card.rs:47-49 | the listed values sit at their own indices, so all four are listed once |
| GeomCard.FlipInvolution | src/geom/card.rs:36-43 | flipping twice is the identity |
| GeomCard.CardMask.Set | src/geom/card.rs:97-102 | setting a flag changes that flag and no other |
| GeomCard.CardMask.Flip | src/geom/card.rs:70-77 | the flipped mask holds a direction's flag exactly when the original held the opposite's |
| GeomCard.Empty | src/geom/card.rs:58-62 | the empty mask holds no direction |
| GeomCard.Full | src/geom/card.rs:64-68 | the full mask holds every direction |
| GeomCard.FromCard | src/geom/card.rs:80-86 | the mask of one direction holds that direction and no other |
| GeomCard.MaskExtensional | src/geom/card.rs:88-95 | masks that agree on every direction are equal |
| GeomExt.IntervalSector | src/geom_ext.rs:117-125 | a value is `Less` exactly when below the interval, `Greater` exactly when above it, and `Equal` exactly when inside |
| GeomExt.SectorOf | src/geom_ext.rs:64-68 | on each axis the sector is `Less` exactly when the point is before the box, `Greater` exactly when it is past the box, and `Equal` otherwise; `(Equal, Equal)` exactly when the point lies in the box |
| GeomExt.Corner | src/geom_ext.rs:70-82 | a corner sector gives a corner of the box, which lies in the box whenever its dimensions are non-negative |
| GeomExt.CornerIsNearest | src/geom_ext.rs:70-82 | the corner of a point's sector is the box point nearest on each axis |
| GeomExt.Edge | src/geom_ext.rs:108-115 | each direction gives the distance of that edge from the origin, measured along the direction |
| GeomExt.CardOverlap | src/geom_ext.rs:84-86 | the overlap along a direction is how far the one box reaches past the other's opposite edge |
| GeomExt.CardOverlapSymmetric | src/geom_ext.rs:84-86 | the overlap of a past b along a direction equals that of b past a along the opposite direction |
| GeomExt.CardOverlapsIffIntersect | src/geom_ext.rs:84-86 | all four directional overlaps are non-negative exactly when the boxes intersect |
| GeomExt.IsZero | src/geom_ext.rs:88-90 | a placed shape is zero exactly when all four of its edges are at zero |
| GeomExt.AsRect | src/geom_ext.rs:92-94 | the rectangle view is a rectangle with the same four edges |
| GeomExt.BoundingBox | src/geom_ext.rs:96-105 | the bounding box is a rectangle whose edges are the outermost edges of the two shapes |
| GeomExt.BoundingBoxContains | src/geom_ext.rs:96-105 | both shapes lie inside their bounding box |
| Core.New | src/core/mod.rs:35-43 | a new hitbox is stationary, valid forever and in group 0 |
| Core.AdvancedShape | src/core/mod.rs:56-59 | after time t each edge has moved by its velocity times t |
| Core.Advance | src/core/mod.rs:45-54 | advancing keeps the end time, the velocity and the group, and moves the shape by the velocity times the elapsed time; advancing by nothing changes nothing |
| Core.AdvancedShapeTwice | src/core/mod.rs:56-59 | moving by d1 and then by d2 is moving by d1 + d2 |
| Core.AdvanceTwice | src/core/mod.rs:45-54 | advancing from t0 to t1 and then to t2 is advancing from t0 to t2 |
| Core.BoundingBoxFor | src/core/mod.rs:65-72 | a rectangle; for a stationary hitbox it has the shape's own four edges, and for a moving one its edges are the outermost edges of the shape now and at the end of the duration |
| Core.BoundingBoxOf | src/core/mod.rs:61-63 | a rectangle holding the current shape; its own edges when stationary, the outermost edges of the start and end shapes over the hitbox's duration when moving |
| Core.LinearMotionBetween | src/core/mod.rs:65-72 | an edge moving linearly stays between its start and end positions at every moment in between |
| Core.SweptBoxCovers | src/core/mod.rs:65-72 | the box `bounding_box_for` gives over a duration holds the moving shape at every moment of that duration, not only at both ends |
| Core.EdgeSwept | src/core/mod.rs:56-59 | an edge that moves linearly from its start to its end lies between the two at any moment in between |
| DurationHitbox.New | src/core/dur_hitbox/mod.rs:30-36 | a new duration hitbox is stationary and lasts forever |
| DurationHitbox.AdvancedShape | src/core/dur_hitbox/mod.rs:38-41 | for a time below `HIGH_TIME` the shape has each edge moved by its velocity times that time |
| DurationHitbox.BoundingBoxFor | src/core/dur_hitbox/mod.rs:47-54 | a rectangle; the shape's own edges when stationary, and the outermost edges of the shape now and at the end of the duration when moving |
| DurationHitbox.BoundingBoxOf | src/core/dur_hitbox/mod.rs:43-45 | a rectangle holding the current shape; its own edges when stationary, the outermost edges of the start and end shapes over its own duration when moving |
| DurationHitbox.NewBoundsAnywhere | src/core/dur_hitbox/mod.rs:30-54 | a new stationary hitbox is bounded for any duration, by its own shape |
| DurationHitbox.SweptBoxCovers | src/core/dur_hitbox/mod.rs:47-54 | the box over a duration holds the moving shape at every moment of that duration |
| IndexRects.New | src/index_rect.rs:25-31 | construction succeeds exactly when the rectangle is non-empty on both axes, and it keeps start and end |
| IndexRects.NextVal | src/index_rect.rs:55-71 | a fresh iterator starts at `start`, each step stays in the rectangle, and the walk ends exactly after the last cell |
| IndexRects.Iter.constructor | src/index_rect.rs:47-50 | a new iterator has handed out nothing |
| IndexRects.Iter.Next | src/index_rect.rs:55-71 | `next` performs one step of the walk and returns the new value |
| IndexRects.IterateClosedForm | src/index_rect.rs:55-71 | the call numbered `q * height + r + 1` hands out the cell in column q, row r |
| IndexRects.YieldsCells | src/index_rect.rs:79-89 | each of the first `width * height` calls hands out a cell of the rectangle |
| IndexRects.YieldsDistinct | src/index_rect.rs:79-89 | no cell is handed out twice in one walk |
| IndexRects.EveryCellYielded | src/index_rect.rs:79-89 | every cell of the rectangle is handed out, at a call number given in closed form |
| IndexRects.ContainsIffYielded | src/index_rect.rs:37-39 | `contains` holds exactly for the cells a walk hands out |
| IndexRects.IterationEnds | src/index_rect.rs:55-71 | the walk ends after `width * height` cells, and one more call restarts it |
| IndexRects.ExampleCount | src/index_rect.rs:79-116 | (2,3)..(5,7) has 12 cells; the degenerate rectangles of the tests are refused |
| Grids.AreaContainsIffVisited | src/core/grid.rs:39-43 | an area holds a key exactly when the key's group is the area's group and its cell lies in the area's rectangle |
| Grids.IndexBounds | src/core/grid.rs:81-90 | no group gives no area; otherwise the area starts at the floor cells of the box and ends, on each axis, at the larger of the ceiling cell and one past the floor cell |
| Grids.RowIdsMeaning | src/core/grid.rs:92-105 | the ids collected from a row of cells are exactly those stored in its cells |
| Grids.RectIdsMeaning | src/core/grid.rs:92-105 | the ids collected from a rectangle are exactly those stored in its cells |
| Grids.GroupsIdsMeaning | src/core/grid.rs:92-105 | the ids collected for a list of groups are exactly those stored in the cells of those groups |
| Grids.Grid.constructor | src/core/grid.rs:51-53 | a new grid is empty with the given cell width |
| Grids.Grid.CellPeriod | src/core/grid.rs:55-66 | the period is infinite exactly when there is no group or no speed; otherwise it is the time to cross one cell width, and it is positive |
| Grids.Grid.OverlappingIds | src/core/grid.rs:92-105 | the result holds exactly the ids stored in the cells of the area, other than the caller's own |
| Grids.Grid.RemoveFromCell | src/core/grid.rs:111-119 | the id leaves the cell, an emptied cell is dropped, and no other cell changes |
| Grids.Grid.InsertIntoCell | src/core/grid.rs:122-129 | the id joins the cell and no other cell changes |
| Grids.Grid.UpdateArea | src/core/grid.rs:107-132 | afterwards the id is stored in exactly the cells of the new area, and the other ids keep their cells |
| Grids.Grid.UpdateHitbox | src/core/grid.rs:68-79 | the id moves to its new area, and the ids overlapping the new area are reported |
| Events.CmpIsTotalOrder | src/core/events.rs:40-68 | the event key order is a strict total order |
| Events.EarlierTimeFirst | src/core/events.rs:60-68 | a key with an earlier time comes first, and the index breaks ties |
| Events.OneOrTwo.OtherId | src/core/events.rs:86-88 | the partner of a pair member is the other member; a single id or a stranger has none |
| Events.InternalEvent.InvolvedHitboxIds | src/core/events.rs:90-99 | pair events involve both ids, and solitary events involve one |
| Events.InternalEvent.OtherId | src/core/events.rs:85-88 | only pair events have a partner, and it is the other id of the pair |
| Events.Earliest | src/core/events.rs:191-193 | the earliest key of a non-empty queue is queued and not later than any other key |
| Events.EarliestTime | src/core/events.rs:171-173 | an empty queue gives infinity; otherwise the time of a queued key that no queued key precedes |
| Events.Unlink | src/core/events.rs:175-189 | the popped key leaves exactly the key sets of the hitboxes its event involves |
| Events.EventManager.constructor | src/core/events.rs:108-113 | a new manager has an empty queue and index 0 |
| Events.EventManager.NewEventKey | src/core/events.rs:156-169 | no key is made at or beyond `HIGH_TIME`; otherwise the key takes the next index, offset for pairs, which was never issued before; running out of indices is reported |
| Events.EventManager.AddSolitaireEvent | src/core/events.rs:115-125 | a solitary event up to `HIGH_TIME` is queued under a fresh key recorded for its hitbox; a later one is dropped |
| Events.EventManager.AddPairEvent | src/core/events.rs:127-139 | a pair event up to `HIGH_TIME` is queued under a fresh key recorded for both hitboxes; a later one is dropped |
| Events.EventManager.ClearRelatedEvents | src/core/events.rs:141-154 | every event of the hitbox is unqueued, and its keys leave its own and its partners' key sets |
| Events.EventManager.PeekKey | src/core/events.rs:191-193 | the first key of the queue |
| Events.EventManager.PeekTime | src/core/events.rs:171-173 | the time of the first event, or infinity when nothing is queued |
| Events.EventManager.Next | src/core/events.rs:175-189 | an event is popped exactly when the first one is due; its key is unlinked from the hitboxes it involves |
| Colliders.HitboxAtTime | src/core/collider.rs:335-339 | the stored hitbox seen at a later time keeps its end time and velocity, and its shape has moved by the velocity times the time elapsed since it was stored |
| Colliders.PubHitboxAtTime | src/core/collider.rs:341-346 | the hitbox handed to the user is valid, keeps its public end time, velocity and group, and its shape has moved by the velocity times the time elapsed since it was stored |
| Colliders.StoredReadsBack | src/core/collider.rs:225-234 | a hitbox stored at the current time reads back unchanged |
| Colliders.OnlyEntryReplaced | src/core/collider.rs:173-181 | replacing one record keeps every other record |
| Colliders.SolitaryChoice | src/core/collider.rs:276-286 | the earliest of re-check, duration end and too-small time wins; a re-check wins ties, and duration wins a tie with too-small |
| Colliders.Event.OtherId | src/core/collider/mod.rs:284-290 | each id of an event has the other as partner |
| Colliders.NewEvent | src/core/collider/mod.rs:294-298 | an event exists exactly for two different ids, with the smaller first |
| Colliders.NewCollide | src/core/collider/mod.rs:300-302 | a collide event of two different ids pairs each with the other |
| Colliders.NewSeparate | src/core/collider/mod.rs:304-306 | a separate event of two different ids pairs each with the other |
| Colliders.NewEventSymmetric | src/core/collider.rs:362-366 | the order of the two ids does not matter |
| Colliders.AdvanceKeepsShared | src/core/collider.rs:85-90 | moving the clock forward, up to the first queued event, keeps the invariant |
| Colliders.ClearedKeys | src/core/events.rs:141-154 | after clearing, the hitbox's key set is empty and its keys are gone from every other set |
| Colliders.ClearKeepsMirror | src/core/events.rs:141-154 | unqueueing a hitbox's events keeps every key recorded by exactly its hitboxes, and no event of it remains |
| Colliders.ClearKeepsShared | src/core/collider.rs:202 | clearing a hitbox's events keeps the invariant |
| Colliders.DropPartnersKeepsShared | src/core/collider.rs:268-274 | dropping overlaps on both sides changes only overlap sets and keeps the invariant |
| Colliders.DropKeepsOverlaps | src/core/collider.rs:268-274 | dropping overlaps on both sides keeps the relation symmetric and in agreement with the queued pair events |
| Colliders.AddPairKeepsShared | src/core/events.rs:127-139 | queueing a new pair event that agrees with the overlaps keeps the invariant |
| Colliders.AddPairKeepsMirror | src/core/events.rs:127-139 | recording a new pair key for both hitboxes keeps the mirror |
| Colliders.AddSolitaryKeepsShared | src/core/events.rs:115-125 | queueing a solitary event no earlier than the clock keeps the invariant |
| Colliders.ReplaceInfoKeepsShared | src/core/collider.rs:225-233 | replacing a record and its grid cells keeps the invariant |
| Colliders.DropAllPartners | src/core/collider.rs:268-274 | after dropping all partners, no other hitbox overlaps the cleared one |
| Colliders.JoinOverlap | src/core/collider.rs:114-115 | a collision records the pair in both overlap sets and changes nothing else |
| Colliders.SplitOverlap | src/core/collider.rs:127-128 | a separation removes the pair from both overlap sets and changes nothing else |
| Colliders.JoinKeepsShared | src/core/collider.rs:110-121 | processing a popped collide keeps the invariant |
| Colliders.JoinKeepsOverlaps | src/core/collider.rs:110-121 | recording a collision keeps the overlap relation symmetric and in agreement with the queue |
| Colliders.SplitKeepsShared | src/core/collider.rs:123-135 | a popped separate is between overlapping hitboxes, and processing it keeps the invariant |
| Colliders.SplitKeepsOverlaps | src/core/collider.rs:123-135 | recording a separation keeps the overlap relation symmetric and in agreement with the queue |
| Colliders.JoinReported | src/core/collider.rs:110-121 | the reported `Collide` names two present ids in order and agrees with the overlap just recorded |
| Colliders.SplitReported | src/core/collider.rs:123-135 | the reported `Separate` names two present ids in order and agrees with the overlap just removed |
| Colliders.FollowUp | src/core/collider.rs:110-135 | a `Collide` is followed by the same pair's `Separate`, and a `Separate` by its `Collide` |
| Colliders.PopKeepsShared | src/core/events.rs:175-189 | popping an event keeps the invariant, and no other event of the same pair remains |
| Colliders.PopKeepsMirror | src/core/events.rs:175-189 | unlinking the popped key keeps the mirror |
| Colliders.DueShrinks | src/core/collider.rs:99-106 | each re-check event handled in `next` shrinks the set of due re-checks, so the loop ends |
| Colliders.FirstDueIff | src/core/events.rs:175-189 | with nothing queued before the clock, no event is due exactly when the first queued event is later than now |
| Colliders.OverlapsArePrivate | src/core/collider.rs:110-135 | changing only overlap sets changes no hitbox the user sees |
| Colliders.ReplacedKeepsPublic | src/core/collider.rs:136-139 | replacing one record by one that shows the same hitbox changes no hitbox the user sees |
| Colliders.SamePublicTrans | src/core/collider.rs:99-106 | what the user sees is unchanged across any number of rounds that each leave it unchanged |
| Colliders.InsertKeepsShared | src/core/collider.rs:155-158 | a new record with no events and no overlaps keeps the invariant for everything but itself |
| Colliders.InsertKeepsMirror | src/core/collider.rs:155-158 | an empty key set for a new hitbox keeps the mirror |
| Colliders.InsertKeepsOverlaps | src/core/collider.rs:155-158 | a new record without overlaps keeps the relation symmetric |
| Colliders.DeleteKeepsMirror | src/core/collider.rs:163-166 | deleting an empty key set keeps the mirror |
| Colliders.DeleteKeepsOverlaps | src/core/collider.rs:163-166 | deleting a record without overlaps keeps the relation symmetric |
| Colliders.DeleteKeepsShared | src/core/collider.rs:163-166 | deleting a cleared, unplaced hitbox keeps the whole invariant |
| Colliders.Incompatible | src/core/collider.rs:258-266 | the dropped partners are exactly the overlapping ones it can no longer interact with |
| Colliders.CollideQueuedStep | src/core/collider.rs:238-245 | after one neighbour is handled, every wanted `Collide` among the neighbours handled so far is queued at its time |
| Colliders.SeparateQueuedStep | src/core/collider.rs:248-253 | after one partner is handled, every wanted `Separate` among the partners handled so far is queued at its time |
| Colliders.NeighbourEventsJoin | src/core/collider.rs:236-253 | the events the two loops add are the collides of the first and the separates of the second |
| Colliders.UpdateEventsJoin | src/core/collider.rs:225-253 | the solitary event followed by the two loops keeps every earlier event and adds only the update's own events |
| Colliders.UpdateEventsAfterClear | src/core/collider.rs:202 | measured against the queue before its events were cleared, an update keeps every event of other hitboxes and adds only its own |
| Colliders.SolitaryAddedEntries | src/core/collider.rs:276-286 | queueing the solitary event keeps every event, and the only new one is that event at the end of the stored duration |
| Colliders.OtherEventsKept | src/core/collider.rs:202 | clearing a hitbox's events loses no event that does not involve it, so no other pair's `Collide` or `Separate` is lost |
| Colliders.AfterPhase | src/core/collider.rs:204-223 | the phase step keeps the hitbox and sets the new interactivity; removing or losing the group clears the overlaps |
| Colliders.AfterPhaseRechecks | src/core/collider.rs:212-221 | after a new interactivity, the overlaps kept are exactly the old ones it can still interact with, on both sides |
| Colliders.RemovePhaseSolitaryAsWritten | src/core/collider.rs:276-286 | in the remove phase the debug check queues a panic event for the id whenever its duration or too-small time falls before `HIGH_TIME` |
| Colliders.StaleEventBreaksMirror | src/core/collider.rs:297-301 | an event for a hitbox that has no key set breaks the mirror |
| Colliders.RemovePhaseCounterexample | src/core/collider.rs:160-166 | removing hitbox 7 of duration 1 at time 0 queues a duration-passed panic at time 1 whose key nobody records |
| Colliders.Collider.constructor | src/core/collider.rs:55-65 | a new collider is empty, at time 0, and valid |
| Colliders.Collider.TimeUntilNext | src/core/collider.rs:75-77 | the wait until the first queued event: never negative, and infinite exactly when nothing is queued |
| Colliders.Collider.Advance | src/core/collider.rs:85-90 | the clock moves exactly when the step is non-negative, does not pass the next event and stays below `HIGH_TIME`; otherwise it panics and the state stays |
| Colliders.Collider.GetHitbox | src/core/collider.rs:167-171 | a hitbox is returned exactly for present ids; it is valid, keeps the end time the user gave, its velocity and group, and shows the shape moved to the current time |
| Colliders.Collider.ClearRelated | src/core/collider.rs:202 | the hitbox's events are unqueued and its keys forgotten everywhere |
| Colliders.Collider.ClearOverlaps | src/core/collider.rs:268-274 | all overlaps of the hitbox are dropped, on both sides |
| Colliders.Collider.RecheckOverlapInteractivity | src/core/collider.rs:258-266 | the overlaps kept are exactly those the hitbox can still interact with, on both sides |
| Colliders.Collider.SolitaryFor | src/core/collider.rs:276-286 | the chosen solitary event is the hitbox's own, not after its duration, and a re-check is strictly in the future |
| Colliders.Collider.QueueSolitary | src/core/collider.rs:285 | the solitary event is queued at the chosen time and the invariant is restored for the hitbox |
| Colliders.Collider.PlaceInGrid | src/core/collider.rs:229-233 | the record is replaced and the hitbox is stored in exactly its new area, and the reported neighbours are the ids in that area |
| Colliders.Collider.QueuePair | src/core/collider.rs:242-243 | a pair event is queued under a fresh key, keeping the invariant |
| Colliders.Collider.CollideWith | src/core/collider.rs:238-245 | a `Collide` is queued exactly when the neighbour does not overlap the hitbox, the two may interact, and the solver's time is finite and below `HIGH_TIME`; it is queued at that time |
| Colliders.Collider.QueueCollisions | src/core/collider.rs:236-247 | every neighbour in the set that is not overlapped, may interact and has a queueable collide time gets its `Collide` at that time, and every event queued is such a `Collide` |
| Colliders.Collider.SeparateWith | src/core/collider.rs:249-252 | a `Separate` from an overlapping partner is queued exactly when the solver's time is finite and below `HIGH_TIME`, at that time |
| Colliders.Collider.QueueSeparations | src/core/collider.rs:248-253 | every overlapping partner with a queueable separate time gets its `Separate` at that time, and every event queued is such a `Separate` |
| Colliders.Collider.Prepare | src/core/collider.rs:198-223 | the hitbox's events are cleared and the phase step is applied; the invariant holds for every other hitbox |
| Colliders.Collider.LeaveOverlaps | src/core/collider.rs:207-210 | all overlaps are dropped, keeping the invariant |
| Colliders.Collider.ChangeInteractivity | src/core/collider.rs:212-221 | the new interactivity is set and incompatible overlaps are dropped, keeping the invariant |
| Colliders.Collider.Settle | src/core/collider.rs:225-234 | the hitbox is stored at the current time, placed in its grid area with its solitary event queued |
| Colliders.Collider.Unplace | src/core/collider.rs:225-234 | a removed hitbox leaves the grid and queues nothing, so it can be deleted |
| Colliders.Collider.Finish | src/core/collider.rs:225-253 | the hitbox is settled with its solitary event, and every event that does not belong to the hitbox stays queued unchanged, every new event is its solitary event or a neighbour `Collide` or partner `Separate` at the solver's time, and every such `Collide` and `Separate` the queue takes is there; the invariant holds unless indices run out |
| Colliders.Collider.Requeue | src/core/collider.rs:236-253 | after the solitary event, the two loops leave every earlier event in place and add exactly the wanted neighbour events, as `Requeued` says |
| Colliders.Collider.QueueNeighbourEvents | src/core/collider.rs:236-253 | every wanted `Collide` with the candidates and every wanted `Separate` with the partners is queued at its time, nothing else is queued, nothing queued before is lost or changed, and the invariant is restored |
| Colliders.Collider.InternalUpdate | src/core/collider.rs:198-256 | an invalid hitbox panics before anything changes; otherwise the record is re-stored at the current time; unless removing, the invariant holds and every event that does not belong to the hitbox stays queued unchanged, every new event is its solitary event or a neighbour `Collide` or partner `Separate` at the solver's time, and every such `Collide` and `Separate` the queue takes is there; removal makes the hitbox deletable |
| Colliders.Collider.QueueNextPairEvent | src/core/collider.rs:116-118 | the pair's next event is queued at the current time plus the solver's delay for both hitboxes at the current time when that is finite, and nothing is queued when it is infinite |
| Colliders.Collider.ProcessCollide | src/core/collider.rs:110-121 | a popped `Collide` joins the overlap, queues the pair's `Separate` at its solver time, and reports the `Collide` event |
| Colliders.Collider.ProcessSeparate | src/core/collider.rs:123-135 | a popped `Separate` splits the overlap, queues the pair's next `Collide` at its solver time, and reports the `Separate` event |
| Colliders.Collider.ProcessReiterate | src/core/collider.rs:136-139 | a due re-check keeps the hitbox the user sees and every other record; every event that does not belong to the hitbox stays queued unchanged, every new event is its solitary event or a neighbour `Collide` or partner `Separate` at the solver's time, and every such `Collide` and `Separate` the queue takes is there |
| Colliders.Collider.ProcessEvent | src/core/collider.rs:108-149 | a pair event is reported and its opposite event queued at the solver's time; a re-check reports nothing, keeps what the user sees, and requeues the hitbox's events while keeping every other event; panic events panic with their hitbox |
| Colliders.Collider.NextStep | src/core/collider.rs:99-104 | with nothing due, nothing changes; otherwise the first due event is processed: a pair event is the event reported, a panic event panics naming its hitbox, and no hitbox the user sees changes |
| Colliders.Collider.PopDue | src/core/collider.rs:100 | the event popped is the first queued one when it is due now, and none otherwise; the invariant holds for what remains |
| Colliders.Collider.Next | src/core/collider.rs:92-106 | reports a due collide or separate with its ids in order; reports nothing and changes nothing when the first event is later than now; when it reports nothing, nothing is due now; no hitbox the user sees changes |
| Colliders.Collider.AddHitbox | src/core/collider.rs:151-158 | panics with `IdInUse` exactly for a used id and with `InvalidHitbox` exactly for an invalid hitbox, changing nothing; the only other panic is running out of event indices; otherwise the hitbox reads back unchanged, the others stay, every queued event stays, and the new hitbox gets exactly its solitary event and the `Collide` events with the neighbours it may interact with |
| Colliders.Collider.AddChecked | src/core/collider.rs:155-158 | a free id and a valid hitbox are stored at the current time with the duration of its first solitary event, every queued event stays, and its neighbour `Collide` events are exactly those wanted; only running out of event indices can stop it |
| Colliders.Collider.AddPhase | src/core/collider.rs:157 | the just-inserted entry is stored again from its own public hitbox with the duration of its solitary event; only running out of event indices can stop it; every other event stays queued and the neighbour `Collide` events are exactly those wanted |
| Colliders.Collider.Insert | src/core/collider.rs:156-157 | a new record with an empty key set and no grid cells is stored |
| Colliders.Collider.RemoveHitbox | src/core/collider.rs:163-166 | panics exactly for a missing id; otherwise the hitbox and all its events are gone, and no other hitbox overlaps it |
| Colliders.Collider.UpdateHitbox | src/core/collider.rs:173-181 | panics exactly for a missing id or an invalid hitbox, changing nothing, or when event indices run out; otherwise the new hitbox reads back, the other records stay, and every event that does not belong to the hitbox stays queued unchanged, every new event is its solitary event or a neighbour `Collide` or partner `Separate` at the solver's time, and every such `Collide` and `Separate` the queue takes is there |
| Colliders.Collider.UpdateInteractivity | src/core/collider.rs:183-190 | panics exactly for a missing id, changing nothing, or when event indices run out; otherwise the hitbox reads back unchanged, incompatible overlaps are dropped with no `Separate` for them, and every event that does not belong to the hitbox stays queued unchanged, every new event is its solitary event or a neighbour `Collide` or partner `Separate` at the solver's time, and every such `Collide` and `Separate` the queue takes is there |
| Colliders.Collider.UpdateHitboxAndInteractivity | src/core/collider.rs:192-196 | both updates at once, with their error cases and the same bound on running out of indices; every event that does not belong to the hitbox stays queued unchanged, every new event is its solitary event or a neighbour `Collide` or partner `Separate` at the solver's time, and every such `Collide` and `Separate` the queue takes is there |

## Left out

- Square roots are not modelled: `len`, `dist`, `normalize`, `DirVec2::new` and the shape-to-shape `overlaps` and `normal_from` of the geometry modules. `Vec.CanNormalize` states when normalising is allowed, and only squared lengths are proved about.
- The time solvers `collide_time` and `separate_time` of both hitbox kinds are parameters of the collider (`collideTime`, `separateTime`). So are `time_until_too_small`, `max_edge` and the conversion from a box to grid cells (`cellSpan`). The model proves what the collider does with their results, not the numbers they compute.
- The `Interactivity` trait, its default implementation and `Group` are a record with a group and a `canInteract` parameter. The utility module's `TightSet` and `OneOrTwo` appear only as the sets and the id pair they hold.
- `validate` is reduced to what the model relies on: the velocity has the hitbox's kind and the duration is non-negative. The padding checks are left out because they depend on the numeric solvers.
- Floating point is not modelled: `N64`, its NaN assertion and rounding. Times are exact reals.
- The `u64` event index is unbounded, and running out of indices is the `IndicesExhausted` panic. `Events.EventManager.NewEventKey` refuses without incrementing the counter; the library increments it before its assertion fails, which a panicking caller cannot observe.
- The release build's solitary check (src/core/collider.rs:288-294) is left out. It always queues a re-check at the cell period and never a panic event.
- The older event manager file, src/tests.rs and the crate root are not part of this model.
- `Core.Advance` and `HitboxAtTime`: `advance` updates a hitbox in place, and the model returns the updated value instead. The collision solvers' use of duration hitboxes is not modelled.
- `IdInUse`, `IdNotFound` and `InvalidHitbox` are refusals that leave the state unchanged; an `IndicesExhausted` panic leaves a partly updated state (the entry inserted, the hitbox's old events cleared, some new events queued), about which nothing is promised. `Colliders.Collider.AddHitbox` checks the hitbox before inserting it; the library inserts first and then panics, leaving a half-added entry that a panicking caller cannot observe.
- `internal_update` takes the hitbox record out of the map and puts it back. The model updates the record in place, which yields the same map.
- `add_hitbox` with the default interactivity is `AddHitbox` with that interactivity as an argument.
- `Events.EventManager.PeekKey` is the least key of the queue, not a walk over an ordered tree.
- The direction enum of src/geom_ext.rs:18-52 repeats the one of src/geom/mod.rs and is modelled once, as `Geom.Card`.
- Event keys compare and hash by their index alone. The model keeps this by making indices unique within a queue.
- src/core/collider/mod.rs is a second version of the collider. Its `new` asserts nothing about the cell width and padding; the model follows src/core/collider.rs.
- The documentation of `remove_hitbox` (src/core/collider.rs:162) says "No further events will be generated for this hitbox". In the debug build, the code queues a new event for it instead; see "## Findings".
- Assertions that are preconditions, not panics: the constructor's `cell_width > padding > 0` (src/core/collider.rs:56-57), `advance`'s time order and duration bound (`Core.CanAdvance`), `advanced_shape`'s `HIGH_TIME` bound (`Core.AdvancedShape`, `DurationHitbox.AdvancedShape`), `bounding_box_for`'s bound (`Core.CanBound`, `DurationHitbox.CanBound`) and the corner lookup's requirement that the sector be a corner (`GeomExt.Corner`). The collider only calls them where they hold, and the proofs of its operations show that.
- `Colliders.Collider.Next`: the promise that a panic comes from a panic event due now, and that a reported event is the one popped, is stated per round on `Colliders.Collider.NextStep` against the queue at the start of that round. A re-check processed earlier in the same call can queue new events due now, so the first due event of the queue at the start of `next` need not be the one that decides the result.

## Findings

| source | as written | input that shows it | evidently intended | confidence | as-written member | corrected member |
|---|---|---|---|---|---|---|
| src/core/collider.rs:163-166 | `remove_hitbox` runs the debug solitary check in the remove phase. That check queues a duration-passed or too-small panic event for the hitbox, and then the hitbox's record is deleted | add hitbox 7 at time 0 with duration 1, then `remove_hitbox(7)`, then `advance(1.0)` and `next()`. The queued event names hitbox 7, whose key set is gone, so unwrapping it fails | nothing is queued for a hitbox being removed | not executed | Colliders.RemovePhaseSolitaryAsWritten | Colliders.Collider.RemoveHitbox |
