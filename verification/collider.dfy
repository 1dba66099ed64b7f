/**
 * The collider (src/core/collider.rs, and the same state machine in
 * src/core/collider/mod.rs): hitboxes by id, each with its interactivity, the
 * hitbox as of its last update, the time of that update, the duration the
 * user gave, the keys of its queued events and the ids it currently overlaps;
 * a clock; the broad-phase grid; and the event queue.
 *
 * The time-of-impact solvers, `time_until_too_small`, `max_edge`, the
 * interactivity trait and the conversion of a bounding box into grid cells
 * are not part of this model: they are constant functions given to the
 * constructor.  A panic of the library is an `Outcome.Panic`; where the panic
 * comes from misuse by the caller (an unknown or reused id, a bad step) the
 * model leaves the state as it was.
 */
module Colliders {
  import opened Prelude
  import opened Shape
  import opened Core
  import opened Events
  import opened Grids
  import IndexRects

  /**
   * A value of the interactivity trait: its group, the groups it looks for
   * neighbours in, and whatever else an implementation carries (`custom`),
   * which only `canInteract` looks at.
   */
  datatype Interactivity = Interactivity(group: Option<Group>, interactGroups: seq<Group>, custom: nat)

  datatype Phase = Add | Remove | Update

  /** `HitboxInfo`; its `event_keys` set is kept in the collider's `eventKeys` map. */
  datatype HitboxInfo = HitboxInfo(
    interactivity: Interactivity,
    hitbox: Hitbox,
    startTime: real,
    pubDuration: XReal,
    overlaps: set<HitboxId>)

  datatype PanicReason =
    | IdInUse
    | IdNotFound
    | InvalidHitbox
    | NegativeStep
    | PastNextEvent
    | PastHighTime
    | BecameTooSmall(id: HitboxId)
    | DurationPassed(id: HitboxId)
    | IndicesExhausted

  datatype Outcome = Ok | Panic(reason: PanicReason)

  /**
   * What `validate` must let through for the rest of the collider to work:
   * velocity and shape of one kind, and a duration that is not negative.
   * Its checks against the padding are not part of this model.
   */
  predicate ValidHitbox(h: Hitbox)
  {
    h.WellKinded() && (h.duration.PosInf? || h.duration.val >= 0.0)
  }

  /**
   * The stored hitbox can be advanced to `time`: the clock has not passed
   * the end of its (internal) duration, which in turn does not exceed the
   * duration the user gave.
   */
  predicate OnTime(info: HitboxInfo, time: real)
  {
    && info.hitbox.WellKinded()
    && 0.0 <= info.startTime <= time < HIGH_TIME
    && Fin(time).Le(Plus(info.startTime, info.hitbox.duration))
    && info.hitbox.duration.Le(info.pubDuration)
  }

  /** `hitbox_at_time`: the stored hitbox advanced from its start time; its end time is kept. */
  function HitboxAtTime(info: HitboxInfo, time: real): (r: Hitbox)
    requires OnTime(info, time)
    ensures Plus(time, r.duration) == Plus(info.startTime, info.hitbox.duration)
    ensures r.vel == info.hitbox.vel && r.WellKinded()
    ensures r.shape == AdvancedShape(info.hitbox, time - info.startTime)
  {
    Advance(info.hitbox, info.startTime, time)
  }

  /**
   * `pub_hitbox_at_time`: the same, with the duration the user gave; the
   * result ends when the user said it would and passes `validate`.
   */
  function PubHitboxAtTime(info: HitboxInfo, time: real): (r: Hitbox)
    requires OnTime(info, time)
    ensures Plus(time, r.duration) == Plus(info.startTime, info.pubDuration)
    ensures r.vel == info.hitbox.vel && r.group == info.hitbox.group
    ensures r.shape == AdvancedShape(info.hitbox, time - info.startTime)
    ensures ValidHitbox(r)
  {
    Advance(info.hitbox.(duration := info.pubDuration), info.startTime, time)
  }

  /**
   * A hitbox stored with the clock as its start time, its own duration as
   * the public one and any delay up to that duration as the internal one
   * reads back as itself.
   */
  lemma StoredReadsBack(info: HitboxInfo, hb: Hitbox, d: XReal, time: real)
    requires ValidHitbox(hb) && (d.PosInf? || d.val >= 0.0) && d.Le(hb.duration) && 0.0 <= time < HIGH_TIME
    ensures OnTime(info.(hitbox := hb.(duration := d), startTime := time, pubDuration := hb.duration), time)
    ensures PubHitboxAtTime(info.(hitbox := hb.(duration := d), startTime := time, pubDuration := hb.duration), time) == hb
  {
  }

  /** Replacing the entry of `id` by one with the same interactivity and overlaps changes nothing else. */
  lemma OnlyEntryReplaced(H0: Infos, id: HitboxId, info: HitboxInfo)
    requires id in H0 && info.interactivity == H0[id].interactivity && info.overlaps == H0[id].overlaps
    ensures H0[id := info].Keys == H0.Keys
    ensures H0[id := info][id].interactivity == H0[id].interactivity && H0[id := info][id].overlaps == H0[id].overlaps
    ensures forall o :: o in H0 && o != id ==> H0[id := info][o] == H0[o]
  {
  }

  /**
   * The choice made by `solitaire_event_check` (debug build): start from the
   * cell period with `Reiterate`, then take the duration with
   * `PanicDurationPassed` and the time until the hitbox is too small with
   * `PanicSmallHitbox`, each only when strictly smaller, so ties keep the
   * earlier candidate.
   */
  function SolitaryChoice(cellPeriod: XReal, duration: XReal, tooSmall: XReal, id: HitboxId): (r: (XReal, InternalEvent))
    ensures r.0.Le(cellPeriod) && r.0.Le(duration) && r.0.Le(tooSmall)
    ensures r.0 == cellPeriod || r.0 == duration || r.0 == tooSmall
    ensures !r.1.IsPair() && r.1.id == id
    ensures r.1 == Reiterate(id) <==> cellPeriod.Le(duration) && cellPeriod.Le(tooSmall)
    ensures r.1 == PanicDurationPassed(id) <==> duration.Lt(cellPeriod) && duration.Le(tooSmall)
    ensures r.1 == PanicSmallHitbox(id) <==> tooSmall.Lt(cellPeriod) && tooSmall.Lt(duration)
  {
    var first := (cellPeriod, Reiterate(id));
    var second := if duration.Lt(first.0) then (duration, PanicDurationPassed(id)) else first;
    if tooSmall.Lt(second.0) then (tooSmall, PanicSmallHitbox(id)) else second
  }

  /** `EventKind` (the `Event` enum of src/core/collider.rs). */
  datatype EventKind = Collide | Separate

  /** `Event`: a public event with its two ids, the smaller first. */
  datatype Event = Event(id1: HitboxId, id2: HitboxId, kind: EventKind)
  {
    /** `Event::other_id`: `None` stands for the "not involved" panic. */
    function OtherId(id: HitboxId): (r: Option<HitboxId>)
      ensures r.Some? <==> id == id1 || id == id2
      ensures r.Some? && id == id1 ==> r.value == id2
      ensures r.Some? && id != id1 ==> r.value == id1
    {
      if id1 == id then Some(id2) else if id2 == id then Some(id1) else None
    }
  }

  /**
   * `Event::new` (and `new_event` of src/core/collider.rs): `None` stands for
   * the panic on equal ids; otherwise the ids in ascending order.
   */
  function NewEvent(id1: HitboxId, id2: HitboxId, kind: EventKind): (r: Option<Event>)
    ensures r.Some? <==> id1 != id2
    ensures r.Some? ==> r.value.kind == kind && r.value.id1 < r.value.id2
    ensures r.Some? ==> {r.value.id1, r.value.id2} == {id1, id2}
  {
    if id1 == id2 then None
    else if id1 > id2 then Some(Event(id2, id1, kind))
    else Some(Event(id1, id2, kind))
  }

  /** `Event::new_collide`. */
  function NewCollide(id1: HitboxId, id2: HitboxId): (r: Option<Event>)
    ensures r.Some? <==> id1 != id2
    ensures r.Some? ==> r.value.kind == EventKind.Collide && r.value.OtherId(id1) == Some(id2) && r.value.OtherId(id2) == Some(id1)
  {
    NewEvent(id1, id2, EventKind.Collide)
  }

  /** `Event::new_separate`. */
  function NewSeparate(id1: HitboxId, id2: HitboxId): (r: Option<Event>)
    ensures r.Some? <==> id1 != id2
    ensures r.Some? ==> r.value.kind == EventKind.Separate && r.value.OtherId(id1) == Some(id2) && r.value.OtherId(id2) == Some(id1)
  {
    NewEvent(id1, id2, EventKind.Separate)
  }

  /** The order in which the ids are given does not matter. */
  lemma NewEventSymmetric(id1: HitboxId, id2: HitboxId, kind: EventKind)
    ensures NewEvent(id1, id2, kind) == NewEvent(id2, id1, kind)
  {
  }

  // ---------------------------------------------------------------------
  // The collider's invariant, stated on values.

  type Queue = map<EventKey, InternalEvent>
  type KeyMap = map<HitboxId, set<EventKey>>
  type Infos = map<HitboxId, HitboxInfo>

  /** Every key in a hitbox's key set is queued with an event involving it, and the reverse. */
  ghost predicate Mirror(E: Queue, K: KeyMap)
  {
    && (forall x, k :: x in K && k in K[x] ==> k in E && E[k].Involves(x))
    && (forall k, x :: k in E && E[k].Involves(x) ==> x in K && k in K[x])
  }

  /** A pair event joins two different hitboxes. */
  ghost predicate PairsDistinct(E: Queue)
  {
    forall k :: k in E && E[k].IsPair() ==> E[k].a != E[k].b
  }

  /** `overlaps` is a symmetric, irreflexive relation between present hitboxes. */
  ghost predicate OverlapsSymmetric(H: Infos)
  {
    forall a, b :: a in H && b in H[a].overlaps ==> b in H && b != a && a in H[b].overlaps
  }

  /** A queued `Collide` is between hitboxes that do not overlap, a `Separate` between ones that do. */
  ghost predicate PairEventsAgree(E: Queue, H: Infos)
  {
    forall k :: k in E && E[k].IsPair() ==>
      E[k].a in H && (E[k].Collide? <==> E[k].b !in H[E[k].a].overlaps)
  }

  predicate SamePair(e1: InternalEvent, e2: InternalEvent)
  {
    e1.IsPair() && e2.IsPair() && ((e1.a == e2.a && e1.b == e2.b) || (e1.a == e2.b && e1.b == e2.a))
  }

  /** At most one pair event is queued for any two hitboxes. */
  ghost predicate OnePairEventPerPair(E: Queue)
  {
    forall k1, k2 :: k1 in E && k2 in E && SamePair(E[k1], E[k2]) ==> k1 == k2
  }

  /** Nothing is queued before the clock. */
  ghost predicate NotBefore(E: Queue, time: real)
  {
    forall k :: k in E ==> time <= k.time
  }

  /** The grid holds only present hitboxes. */
  ghost predicate GridHoldsOnly(cells: CellMap, H: Infos)
  {
    forall k, o :: Has(cells, k, o) ==> o in H
  }

  ghost predicate AllOnTime(H: Infos, time: real)
  {
    forall id :: id in H ==> OnTime(H[id], time)
  }

  /**
   * The end of the hitbox's internal duration is never, is at or beyond
   * `HIGH_TIME`, or has a solitary event of the hitbox queued at it.
   */
  ghost predicate SolitaryQueued(E: Queue, keySet: set<EventKey>, info: HitboxInfo)
  {
    var end := Plus(info.startTime, info.hitbox.duration);
    end.PosInf? || end.val >= HIGH_TIME ||
      exists k :: k in keySet && k in E && k.time == end.val && !E[k].IsPair()
  }

  ghost predicate AllSolitaryQueued(H: Infos, K: KeyMap, E: Queue, except: set<HitboxId>)
  {
    forall id :: id in H && id !in except ==> id in K && SolitaryQueued(E, K[id], H[id])
  }

  /** Each hitbox is stored in exactly the cells of its grid area. */
  ghost predicate AllInGrid(cells: CellMap, H: Infos, span: Hitbox -> CellSpan, except: set<HitboxId>)
  {
    forall id :: id in H && id !in except ==>
      StoredExactlyIn(cells, id, IndexBounds(H[id].interactivity.group, span(H[id].hitbox)))
  }

  /** The parts of the invariant that every step keeps. */
  ghost predicate Shared(H: Infos, K: KeyMap, E: Queue, cells: CellMap, time: real)
  {
    && H.Keys == K.Keys
    && Mirror(E, K)
    && PairsDistinct(E)
    && OverlapsSymmetric(H)
    && PairEventsAgree(E, H)
    && OnePairEventPerPair(E)
    && NotBefore(E, time)
    && GridHoldsOnly(cells, H)
    && 0.0 <= time < HIGH_TIME
    && AllOnTime(H, time)
  }

  /**
   * Moving the clock up to the first queued event keeps the invariant: no
   * event falls behind it, and no hitbox's duration runs out before it,
   * because each duration ends at a queued event or at `HIGH_TIME`.
   */
  lemma {:induction false} AdvanceKeepsShared(H: Infos, K: KeyMap, E: Queue, cells: CellMap, t: real, t': real)
    requires Shared(H, K, E, cells, t) && AllSolitaryQueued(H, K, E, {})
    requires t <= t' < HIGH_TIME && Fin(t').Le(EarliestTime(E))
    ensures Shared(H, K, E, cells, t') && AllSolitaryQueued(H, K, E, {})
  {
    forall id | id in H
      ensures OnTime(H[id], t')
    {
      var info := H[id];
      var end := Plus(info.startTime, info.hitbox.duration);
      if end.Fin? && end.val < HIGH_TIME {
        assert SolitaryQueued(E, K[id], info);
        var k :| k in K[id] && k in E && k.time == end.val && !E[k].IsPair();
        assert EarliestTime(E).Le(Fin(k.time));
      }
    }
  }

  /** The key sets after `clear_related_events` for `id`: its own emptied, its keys gone from the others'. */
  function ClearedKeys(K: KeyMap, id: HitboxId): (r: KeyMap)
    requires id in K
    ensures r.Keys == K.Keys && r[id] == {}
    ensures forall o :: o in K && o != id ==> r[o] == K[o] - K[id]
  {
    map o | o in K :: if o == id then {} else K[o] - K[id]
  }

  /** No queued event involves `id`. */
  ghost predicate NoEventsOf(E: Queue, id: HitboxId)
  {
    forall k :: k in E ==> !E[k].Involves(id)
  }

  /**
   * The keys `clear_related_events` takes out of a partner's set are exactly
   * the keys the partner shares with `id`.
   */
  lemma PartnerKeysShared(E: Queue, K: KeyMap, id: HitboxId, o: HitboxId)
    requires Mirror(E, K) && PairsDistinct(E)
    requires id in K && o in K && o != id
    ensures K[o] - PartnerKeys(E, K[id], id, o) == K[o] - K[id]
  {
    forall k | k in K[o] && k in K[id]
      ensures k in PartnerKeys(E, K[id], id, o)
    {
      assert E[k].Involves(o) && E[k].Involves(id);
    }
  }

  /** The partner of each pair event of `id` holds its key too. */
  lemma PartnersRecorded(E: Queue, K: KeyMap, id: HitboxId)
    requires Mirror(E, K) && PairsDistinct(E) && id in K
    ensures forall k :: k in K[id] && E[k].OtherId(id).Some? ==>
      E[k].OtherId(id).value in K - {id} && k in (K - {id})[E[k].OtherId(id).value]
  {
    forall k | k in K[id] && E[k].OtherId(id).Some?
      ensures E[k].OtherId(id).value in K - {id} && k in (K - {id})[E[k].OtherId(id).value]
    {
      assert E[k].Involves(E[k].OtherId(id).value);
    }
  }

  /**
   * Removing from each partner's set the keys it shares with `id` leaves
   * exactly the key sets `ClearedKeys` describes.
   */
  lemma {:induction false} ClearedFromPartners(E: Queue, K: KeyMap, id: HitboxId, newKeys: KeyMap)
    requires Mirror(E, K) && PairsDistinct(E) && id in K
    requires newKeys.Keys == (K - {id}).Keys
    requires forall o :: o in K - {id} ==> newKeys[o] == (K - {id})[o] - PartnerKeys(E, K[id], id, o)
    ensures newKeys[id := {}] == ClearedKeys(K, id)
  {
    forall o | o in K && o != id
      ensures newKeys[o] == K[o] - K[id]
    {
      assert o in K - {id};
      PartnerKeysShared(E, K, id, o);
    }
    assert newKeys[id := {}].Keys == ClearedKeys(K, id).Keys;
  }

  /** Unqueueing the events of `id` and forgetting their keys keeps the mirror and leaves no event of `id`. */
  lemma {:induction false} ClearKeepsMirror(K: KeyMap, E: Queue, id: HitboxId)
    requires Mirror(E, K) && id in K
    ensures Mirror(E - K[id], ClearedKeys(K, id))
    ensures NoEventsOf(E - K[id], id)
  {
    var K', E' := ClearedKeys(K, id), E - K[id];
    forall k, x | k in E' && E'[k].Involves(x)
      ensures x in K' && k in K'[x]
    {
      assert k in K[x];
    }
  }

  /** A solitary event involves only its own hitbox, so clearing another hitbox's events keeps it. */
  lemma {:induction false} ClearKeepsSolitary(H: Infos, K: KeyMap, E: Queue, id: HitboxId)
    requires Mirror(E, K) && id in K
    requires AllSolitaryQueued(H, K, E, {id})
    ensures AllSolitaryQueued(H, ClearedKeys(K, id), E - K[id], {id})
  {
    var K', E' := ClearedKeys(K, id), E - K[id];
    forall o | o in H && o !in {id}
      ensures o in K' && SolitaryQueued(E', K'[o], H[o])
    {
      assert SolitaryQueued(E, K[o], H[o]);
      var end := Plus(H[o].startTime, H[o].hitbox.duration);
      if end.Fin? && end.val < HIGH_TIME {
        var k :| k in K[o] && k in E && k.time == end.val && !E[k].IsPair();
        assert k in K'[o] && k in E';
      }
    }
  }

  /** Clearing the events of `id` keeps the invariant. */
  lemma ClearKeepsShared(H: Infos, K: KeyMap, E: Queue, cells: CellMap, time: real, id: HitboxId)
    requires Shared(H, K, E, cells, time) && id in H
    ensures Shared(H, ClearedKeys(K, id), E - K[id], cells, time)
    ensures NoEventsOf(E - K[id], id)
  {
    ClearKeepsMirror(K, E, id);
  }

  /**
   * The overlaps after dropping the partners `drop` of `id`, on both sides
   * (what `clear_overlaps` and `recheck_overlap_interactivity` do).
   */
  function DropPartners(H: Infos, id: HitboxId, drop: set<HitboxId>): (r: Infos)
    requires id in H
    ensures r.Keys == H.Keys
  {
    map o | o in H ::
      if o == id then H[o].(overlaps := H[o].overlaps - drop)
      else if o in drop then H[o].(overlaps := H[o].overlaps - {id})
      else H[o]
  }

  /** Two hitbox maps differ at most in the overlap sets. */
  predicate SameButOverlaps(H: Infos, H': Infos)
  {
    H'.Keys == H.Keys &&
    forall o :: o in H ==> H'[o] == H[o].(overlaps := H'[o].overlaps)
  }

  /** Only the overlap sets changed: everything that does not read them still holds. */
  lemma SameButOverlapsKeeps(H: Infos, H': Infos, K: KeyMap, E: Queue, cells: CellMap, time: real,
                             span: Hitbox -> CellSpan, except: set<HitboxId>)
    requires SameButOverlaps(H, H')
    ensures AllOnTime(H, time) ==> AllOnTime(H', time)
    ensures GridHoldsOnly(cells, H) ==> GridHoldsOnly(cells, H')
    ensures AllSolitaryQueued(H, K, E, except) ==> AllSolitaryQueued(H', K, E, except)
    ensures AllInGrid(cells, H, span, except) ==> AllInGrid(cells, H', span, except)
  {
    if AllOnTime(H, time) {
      forall o | o in H' ensures OnTime(H'[o], time) {
        assert OnTime(H[o], time);
      }
    }
    if AllSolitaryQueued(H, K, E, except) {
      forall o | o in H' && o !in except ensures o in K && SolitaryQueued(E, K[o], H'[o]) {
        assert SolitaryQueued(E, K[o], H[o]);
      }
    }
    if AllInGrid(cells, H, span, except) {
      forall o | o in H' && o !in except
        ensures StoredExactlyIn(cells, o, IndexBounds(H'[o].interactivity.group, span(H'[o].hitbox)))
      {
        assert H'[o].interactivity == H[o].interactivity && H'[o].hitbox == H[o].hitbox;
      }
    }
  }

  /**
   * Dropping partners of `id` on both sides keeps the overlap relation
   * symmetric; with no event of `id` queued, the queued pair events still
   * agree with it.
   */
  lemma {:induction false} DropPartnersKeepsShared(H: Infos, K: KeyMap, E: Queue, cells: CellMap, time: real,
                                                  id: HitboxId, drop: set<HitboxId>)
    requires Shared(H, K, E, cells, time) && NoEventsOf(E, id)
    requires id in H && drop <= H[id].overlaps
    ensures SameButOverlaps(H, DropPartners(H, id, drop))
    ensures Shared(DropPartners(H, id, drop), K, E, cells, time)
  {
    var H' := DropPartners(H, id, drop);
    DropKeepsOverlaps(H, E, id, drop);
    SameButOverlapsKeeps(H, H', K, E, cells, time, x => CellSpan(0, 0, 0, 0), {});
  }

  /** The overlap part of `DropPartnersKeepsShared`. */
  lemma {:induction false} DropKeepsOverlaps(H: Infos, E: Queue, id: HitboxId, drop: set<HitboxId>)
    requires OverlapsSymmetric(H) && PairEventsAgree(E, H) && NoEventsOf(E, id)
    requires id in H && drop <= H[id].overlaps
    ensures OverlapsSymmetric(DropPartners(H, id, drop)) && PairEventsAgree(E, DropPartners(H, id, drop))
  {
    var H' := DropPartners(H, id, drop);
    forall a, b | a in H' && b in H'[a].overlaps
      ensures b in H' && b != a && a in H'[b].overlaps
    {
      assert b in H[a].overlaps;
    }
    forall k | k in E && E[k].IsPair()
      ensures E[k].a in H' && (E[k].Collide? <==> E[k].b !in H'[E[k].a].overlaps)
    {
      assert !E[k].Involves(id);
    }
  }

  /** Queueing more events and recording more keys keeps every queued solitary event. */
  lemma GrowKeepsSolitary(H: Infos, K: KeyMap, E: Queue, K': KeyMap, E': Queue, except: set<HitboxId>)
    requires AllSolitaryQueued(H, K, E, except)
    requires forall o :: o in K ==> o in K' && K[o] <= K'[o]
    requires forall k :: k in E ==> k in E' && E'[k] == E[k]
    ensures AllSolitaryQueued(H, K', E', except)
  {
    forall o | o in H && o !in except ensures o in K' && SolitaryQueued(E', K'[o], H[o]) {
      assert SolitaryQueued(E, K[o], H[o]);
    }
  }

  /**
   * Queueing a fresh pair event between two present hitboxes keeps the
   * invariant when no event for that pair is queued and the event agrees
   * with their overlap.
   */
  lemma {:induction false} AddPairKeepsShared(H: Infos, K: KeyMap, E: Queue, cells: CellMap, time: real,
                                             key: EventKey, ev: InternalEvent)
    requires Shared(H, K, E, cells, time)
    requires key !in E && time <= key.time
    requires ev.IsPair() && ev.a != ev.b && ev.a in H && ev.b in H
    requires ev.Collide? <==> ev.b !in H[ev.a].overlaps
    requires forall k :: k in E ==> !SamePair(E[k], ev)
    ensures Shared(H, K[ev.a := K[ev.a] + {key}][ev.b := K[ev.b] + {key}], E[key := ev], cells, time)
  {
    AddPairKeepsMirror(K, E, key, ev);
    var E' := E[key := ev];
    forall k1, k2 | k1 in E' && k2 in E' && SamePair(E'[k1], E'[k2])
      ensures k1 == k2
    {
      if k1 != key && k2 != key {
        assert k1 in E && k2 in E;
      }
    }
  }

  /** The key part of `AddPairKeepsShared`: the new key joins the sets of both hitboxes. */
  lemma {:induction false} AddPairKeepsMirror(K: KeyMap, E: Queue, key: EventKey, ev: InternalEvent)
    requires Mirror(E, K) && key !in E && ev.IsPair() && ev.a in K && ev.b in K
    ensures Mirror(E[key := ev], K[ev.a := K[ev.a] + {key}][ev.b := K[ev.b] + {key}])
  {
    var K' := K[ev.a := K[ev.a] + {key}][ev.b := K[ev.b] + {key}];
    var E' := E[key := ev];
    forall x, k | x in K' && k in K'[x]
      ensures k in E' && E'[k].Involves(x)
    {
      if k != key {
        assert k in K[x];
      }
    }
  }

  /** Queueing a solitary event of a present hitbox, no earlier than the clock, keeps the invariant. */
  lemma AddSolitaryKeepsShared(H: Infos, K: KeyMap, E: Queue, cells: CellMap, time: real,
                               id: HitboxId, key: EventKey, ev: InternalEvent)
    requires Shared(H, K, E, cells, time) && id in H
    requires key !in E && time <= key.time
    requires !ev.IsPair() && ev.id == id
    ensures Shared(H, K[id := K[id] + {key}], E[key := ev], cells, time)
  {
    var K', E' := K[id := K[id] + {key}], E[key := ev];
    forall x, k | x in K' && k in K'[x]
      ensures k in E' && E'[k].Involves(x)
    {
      if k != key {
        assert k in K[x];
      }
    }
  }

  /**
   * Replacing the entry of `id` by one that keeps its overlaps and is on time,
   * while the grid changes only for `id`, keeps the invariant and what holds
   * of the other hitboxes.
   */
  lemma {:induction false} ReplaceInfoKeepsShared(H: Infos, K: KeyMap, E: Queue, cells: CellMap, cells': CellMap,
                                                 time: real, span: Hitbox -> CellSpan, id: HitboxId, info: HitboxInfo)
    requires Shared(H, K, E, cells, time) && id in H
    requires info.overlaps == H[id].overlaps && OnTime(info, time)
    requires forall k, o :: o != id ==> (Has(cells', k, o) <==> Has(cells, k, o))
    ensures Shared(H[id := info], K, E, cells', time)
    ensures AllSolitaryQueued(H, K, E, {id}) ==> AllSolitaryQueued(H[id := info], K, E, {id})
    ensures AllInGrid(cells, H, span, {id}) ==> AllInGrid(cells', H[id := info], span, {id})
  {
    var H' := H[id := info];
    forall k, o | Has(cells', k, o)
      ensures o in H'
    {
      if o != id {
        assert Has(cells, k, o);
      }
    }
    if AllInGrid(cells, H, span, {id}) {
      forall o | o in H' && o !in {id}
        ensures StoredExactlyIn(cells', o, IndexBounds(H'[o].interactivity.group, span(H'[o].hitbox)))
      {
        assert StoredExactlyIn(cells, o, IndexBounds(H[o].interactivity.group, span(H[o].hitbox)));
      }
    }
    if AllSolitaryQueued(H, K, E, {id}) {
      forall o | o in H' && o !in {id}
        ensures o in K && SolitaryQueued(E, K[o], H'[o])
      {
        assert SolitaryQueued(E, K[o], H[o]);
      }
    }
  }

  /** No queued pair event involves `id`. */
  ghost predicate NoPairEventsOf(E: Queue, id: HitboxId)
  {
    forall k :: k in E && E[k].IsPair() ==> !E[k].Involves(id)
  }

  /** Every queued pair event involving `id` names it first and a partner from `S` second. */
  ghost predicate PairsOfIdWithin(E: Queue, id: HitboxId, S: set<HitboxId>)
  {
    forall k :: k in E && E[k].IsPair() && E[k].Involves(id) ==> E[k].a == id && E[k].b in S
  }

  /** The key sets and the queue only gained entries. */
  ghost predicate Grows(K0: KeyMap, E0: Queue, K: KeyMap, E: Queue)
  {
    && K.Keys == K0.Keys
    && (forall o :: o in K0 ==> K0[o] <= K[o])
    && (forall k :: k in E0 ==> k in E && E[k] == E0[k])
  }

  /**
   * When the collision loop of `internal_update_hitbox` queues the `Collide`
   * of `id` with `o`: the solver's delay between `id` as stored (its start
   * time is the clock) and `o` advanced to the clock, from now.
   */
  function CollideTimeFrom(H: Infos, id: HitboxId, o: HitboxId, time: real,
                           collideTime: (Hitbox, Hitbox) -> Delay): XReal
    requires id in H && o in H && OnTime(H[o], time)
  {
    Plus(time, collideTime(H[id].hitbox, HitboxAtTime(H[o], time)))
  }

  /** The same for the separation loop, with the padding. */
  function SeparateTimeFrom(H: Infos, id: HitboxId, o: HitboxId, time: real,
                            separateTime: (Hitbox, Hitbox, real) -> Delay, padding: real): XReal
    requires id in H && o in H && OnTime(H[o], time)
  {
    Plus(time, separateTime(H[id].hitbox, HitboxAtTime(H[o], time), padding))
  }

  /** A time the queue takes: finite and before `HIGH_TIME`. */
  predicate Queueable(at: XReal)
  {
    at.Fin? && at.val < HIGH_TIME
  }

  /**
   * `k` holds a `Collide` from `id` to a partner in `S` that it does not
   * overlap and can interact with, at that partner's collide time.
   */
  ghost predicate CollideEntry(E: Queue, H: Infos, id: HitboxId, S: set<HitboxId>, time: real, k: EventKey,
                               canInteract: (Interactivity, Interactivity) -> bool,
                               collideTime: (Hitbox, Hitbox) -> Delay)
    requires id in H && k in E
  {
    && E[k].Collide? && E[k].a == id && E[k].b in S && E[k].b in H
    && E[k].b !in H[id].overlaps
    && canInteract(H[id].interactivity, H[E[k].b].interactivity)
    && OnTime(H[E[k].b], time) && CollideTimeFrom(H, id, E[k].b, time, collideTime) == Fin(k.time)
  }

  /** `k` holds a `Separate` from `id` to a partner in `S` that it overlaps, at their separate time. */
  ghost predicate SeparateEntry(E: Queue, H: Infos, id: HitboxId, S: set<HitboxId>, time: real, k: EventKey,
                                separateTime: (Hitbox, Hitbox, real) -> Delay, padding: real)
    requires id in H && k in E
  {
    && E[k].Separate? && E[k].a == id && E[k].b in S && E[k].b in H[id].overlaps && E[k].b in H
    && OnTime(H[E[k].b], time) && SeparateTimeFrom(H, id, E[k].b, time, separateTime, padding) == Fin(k.time)
  }

  /** Every event queued since `E0` is a `Collide` of `id` with a partner in `S`, at its time. */
  ghost predicate NewAreCollides(E0: Queue, E: Queue, H: Infos, id: HitboxId, S: set<HitboxId>, time: real,
                                 canInteract: (Interactivity, Interactivity) -> bool,
                                 collideTime: (Hitbox, Hitbox) -> Delay)
    requires id in H
  {
    forall k :: k in E && k !in E0 ==> CollideEntry(E, H, id, S, time, k, canInteract, collideTime)
  }

  /**
   * `id` does not overlap `o`, can interact with it, and the queue takes the
   * time of their `Collide`.
   */
  ghost predicate CollideWanted(H: Infos, id: HitboxId, o: HitboxId, time: real,
                                canInteract: (Interactivity, Interactivity) -> bool,
                                collideTime: (Hitbox, Hitbox) -> Delay)
    requires id in H
  {
    && o in H && OnTime(H[o], time) && o !in H[id].overlaps
    && canInteract(H[id].interactivity, H[o].interactivity)
    && Queueable(CollideTimeFrom(H, id, o, time, collideTime))
  }

  /** Every partner in `D` that `CollideWanted` picks has its `Collide` queued at its collide time. */
  ghost predicate CollidesQueued(E: Queue, H: Infos, id: HitboxId, D: set<HitboxId>, time: real,
                                 canInteract: (Interactivity, Interactivity) -> bool,
                                 collideTime: (Hitbox, Hitbox) -> Delay)
    requires id in H
  {
    forall o :: o in D && CollideWanted(H, id, o, time, canInteract, collideTime) ==>
      exists k :: k in E && E[k] == InternalEvent.Collide(id, o)
                  && Fin(k.time) == CollideTimeFrom(H, id, o, time, collideTime)
  }

  /** One round of the collision loop keeps its invariant. */
  lemma {:induction false} CollideStep(K0: KeyMap, E0: Queue, K1: KeyMap, E1: Queue, K2: KeyMap, E2: Queue, H: Infos,
                    id: HitboxId, test: set<HitboxId>, rest: set<HitboxId>, other: HitboxId, time: real,
                    canInteract: (Interactivity, Interactivity) -> bool, collideTime: (Hitbox, Hitbox) -> Delay,
                    added: bool, key: EventKey)
    requires id in H && other in rest && rest <= test && other in H && OnTime(H[other], time)
    requires Grows(K0, E0, K1, E1) && NewAreCollides(E0, E1, H, id, test - rest, time, canInteract, collideTime)
    requires PairsOfIdWithin(E1, id, (test - rest) - H[id].overlaps)
    requires id in K1 && other in K1
    requires !added ==> K2 == K1 && E2 == E1
    requires added ==>
      && key !in E1 && E2 == E1[key := InternalEvent.Collide(id, other)]
      && K2 == K1[id := K1[id] + {key}][other := K1[other] + {key}]
      && CollideWanted(H, id, other, time, canInteract, collideTime)
      && Fin(key.time) == CollideTimeFrom(H, id, other, time, collideTime)
    ensures Grows(K0, E0, K2, E2) && NewAreCollides(E0, E2, H, id, test - (rest - {other}), time, canInteract, collideTime)
    ensures PairsOfIdWithin(E2, id, (test - (rest - {other})) - H[id].overlaps)
  {
    var D := test - (rest - {other});
    forall k | k in E2 && k !in E0
      ensures CollideEntry(E2, H, id, D, time, k, canInteract, collideTime)
    {
      if k != key || !added {
        assert CollideEntry(E1, H, id, test - rest, time, k, canInteract, collideTime);
      }
    }
  }

  /** One round of the collision loop leaves one more partner with its `Collide` queued when wanted. */
  lemma {:induction false} CollideQueuedStep(E1: Queue, E2: Queue, H: Infos, id: HitboxId, test: set<HitboxId>,
                                             rest: set<HitboxId>, other: HitboxId, time: real,
                                             canInteract: (Interactivity, Interactivity) -> bool,
                                             collideTime: (Hitbox, Hitbox) -> Delay, added: bool, key: EventKey)
    requires id in H && CollidesQueued(E1, H, id, test - rest, time, canInteract, collideTime)
    requires other in rest && rest <= test
    requires added <==> CollideWanted(H, id, other, time, canInteract, collideTime)
    requires !added ==> E2 == E1
    requires added ==>
      && key !in E1 && E2 == E1[key := InternalEvent.Collide(id, other)]
      && Fin(key.time) == CollideTimeFrom(H, id, other, time, collideTime)
    ensures CollidesQueued(E2, H, id, test - (rest - {other}), time, canInteract, collideTime)
  {
    forall o | o in test - (rest - {other}) && CollideWanted(H, id, o, time, canInteract, collideTime)
      ensures exists k :: k in E2 && E2[k] == InternalEvent.Collide(id, o)
                          && Fin(k.time) == CollideTimeFrom(H, id, o, time, collideTime)
    {
      if o == other {
        assert key in E2;
      } else {
        var k :| k in E1 && E1[k] == InternalEvent.Collide(id, o) && Fin(k.time) == CollideTimeFrom(H, id, o, time, collideTime);
        assert k in E2;
      }
    }
  }

  /** Every event queued since `E0` is a `Separate` of `id` with a partner in `S`, at its time. */
  ghost predicate NewAreSeparates(E0: Queue, E: Queue, H: Infos, id: HitboxId, S: set<HitboxId>, time: real,
                                  separateTime: (Hitbox, Hitbox, real) -> Delay, padding: real)
    requires id in H
  {
    forall k :: k in E && k !in E0 ==> SeparateEntry(E, H, id, S, time, k, separateTime, padding)
  }

  /** The queue takes the time of the `Separate` of `id` with `o`. */
  ghost predicate SeparateWanted(H: Infos, id: HitboxId, o: HitboxId, time: real,
                                 separateTime: (Hitbox, Hitbox, real) -> Delay, padding: real)
    requires id in H
  {
    o in H && OnTime(H[o], time) && Queueable(SeparateTimeFrom(H, id, o, time, separateTime, padding))
  }

  /** Every partner in `D` that `SeparateWanted` picks has its `Separate` queued at their separate time. */
  ghost predicate SeparatesQueued(E: Queue, H: Infos, id: HitboxId, D: set<HitboxId>, time: real,
                                  separateTime: (Hitbox, Hitbox, real) -> Delay, padding: real)
    requires id in H
  {
    forall o :: o in D && SeparateWanted(H, id, o, time, separateTime, padding) ==>
      exists k :: k in E && E[k] == InternalEvent.Separate(id, o)
                  && Fin(k.time) == SeparateTimeFrom(H, id, o, time, separateTime, padding)
  }

  /** One round of the separation loop keeps its invariant. */
  lemma {:induction false} SeparateStep(K0: KeyMap, E0: Queue, K1: KeyMap, E1: Queue, K2: KeyMap, E2: Queue, H: Infos,
                     id: HitboxId, S: set<HitboxId>, rest: set<HitboxId>, other: HitboxId, time: real,
                     separateTime: (Hitbox, Hitbox, real) -> Delay, padding: real,
                     added: bool, key: EventKey)
    requires id in H && other in rest && rest <= H[id].overlaps && other in H && OnTime(H[other], time)
    requires Grows(K0, E0, K1, E1)
    requires NewAreSeparates(E0, E1, H, id, H[id].overlaps - rest, time, separateTime, padding)
    requires PairsOfIdWithin(E1, id, S + (H[id].overlaps - rest))
    requires id in K1 && other in K1
    requires !added ==> K2 == K1 && E2 == E1
    requires added ==>
      && key !in E1 && E2 == E1[key := InternalEvent.Separate(id, other)]
      && K2 == K1[id := K1[id] + {key}][other := K1[other] + {key}]
      && Fin(key.time) == SeparateTimeFrom(H, id, other, time, separateTime, padding)
    ensures Grows(K0, E0, K2, E2)
    ensures NewAreSeparates(E0, E2, H, id, H[id].overlaps - (rest - {other}), time, separateTime, padding)
    ensures PairsOfIdWithin(E2, id, S + (H[id].overlaps - (rest - {other})))
  {
    var D := H[id].overlaps - (rest - {other});
    forall k | k in E2 && k !in E0
      ensures SeparateEntry(E2, H, id, D, time, k, separateTime, padding)
    {
      if k != key || !added {
        assert SeparateEntry(E1, H, id, H[id].overlaps - rest, time, k, separateTime, padding);
      }
    }
  }

  /** One round of the separation loop leaves one more partner with its `Separate` queued when wanted. */
  lemma {:induction false} SeparateQueuedStep(E1: Queue, E2: Queue, H: Infos, id: HitboxId, rest: set<HitboxId>,
                                              other: HitboxId, time: real,
                                              separateTime: (Hitbox, Hitbox, real) -> Delay, padding: real,
                                              added: bool, key: EventKey)
    requires id in H && SeparatesQueued(E1, H, id, H[id].overlaps - rest, time, separateTime, padding)
    requires other in rest && rest <= H[id].overlaps
    requires added <==> SeparateWanted(H, id, other, time, separateTime, padding)
    requires !added ==> E2 == E1
    requires added ==>
      && key !in E1 && E2 == E1[key := InternalEvent.Separate(id, other)]
      && Fin(key.time) == SeparateTimeFrom(H, id, other, time, separateTime, padding)
    ensures SeparatesQueued(E2, H, id, H[id].overlaps - (rest - {other}), time, separateTime, padding)
  {
    forall o | o in H[id].overlaps - (rest - {other}) && SeparateWanted(H, id, o, time, separateTime, padding)
      ensures exists k :: k in E2 && E2[k] == InternalEvent.Separate(id, o)
                          && Fin(k.time) == SeparateTimeFrom(H, id, o, time, separateTime, padding)
    {
      if o == other {
        assert key in E2;
      } else {
        var k :| k in E1 && E1[k] == InternalEvent.Separate(id, o)
                 && Fin(k.time) == SeparateTimeFrom(H, id, o, time, separateTime, padding);
        assert k in E2;
      }
    }
  }

  /**
   * Every event queued since `E0` is a `Collide` of `id` with a partner in
   * `test` or a `Separate` with a partner it overlaps, each at its time.
   */
  ghost predicate NewAreNeighbourEvents(E0: Queue, E: Queue, H: Infos, id: HitboxId, test: set<HitboxId>, time: real,
                                        canInteract: (Interactivity, Interactivity) -> bool,
                                        collideTime: (Hitbox, Hitbox) -> Delay,
                                        separateTime: (Hitbox, Hitbox, real) -> Delay, padding: real)
    requires id in H
  {
    forall k :: k in E && k !in E0 ==>
      || CollideEntry(E, H, id, test, time, k, canInteract, collideTime)
      || SeparateEntry(E, H, id, H[id].overlaps, time, k, separateTime, padding)
  }

  /** The collision loop followed by the separation loop. */
  lemma {:induction false} NeighbourEventsJoin(E0: Queue, E1: Queue, E2: Queue, H: Infos, id: HitboxId,
                                               test: set<HitboxId>, time: real,
                                               canInteract: (Interactivity, Interactivity) -> bool,
                                               collideTime: (Hitbox, Hitbox) -> Delay,
                                               separateTime: (Hitbox, Hitbox, real) -> Delay, padding: real)
    requires id in H
    requires NewAreCollides(E0, E1, H, id, test, time, canInteract, collideTime)
    requires CollidesQueued(E1, H, id, test, time, canInteract, collideTime)
    requires NewAreSeparates(E1, E2, H, id, H[id].overlaps, time, separateTime, padding)
    requires forall k :: k in E1 ==> k in E2 && E2[k] == E1[k]
    ensures NewAreNeighbourEvents(E0, E2, H, id, test, time, canInteract, collideTime, separateTime, padding)
    ensures CollidesQueued(E2, H, id, test, time, canInteract, collideTime)
  {
    forall k | k in E2 && k !in E0
      ensures || CollideEntry(E2, H, id, test, time, k, canInteract, collideTime)
              || SeparateEntry(E2, H, id, H[id].overlaps, time, k, separateTime, padding)
    {
      if k in E1 {
        assert CollideEntry(E1, H, id, test, time, k, canInteract, collideTime);
      }
    }
    forall o | o in test && CollideWanted(H, id, o, time, canInteract, collideTime)
      ensures exists k :: k in E2 && E2[k] == InternalEvent.Collide(id, o)
                          && Fin(k.time) == CollideTimeFrom(H, id, o, time, collideTime)
    {
      var k :| k in E1 && E1[k] == InternalEvent.Collide(id, o) && Fin(k.time) == CollideTimeFrom(H, id, o, time, collideTime);
      assert k in E2;
    }
  }

  /** `k` holds a solitary event of `id`, at the end of the duration `id` is stored with. */
  ghost predicate SolitaryEntry(E: Queue, H: Infos, id: HitboxId, k: EventKey)
    requires id in H && k in E
  {
    !E[k].IsPair() && E[k].id == id && Fin(k.time) == Plus(H[id].startTime, H[id].hitbox.duration)
  }

  /**
   * Every event queued since `E0` is the solitary event of `id`, a `Collide`
   * of `id` with a partner in `test`, or a `Separate` with a partner it
   * overlaps, each at its time.
   */
  ghost predicate NewAreUpdateEvents(E0: Queue, E: Queue, H: Infos, id: HitboxId, test: set<HitboxId>, time: real,
                                     canInteract: (Interactivity, Interactivity) -> bool,
                                     collideTime: (Hitbox, Hitbox) -> Delay,
                                     separateTime: (Hitbox, Hitbox, real) -> Delay, padding: real)
    requires id in H
  {
    forall k :: k in E && k !in E0 ==>
      || SolitaryEntry(E, H, id, k)
      || CollideEntry(E, H, id, test, time, k, canInteract, collideTime)
      || SeparateEntry(E, H, id, H[id].overlaps, time, k, separateTime, padding)
  }

  /** Every event of `E0` whose key is not in `gone` is still queued, the same. */
  ghost predicate KeptBut(E0: Queue, gone: set<EventKey>, E: Queue)
  {
    forall k :: k in E0 && k !in gone ==> k in E && E[k] == E0[k]
  }

  /**
   * Clearing the events of `id` (its key set, by `Mirror`) keeps every event
   * that does not involve `id`: an update loses no other pair's event.
   */
  lemma OtherEventsKept(E0: Queue, K0: KeyMap, E: Queue, id: HitboxId, k: EventKey)
    requires Mirror(E0, K0) && id in K0 && KeptBut(E0, K0[id], E)
    requires k in E0 && !E0[k].Involves(id)
    ensures k in E && E[k] == E0[k]
  {
  }

  /**
   * The solitary event queued by `Settle`, followed by the two loops: the
   * events that were queued stay, and the new ones are the update's own.
   */
  lemma {:induction false} UpdateEventsJoin(E0: Queue, E1: Queue, E2: Queue, H: Infos, id: HitboxId,
                                            test: set<HitboxId>, time: real,
                                            canInteract: (Interactivity, Interactivity) -> bool,
                                            collideTime: (Hitbox, Hitbox) -> Delay,
                                            separateTime: (Hitbox, Hitbox, real) -> Delay, padding: real)
    requires id in H
    requires KeptBut(E0, {}, E1) && KeptBut(E1, {}, E2)
    requires forall k :: k in E1 && k !in E0 ==> SolitaryEntry(E1, H, id, k)
    requires NewAreNeighbourEvents(E1, E2, H, id, test, time, canInteract, collideTime, separateTime, padding)
    ensures KeptBut(E0, {}, E2)
    ensures NewAreUpdateEvents(E0, E2, H, id, test, time, canInteract, collideTime, separateTime, padding)
  {
    forall k | k in E2 && k !in E0
      ensures || SolitaryEntry(E2, H, id, k)
              || CollideEntry(E2, H, id, test, time, k, canInteract, collideTime)
              || SeparateEntry(E2, H, id, H[id].overlaps, time, k, separateTime, padding)
    {
      if k in E1 {
        assert SolitaryEntry(E1, H, id, k);
      }
    }
  }

  /** What the update queued since a queue it cleared `gone` from is new to the queue before the clearing too. */
  lemma UpdateEventsAfterClear(E0: Queue, gone: set<EventKey>, E: Queue, H: Infos, id: HitboxId,
                               test: set<HitboxId>, time: real,
                               canInteract: (Interactivity, Interactivity) -> bool,
                               collideTime: (Hitbox, Hitbox) -> Delay,
                               separateTime: (Hitbox, Hitbox, real) -> Delay, padding: real)
    requires id in H
    requires KeptBut(E0 - gone, {}, E)
    requires NewAreUpdateEvents(E0 - gone, E, H, id, test, time, canInteract, collideTime, separateTime, padding)
    ensures KeptBut(E0, gone, E)
    ensures NewAreUpdateEvents(E0, E, H, id, test, time, canInteract, collideTime, separateTime, padding)
  {
  }

  /** A partner outside `S` has no pair event with `id` yet. */
  lemma NoPairYet(E: Queue, id: HitboxId, S: set<HitboxId>, other: HitboxId, ev: InternalEvent)
    requires PairsOfIdWithin(E, id, S) && other !in S && other != id
    requires ev.IsPair() && ev.a == id && ev.b == other
    ensures forall k :: k in E ==> !SamePair(E[k], ev)
  {
    forall k | k in E && E[k].IsPair()
      ensures !SamePair(E[k], ev)
    {
      if SamePair(E[k], ev) {
        assert E[k].Involves(id);
      }
    }
  }

  lemma GrowsByPair(K: KeyMap, E: Queue, key: EventKey, ev: InternalEvent)
    requires key !in E && ev.IsPair() && ev.a in K && ev.b in K
    ensures Grows(K, E, K[ev.a := K[ev.a] + {key}][ev.b := K[ev.b] + {key}], E[key := ev])
  {
  }

  /**
   * The queue and key sets after the pair event `ev` goes in at `at` under
   * the index `next` (nothing goes in when `at` is at or beyond `HIGH_TIME`).
   */
  ghost predicate PairAdded(K: KeyMap, E: Queue, at: real, ev: InternalEvent, next: nat, K': KeyMap, E': Queue)
    requires ev.IsPair() && ev.a in K && ev.b in K
  {
    if at < HIGH_TIME then
      var key := EventKey(at, next + PAIR_BASE);
      && key !in E
      && E' == E[key := ev]
      && K' == K[ev.a := K[ev.a] + {key}][ev.b := K[ev.b] + {key}]
    else
      E' == E && K' == K
  }

  /**
   * The event `process_event` queues after a pair event for the same two
   * hitboxes: a `Separate` after a `Collide`, a `Collide` after a `Separate`.
   */
  function FollowUp(ev: InternalEvent): (r: InternalEvent)
    requires ev.IsPair()
    ensures r.IsPair() && r.a == ev.a && r.b == ev.b && (r.Collide? <==> ev.Separate?)
  {
    if ev.Collide? then InternalEvent.Separate(ev.a, ev.b) else InternalEvent.Collide(ev.a, ev.b)
  }

  /**
   * When `process_event` queues the pair event `ev`: the solver's delay
   * between both hitboxes advanced to the clock (with the padding for a
   * `Separate`), from now.
   */
  function PairTimeAt(H: Infos, ev: InternalEvent, time: real, collideTime: (Hitbox, Hitbox) -> Delay,
                      separateTime: (Hitbox, Hitbox, real) -> Delay, padding: real): XReal
    requires ev.IsPair() && ev.a in H && ev.b in H && OnTime(H[ev.a], time) && OnTime(H[ev.b], time)
  {
    var hitA, hitB := HitboxAtTime(H[ev.a], time), HitboxAtTime(H[ev.b], time);
    Plus(time, if ev.Collide? then collideTime(hitA, hitB) else separateTime(hitA, hitB, padding))
  }

  /** `ev` went in at `at` as `PairAdded` says, or nothing changed when `at` is never. */
  ghost predicate PairQueuedAt(K: KeyMap, E: Queue, at: XReal, ev: InternalEvent, next: nat, K': KeyMap, E': Queue)
    requires ev.IsPair() && ev.a in K && ev.b in K
  {
    if at.Fin? then PairAdded(K, E, at.val, ev, next, K', E') else K' == K && E' == E
  }

  /** Queueing a pair event that agrees with the overlaps and is new to its pair keeps the invariant. */
  lemma {:induction false} QueuePairKeeps(H: Infos, K: KeyMap, E: Queue, cells: CellMap, time: real,
                                          at: real, ev: InternalEvent, next: nat, K': KeyMap, E': Queue)
    requires Shared(H, K, E, cells, time)
    requires ev.IsPair() && ev.a != ev.b && ev.a in H && ev.b in H
    requires ev.Collide? <==> ev.b !in H[ev.a].overlaps
    requires forall k :: k in E ==> !SamePair(E[k], ev)
    requires time <= at
    requires ev.a in K && ev.b in K && PairAdded(K, E, at, ev, next, K', E')
    ensures Shared(H, K', E', cells, time) && Grows(K, E, K', E')
  {
    if at < HIGH_TIME {
      var key := EventKey(at, next + PAIR_BASE);
      AddPairKeepsShared(H, K, E, cells, time, key, ev);
      GrowsByPair(K, E, key, ev);
    }
  }

  /** The grid holds only present hitboxes, so neither does what it reports. */
  lemma GroupsIdsPresent(cells: CellMap, H: Infos, groups: seq<Group>, rect: IndexRects.IndexRect, o: HitboxId)
    requires GridHoldsOnly(cells, H)
    requires o in GroupsIds(cells, groups, rect)
    ensures o in H
  {
    GroupsIdsMeaning(cells, groups, rect, o);
  }

  /**
   * Once a hitbox's end time is never, at or beyond `HIGH_TIME`, or has its
   * solitary event queued, every hitbox has its solitary event queued.
   */
  lemma {:induction false} SolitaryNowQueued(H: Infos, K: KeyMap, E: Queue, id: HitboxId, key: EventKey)
    requires AllSolitaryQueued(H, K, E, {id}) && id in H && id in K
    requires var end := Plus(H[id].startTime, H[id].hitbox.duration);
      end.Fin? && end.val < HIGH_TIME ==>
        key in K[id] && key in E && key.time == end.val && !E[key].IsPair()
    ensures AllSolitaryQueued(H, K, E, {})
  {
    forall o | o in H && o !in {}
      ensures o in K && SolitaryQueued(E, K[o], H[o])
    {
      if o != id {
        assert o !in {id};
      }
    }
  }

  /**
   * The queue and key sets after the solitary event `chosen` of `id` goes in
   * at `time + delay` under the index `next` (nothing goes in when that is
   * never or at or beyond `HIGH_TIME`).
   */
  ghost predicate SolitaryAdded(K: KeyMap, E: Queue, time: real, id: HitboxId, chosen: (XReal, InternalEvent),
                                next: nat, K': KeyMap, E': Queue)
    requires id in K
  {
    var at := Plus(time, chosen.0);
    if at.Fin? && at.val < HIGH_TIME then
      var key := EventKey(at.val, next);
      && key !in E
      && E' == E[key := chosen.1]
      && K' == K[id := K[id] + {key}]
    else
      E' == E && K' == K
  }

  /**
   * `SolitaryAdded` keeps every event, and the only new one is the solitary
   * event of `id` stored from `time` for the delay `chosen.0`.
   */
  lemma SolitaryAddedEntries(K: KeyMap, E: Queue, time: real, id: HitboxId, chosen: (XReal, InternalEvent),
                             next: nat, K': KeyMap, E': Queue, H: Infos)
    requires id in K && SolitaryAdded(K, E, time, id, chosen, next, K', E')
    requires !chosen.1.IsPair() && chosen.1.id == id
    requires id in H && H[id].startTime == time && H[id].hitbox.duration == chosen.0
    ensures KeptBut(E, {}, E')
    ensures forall k :: k in E' && k !in E ==> SolitaryEntry(E', H, id, k)
  {
  }

  /**
   * Queueing the solitary event of `id` keeps the invariant, adds no pair
   * event, adds no due `Reiterate` and leaves the end of `id`'s duration
   * with its event queued.
   */
  lemma {:induction false} QueueSolitaryKeeps(H: Infos, K: KeyMap, E: Queue, cells: CellMap, time: real,
                                             id: HitboxId, chosen: (XReal, InternalEvent), next: nat,
                                             K': KeyMap, E': Queue)
    requires Shared(H, K, E, cells, time) && id in H
    requires NoPairEventsOf(E, id) && AllSolitaryQueued(H, K, E, {id})
    requires chosen.0.PosInf? || chosen.0.val >= 0.0
    requires !chosen.1.IsPair() && chosen.1.id == id
    requires chosen.1.Reiterate? ==> chosen.0.PosInf? || chosen.0.val > 0.0
    requires SolitaryAdded(K, E, time, id, chosen, next, K', E')
    ensures Shared(H, K', E', cells, time)
    ensures NoNewDue(E, E', time)
    ensures NoPairEventsOf(E', id) && AllSolitaryQueued(H, K', E', {id})
    ensures Grows(K, E, K', E')
    ensures forall k :: k in E' && k !in E ==> E'[k] == chosen.1 && Plus(time, chosen.0) == Fin(k.time)
    ensures var at := Plus(time, chosen.0);
      at.Fin? && at.val < HIGH_TIME ==>
        var key := EventKey(at.val, next);
        key in K'[id] && key in E' && key.time == at.val && !E'[key].IsPair()
  {
    var at := Plus(time, chosen.0);
    if at.Fin? && at.val < HIGH_TIME {
      var key := EventKey(at.val, next);
      AddSolitaryKeepsShared(H, K, E, cells, time, id, key, chosen.1);
    }
    GrowKeepsSolitary(H, K, E, K', E', {id});
  }

  /** Once `id` is stored in its own area, every hitbox is. */
  lemma AllInGridWith(cells: CellMap, H: Infos, span: Hitbox -> CellSpan, id: HitboxId)
    requires AllInGrid(cells, H, span, {id}) && id in H
    requires StoredExactlyIn(cells, id, IndexBounds(H[id].interactivity.group, span(H[id].hitbox)))
    ensures AllInGrid(cells, H, span, {})
  {
    forall o | o in H && o !in {}
      ensures StoredExactlyIn(cells, o, IndexBounds(H[o].interactivity.group, span(H[o].hitbox)))
    {
      if o != id {
        assert o !in {id};
      }
    }
  }

  /** No `Reiterate` due by `time` is queued that was not queued, the same, in `E0`. */
  ghost predicate NoNewDue(E0: Queue, E: Queue, time: real)
  {
    forall k :: k in E && E[k].Reiterate? && k.time <= time ==> k in E0 && E[k] == E0[k]
  }

  /** Taking events out of the queue adds no due `Reiterate`. */
  lemma NoNewDueSubset(E: Queue, gone: set<EventKey>, time: real)
    ensures NoNewDue(E, E - gone, time)
  {
  }

  lemma NoNewDueTrans(E0: Queue, E1: Queue, E2: Queue, time: real)
    requires NoNewDue(E0, E1, time) && NoNewDue(E1, E2, time)
    ensures NoNewDue(E0, E2, time)
  {
  }

  /** `a` and `b` now overlap, recorded on both sides. */
  function JoinOverlap(H: Infos, a: HitboxId, b: HitboxId): (r: Infos)
    requires a in H && b in H && a != b
    ensures SameButOverlaps(H, r)
    ensures r[a].overlaps == H[a].overlaps + {b} && r[b].overlaps == H[b].overlaps + {a}
    ensures forall o :: o in H && o != a && o != b ==> r[o] == H[o]
  {
    H[a := H[a].(overlaps := H[a].overlaps + {b})][b := H[b].(overlaps := H[b].overlaps + {a})]
  }

  /** `a` and `b` no longer overlap, recorded on both sides. */
  function SplitOverlap(H: Infos, a: HitboxId, b: HitboxId): (r: Infos)
    requires a in H && b in H && a != b
    ensures SameButOverlaps(H, r)
    ensures r[a].overlaps == H[a].overlaps - {b} && r[b].overlaps == H[b].overlaps - {a}
    ensures forall o :: o in H && o != a && o != b ==> r[o] == H[o]
  {
    H[a := H[a].(overlaps := H[a].overlaps - {b})][b := H[b].(overlaps := H[b].overlaps - {a})]
  }

  /**
   * Recording a new overlap between two hitboxes that had none keeps the
   * invariant, when no pair event for them is queued.
   */
  lemma {:induction false} JoinKeepsShared(H: Infos, K: KeyMap, E: Queue, cells: CellMap, time: real, a: HitboxId, b: HitboxId)
    requires Shared(H, K, E, cells, time) && a in H && b in H && a != b && b !in H[a].overlaps
    requires forall k :: k in E ==> !SamePair(E[k], InternalEvent.Collide(a, b))
    ensures Shared(JoinOverlap(H, a, b), K, E, cells, time)
  {
    JoinKeepsOverlaps(H, E, a, b);
    SameButOverlapsKeeps(H, JoinOverlap(H, a, b), K, E, cells, time, x => CellSpan(0, 0, 0, 0), {});
  }

  /** The overlap part of `JoinKeepsShared`. */
  lemma {:induction false} JoinKeepsOverlaps(H: Infos, E: Queue, a: HitboxId, b: HitboxId)
    requires OverlapsSymmetric(H) && PairEventsAgree(E, H) && a in H && b in H && a != b && b !in H[a].overlaps
    requires forall k :: k in E ==> !SamePair(E[k], InternalEvent.Collide(a, b))
    ensures OverlapsSymmetric(JoinOverlap(H, a, b)) && PairEventsAgree(E, JoinOverlap(H, a, b))
  {
    var H' := JoinOverlap(H, a, b);
    forall x, y | x in H' && y in H'[x].overlaps
      ensures y in H' && y != x && x in H'[y].overlaps
    {
      if !((x == a && y == b) || (x == b && y == a)) {
        assert y in H[x].overlaps;
      }
    }
    forall k | k in E && E[k].IsPair()
      ensures E[k].a in H' && (E[k].Collide? <==> E[k].b !in H'[E[k].a].overlaps)
    {
      assert !SamePair(E[k], InternalEvent.Collide(a, b));
    }
  }

  /**
   * Forgetting the overlap between two overlapping hitboxes keeps the
   * invariant, when no pair event for them is queued.
   */
  lemma {:induction false} SplitKeepsShared(H: Infos, K: KeyMap, E: Queue, cells: CellMap, time: real, a: HitboxId, b: HitboxId)
    requires Shared(H, K, E, cells, time) && a in H && b in H[a].overlaps
    requires forall k :: k in E ==> !SamePair(E[k], InternalEvent.Separate(a, b))
    ensures b in H && a != b && a in H[b].overlaps
    ensures Shared(SplitOverlap(H, a, b), K, E, cells, time)
  {
    SplitKeepsOverlaps(H, E, a, b);
    SameButOverlapsKeeps(H, SplitOverlap(H, a, b), K, E, cells, time, x => CellSpan(0, 0, 0, 0), {});
  }

  /** The overlap part of `SplitKeepsShared`. */
  lemma {:induction false} SplitKeepsOverlaps(H: Infos, E: Queue, a: HitboxId, b: HitboxId)
    requires OverlapsSymmetric(H) && PairEventsAgree(E, H) && a in H && b in H[a].overlaps
    requires forall k :: k in E ==> !SamePair(E[k], InternalEvent.Separate(a, b))
    ensures b in H && a != b && a in H[b].overlaps
    ensures OverlapsSymmetric(SplitOverlap(H, a, b)) && PairEventsAgree(E, SplitOverlap(H, a, b))
  {
    var H' := SplitOverlap(H, a, b);
    forall x, y | x in H' && y in H'[x].overlaps
      ensures y in H' && y != x && x in H'[y].overlaps
    {
      assert y in H[x].overlaps;
    }
    forall k | k in E && E[k].IsPair()
      ensures E[k].a in H' && (E[k].Collide? <==> E[k].b !in H'[E[k].a].overlaps)
    {
      assert !SamePair(E[k], InternalEvent.Separate(a, b));
    }
  }

  /**
   * Unqueueing one event and dropping its key from the sets of the hitboxes
   * it involves keeps the invariant; no other event for the same pair is left.
   */
  lemma {:induction false} PopKeepsShared(H: Infos, K: KeyMap, E: Queue, cells: CellMap, time: real, m: EventKey)
    requires Shared(H, K, E, cells, time) && m in E
    ensures Shared(H, Unlink(K, m, E[m]), E - {m}, cells, time)
    ensures forall k :: k in E - {m} ==> !SamePair((E - {m})[k], E[m])
  {
    PopKeepsMirror(K, E, m);
    var E' := E - {m};
    assert PairsDistinct(E') && PairEventsAgree(E', H) && NotBefore(E', time);
    forall k1, k2 | k1 in E' && k2 in E' && SamePair(E'[k1], E'[k2])
      ensures k1 == k2
    {
      assert k1 in E && k2 in E;
    }
    forall k | k in E'
      ensures !SamePair(E'[k], E[m])
    {
      assert k in E && k != m;
    }
  }

  /** The key part of `PopKeepsShared`: the key leaves the sets of the hitboxes its event involves. */
  lemma {:induction false} PopKeepsMirror(K: KeyMap, E: Queue, m: EventKey)
    requires Mirror(E, K) && m in E
    ensures Mirror(E - {m}, Unlink(K, m, E[m]))
  {
    var K', E' := Unlink(K, m, E[m]), E - {m};
    forall x, k | x in K' && k in K'[x]
      ensures k in E' && E'[k].Involves(x)
    {
      assert k in K[x];
    }
  }

  /**
   * After unqueueing one event, every hitbox still has its solitary event
   * queued, except the owner of that event when it was solitary.
   */
  lemma {:induction false} PopKeepsSolitary(H: Infos, K: KeyMap, E: Queue, m: EventKey)
    requires Mirror(E, K) && m in E && AllSolitaryQueued(H, K, E, {})
    ensures AllSolitaryQueued(H, Unlink(K, m, E[m]), E - {m}, if E[m].IsPair() then {} else {E[m].id})
  {
    var K', E' := Unlink(K, m, E[m]), E - {m};
    var except: set<HitboxId> := if E[m].IsPair() then {} else {E[m].id};
    forall o | o in H && o !in except
      ensures o in K' && SolitaryQueued(E', K'[o], H[o])
    {
      assert SolitaryQueued(E, K[o], H[o]);
      var end := Plus(H[o].startTime, H[o].hitbox.duration);
      if end.Fin? && end.val < HIGH_TIME {
        var k :| k in K[o] && k in E && k.time == end.val && !E[k].IsPair();
        assert E[k].Involves(o);
        assert k != m;
        assert k in K'[o] && k in E';
      }
    }
  }

  /** The `Reiterate` events due by `time`. */
  ghost function DueKeys(E: Queue, time: real): set<EventKey>
  {
    set k | k in E && E[k].Reiterate? && k.time <= time
  }

  /**
   * Unqueueing a due `Reiterate` and then queueing nothing new that is due
   * leaves fewer of them: why `next` ends.
   */
  lemma DueShrinks(E0: Queue, E2: Queue, m: EventKey, time: real)
    requires m in E0 && E0[m].Reiterate? && m.time <= time
    requires NoNewDue(E0 - {m}, E2, time)
    ensures |DueKeys(E2, time)| < |DueKeys(E0, time)|
  {
    SubsetCard(DueKeys(E2, time), DueKeys(E0, time) - {m});
  }

  lemma {:induction false} SubsetCard<T>(A: set<T>, B: set<T>)
    requires A <= B
    ensures |A| <= |B|
    decreases B
  {
    if A != {} {
      var x :| x in A;
      SubsetCard(A - {x}, B - {x});
    }
  }

  /**
   * What the collider reports for a public event: the smaller id first, both
   * present, and a `Collide` exactly when the two now overlap.
   */
  ghost predicate Reported(e: Event, H: Infos)
  {
    && e.id1 < e.id2 && e.id1 in H && e.id2 in H
    && (e.kind == EventKind.Collide <==> e.id2 in H[e.id1].overlaps)
  }

  /** A `Collide` just recorded is reported with its ids in order and agrees with the new overlap. */
  lemma JoinReported(H: Infos, a: HitboxId, b: HitboxId)
    requires a in H && b in H && a != b
    ensures NewCollide(a, b).Some? && Reported(NewCollide(a, b).value, JoinOverlap(H, a, b))
  {
  }

  /** A `Separate` just recorded is reported with its ids in order and agrees with the removed overlap. */
  lemma SplitReported(H: Infos, a: HitboxId, b: HitboxId)
    requires a in H && b in H && a != b
    ensures NewSeparate(a, b).Some? && Reported(NewSeparate(a, b).value, SplitOverlap(H, a, b))
  {
  }

  /**
   * The hitboxes other than `id` found in the cells `id` occupies, in the
   * groups it interacts with; none when it has no group.
   */
  ghost function NeighboursIn(cells: CellMap, H: Infos, id: HitboxId, span: Hitbox -> CellSpan): set<HitboxId>
    requires id in H
  {
    match H[id].interactivity.group
    case None => {}
    case Some(g) =>
      GroupsIds(cells, H[id].interactivity.interactGroups, IndexBounds(Some(g), span(H[id].hitbox)).value.rect) - {id}
  }

  /** The candidates `Settle` gathers are exactly the neighbours. */
  lemma SettledNeighbours(cells: CellMap, H: Infos, id: HitboxId, span: Hitbox -> CellSpan,
                          newGroup: Option<Group>, test: Option<set<HitboxId>>)
    requires id in H && newGroup == H[id].interactivity.group && (test.None? <==> newGroup.None?)
    requires test.Some? ==> forall o :: o in test.value <==>
      o != id && o in GroupsIds(cells, H[id].interactivity.interactGroups, IndexBounds(newGroup, span(H[id].hitbox)).value.rect)
    ensures (if test.Some? then test.value else {}) == NeighboursIn(cells, H, id, span)
  {
  }

  /**
   * After unqueueing the first event, what processing it needs holds: the
   * invariant, and for a pair event two different present hitboxes whose
   * overlap agrees with it and no other event for them.
   */
  lemma {:induction false} PopReady(H: Infos, K: KeyMap, E: Queue, cells: CellMap, time: real, m: EventKey)
    requires Shared(H, K, E, cells, time) && AllSolitaryQueued(H, K, E, {}) && m in E
    ensures Shared(H, Unlink(K, m, E[m]), E - {m}, cells, time)
    ensures AllSolitaryQueued(H, Unlink(K, m, E[m]), E - {m}, if E[m].IsPair() then {} else {E[m].id})
    ensures ReadyPair(H, E - {m}, E[m])
  {
    PopKeepsShared(H, K, E, cells, time, m);
    PopKeepsSolitary(H, K, E, m);
    var ev := E[m];
    if ev.IsPair() {
      assert ev.Involves(ev.b);
    } else {
      assert ev.Involves(ev.id);
    }
  }

  /**
   * What processing `ev` needs of the entries and of the rest of the queue:
   * a pair event joins two different present hitboxes, agrees with their
   * overlap and is the only one queued for them; a solitary event names a
   * present hitbox.
   */
  ghost predicate ReadyPair(H: Infos, E: Queue, ev: InternalEvent)
  {
    if ev.IsPair() then
      && ev.a in H && ev.b in H && ev.a != ev.b
      && (ev.Collide? <==> ev.b !in H[ev.a].overlaps)
      && forall k :: k in E ==> !SamePair(E[k], ev)
    else
      ev.id in H
  }

  /**
   * A round of `next` keeps the invariant: with nothing due, the first event
   * is strictly later; otherwise the popped event is ready to be processed
   * and only its own hitbox, for a solitary event, may lack its solitary
   * event.
   */
  lemma {:induction false} PopFacts(H: Infos, K: KeyMap, E: Queue, cells: CellMap, time: real,
                                    ev: Option<InternalEvent>, K': KeyMap, E': Queue)
    requires Shared(H, K, E, cells, time) && AllSolitaryQueued(H, K, E, {})
    requires Popped(E, K, time, ev, E', K')
    ensures ev == FirstDue(E, time)
    ensures ev.None? ==> E' == E && K' == K && Fin(time).Lt(EarliestTime(E))
    ensures ev.Some? ==>
      var m := Earliest(E.Keys).value;
      m in E && E[m] == ev.value && m.time == time && E' == E - {m}
    ensures ev.Some? ==>
      && Shared(H, K', E', cells, time)
      && AllSolitaryQueued(H, K', E', if ev.value.IsPair() then {} else {ev.value.id})
      && ReadyPair(H, E', ev.value)
  {
    if ev.None? {
      NothingDueNow(E, time);
    } else {
      PopReady(H, K, E, cells, time, Earliest(E.Keys).value);
    }
  }

  /** When the first queued event is not due now, it is strictly later. */
  lemma NothingDueNow(E: Queue, time: real)
    requires NotBefore(E, time)
    requires Earliest(E.Keys).None? || Earliest(E.Keys).value.time != time
    ensures Fin(time).Lt(EarliestTime(E))
  {
  }

  /** The first queued event, when it is due at `time`. */
  ghost function FirstDue(E: Queue, time: real): (r: Option<InternalEvent>)
    ensures r.Some? ==> exists k :: k in E && k.time == time && E[k] == r.value
  {
    var m := Earliest(E.Keys);
    if m.Some? && m.value.time == time then Some(E[m.value]) else None
  }

  /** With no event before the clock, nothing is due exactly when the first event is strictly later. */
  lemma {:induction false} FirstDueIff(E: Queue, time: real)
    requires NotBefore(E, time)
    ensures FirstDue(E, time).None? <==> Fin(time).Lt(EarliestTime(E))
  {
    var m := Earliest(E.Keys);
    if m.None? || m.value.time != time {
      NothingDueNow(E, time);
    }
  }

  /** Both maps hold the same ids, and each shows the same public hitbox at `time`. */
  ghost predicate SamePublic(H0: Infos, H: Infos, time: real)
  {
    && H.Keys == H0.Keys
    && forall o :: o in H && OnTime(H[o], time) && OnTime(H0[o], time) ==>
         PubHitboxAtTime(H[o], time) == PubHitboxAtTime(H0[o], time)
  }

  /** Changing overlap sets changes no public hitbox. */
  lemma OverlapsArePrivate(H0: Infos, H: Infos, time: real)
    requires SameButOverlaps(H0, H)
    ensures SamePublic(H0, H, time)
  {
    forall o | o in H && OnTime(H[o], time) && OnTime(H0[o], time)
      ensures PubHitboxAtTime(H[o], time) == PubHitboxAtTime(H0[o], time)
    {
      assert H[o].hitbox == H0[o].hitbox && H[o].startTime == H0[o].startTime && H[o].pubDuration == H0[o].pubDuration;
    }
  }

  /** Replacing one entry by one showing the same public hitbox changes no public hitbox. */
  lemma ReplacedKeepsPublic(H0: Infos, H: Infos, id: HitboxId, time: real)
    requires H.Keys == H0.Keys && id in H && OnTime(H[id], time) && OnTime(H0[id], time)
    requires forall o :: o in H0 && o != id ==> H[o] == H0[o]
    requires PubHitboxAtTime(H[id], time) == PubHitboxAtTime(H0[id], time)
    ensures SamePublic(H0, H, time)
  {
  }

  lemma SamePublicTrans(H0: Infos, H1: Infos, H2: Infos, time: real)
    requires SamePublic(H0, H1, time) && SamePublic(H1, H2, time) && AllOnTime(H1, time)
    ensures SamePublic(H0, H2, time)
  {
  }

  /**
   * A new entry with no overlaps and no keys keeps the invariant for the
   * others; it is in no cell yet and has no solitary event yet.
   */
  lemma {:induction false} InsertKeepsShared(H: Infos, K: KeyMap, E: Queue, cells: CellMap, time: real,
                                             span: Hitbox -> CellSpan, id: HitboxId, info: HitboxInfo)
    requires Shared(H, K, E, cells, time) && AllSolitaryQueued(H, K, E, {}) && AllInGrid(cells, H, span, {})
    requires id !in H && OnTime(info, time) && info.overlaps == {}
    ensures Shared(H[id := info], K[id := {}], E, cells, time)
    ensures AllSolitaryQueued(H[id := info], K[id := {}], E, {id})
    ensures AllInGrid(cells, H[id := info], span, {id})
    ensures StoredExactlyIn(cells, id, None)
  {
    InsertKeepsMirror(K, E, id);
    InsertKeepsOverlaps(H, E, id, info);
    var H', K' := H[id := info], K[id := {}];
    forall o | o in H' && o !in {id}
      ensures o in K' && SolitaryQueued(E, K'[o], H'[o])
    {
      assert o in H && o !in {};
    }
    forall o | o in H' && o !in {id}
      ensures StoredExactlyIn(cells, o, IndexBounds(H'[o].interactivity.group, span(H'[o].hitbox)))
    {
      assert o in H && o !in {};
    }
  }

  /** An empty key set for a hitbox no event involves keeps `Mirror`. */
  lemma {:induction false} InsertKeepsMirror(K: KeyMap, E: Queue, id: HitboxId)
    requires Mirror(E, K) && id !in K
    ensures Mirror(E, K[id := {}]) && NoEventsOf(E, id)
  {
    var K' := K[id := {}];
    forall k, x | k in E && E[k].Involves(x)
      ensures x in K' && k in K'[x]
    {
      assert x in K;
    }
  }

  /** A new entry without overlaps keeps the overlap relation and the pair events in agreement. */
  lemma {:induction false} InsertKeepsOverlaps(H: Infos, E: Queue, id: HitboxId, info: HitboxInfo)
    requires OverlapsSymmetric(H) && PairEventsAgree(E, H) && id !in H && info.overlaps == {}
    ensures OverlapsSymmetric(H[id := info]) && PairEventsAgree(E, H[id := info])
  {
    var H' := H[id := info];
    forall a, b | a in H' && b in H'[a].overlaps
      ensures b in H' && b != a && a in H'[b].overlaps
    {
      assert a in H;
    }
  }

  /** Deleting a key set that is empty, of a hitbox no event involves, keeps `Mirror`. */
  lemma {:induction false} DeleteKeepsMirror(K: KeyMap, E: Queue, id: HitboxId)
    requires Mirror(E, K) && id in K && K[id] == {} && NoEventsOf(E, id)
    ensures Mirror(E, K - {id})
  {
    var K' := K - {id};
    forall x, k | x in K' && k in K'[x]
      ensures k in E && E[k].Involves(x)
    {
      assert k in K[x];
    }
    forall k, x | k in E && E[k].Involves(x)
      ensures x in K' && k in K'[x]
    {
      assert x != id;
    }
  }

  /** Deleting a hitbox with no overlaps and no events keeps the overlap relation and the pair events in agreement. */
  lemma {:induction false} DeleteKeepsOverlaps(H: Infos, E: Queue, id: HitboxId)
    requires OverlapsSymmetric(H) && PairEventsAgree(E, H) && id in H && H[id].overlaps == {} && NoEventsOf(E, id)
    ensures OverlapsSymmetric(H - {id}) && PairEventsAgree(E, H - {id})
  {
    var H' := H - {id};
    forall a, b | a in H' && b in H'[a].overlaps
      ensures b in H' && b != a && a in H'[b].overlaps
    {
      assert b in H[a].overlaps;
      assert a in H[b].overlaps;
    }
    forall k | k in E && E[k].IsPair()
      ensures E[k].a in H' && (E[k].Collide? <==> E[k].b !in H'[E[k].a].overlaps)
    {
      assert E[k].Involves(E[k].a);
    }
  }

  /**
   * An entry with no overlaps, no keys, no queued event and no cell can be
   * deleted without breaking the invariant.
   */
  lemma {:induction false} DeleteKeepsShared(H: Infos, K: KeyMap, E: Queue, cells: CellMap, time: real,
                                             span: Hitbox -> CellSpan, id: HitboxId)
    requires Shared(H, K, E, cells, time) && AllSolitaryQueued(H, K, E, {id}) && AllInGrid(cells, H, span, {id})
    requires id in H && K[id] == {} && H[id].overlaps == {} && NoEventsOf(E, id) && StoredExactlyIn(cells, id, None)
    ensures Shared(H - {id}, K - {id}, E, cells, time)
    ensures AllSolitaryQueued(H - {id}, K - {id}, E, {})
    ensures AllInGrid(cells, H - {id}, span, {})
  {
    var H', K' := H - {id}, K - {id};
    DeleteKeepsMirror(K, E, id);
    DeleteKeepsOverlaps(H, E, id);
    forall k, o | Has(cells, k, o)
      ensures o in H'
    {
      assert o in H;
    }
    forall o | o in H'
      ensures o in K' && SolitaryQueued(E, K'[o], H'[o])
    {
      assert o in H && o !in {id};
    }
    forall o | o in H'
      ensures StoredExactlyIn(cells, o, IndexBounds(H'[o].interactivity.group, span(H'[o].hitbox)))
    {
      assert o in H && o !in {id};
    }
  }

  /** Dropping no partner changes nothing. */
  lemma DropNothing(H: Infos, id: HitboxId)
    requires id in H
    ensures DropPartners(H, id, {}) == H
  {
    var D := DropPartners(H, id, {});
    forall o | o in H
      ensures D[o] == H[o]
    {
      assert H[o].overlaps - {} == H[o].overlaps;
    }
  }

  /** Dropping one more partner, on both sides: the step of `recheck_overlap_interactivity`. */
  lemma {:induction false} DropOneMore(H: Infos, id: HitboxId, dropped: set<HitboxId>, other: HitboxId)
    requires id in H && OverlapsSymmetric(H) && other in H[id].overlaps && other !in dropped
    ensures var D := DropPartners(H, id, dropped);
      && other in D && other != id && other in D[id].overlaps && id in D[other].overlaps
      && D[other].interactivity == H[other].interactivity && D[id].interactivity == H[id].interactivity
      && D[id := D[id].(overlaps := D[id].overlaps - {other})][other := D[other].(overlaps := D[other].overlaps - {id})]
         == DropPartners(H, id, dropped + {other})
  {
    var D := DropPartners(H, id, dropped);
    var D' := D[id := D[id].(overlaps := D[id].overlaps - {other})][other := D[other].(overlaps := D[other].overlaps - {id})];
    var R := DropPartners(H, id, dropped + {other});
    assert other in H && other != id && id in H[other].overlaps;
    forall o | o in H
      ensures D'[o] == R[o]
    {
    }
    assert D'.Keys == R.Keys;
  }

  /** Dropping every partner of `id` takes `id` out of every other overlap set. */
  lemma DropAllPartners(H: Infos, id: HitboxId)
    requires OverlapsSymmetric(H) && id in H
    ensures forall o :: o in H && o != id ==>
      DropPartners(H, id, H[id].overlaps)[o] == H[o].(overlaps := H[o].overlaps - {id})
  {
    var partners := H[id].overlaps;
    forall o | o in H && o != id && o !in partners
      ensures id !in H[o].overlaps
    {
      assert id in H[o].overlaps ==> o in partners;
    }
  }

  /** The partners of `id` that it can no longer interact with. */
  function Incompatible(H: Infos, id: HitboxId, canInteract: (Interactivity, Interactivity) -> bool): (r: set<HitboxId>)
    requires id in H
    ensures r <= H[id].overlaps
    ensures forall p :: p in H[id].overlaps && p in H ==>
      (p in r <==> !canInteract(H[id].interactivity, H[p].interactivity))
  {
    set p | p in H[id].overlaps && p in H && !canInteract(H[id].interactivity, H[p].interactivity)
  }

  /**
   * The hitbox entries after the phase step of `internal_update_hitbox`:
   * adding and plain updates change nothing; removal clears the overlaps; a
   * new interactivity is stored, then the overlaps are cleared if it has no
   * group and rechecked otherwise.
   */
  function AfterPhase(H: Infos, id: HitboxId, newInteractivity: Option<Interactivity>, phase: Phase,
                      canInteract: (Interactivity, Interactivity) -> bool): (r: Infos)
    requires id in H && (phase != Update ==> newInteractivity.None?)
    ensures r.Keys == H.Keys
    ensures r[id].hitbox == H[id].hitbox && r[id].startTime == H[id].startTime
    ensures r[id].pubDuration == H[id].pubDuration
    ensures r[id].interactivity == if newInteractivity.Some? then newInteractivity.value else H[id].interactivity
    ensures phase == Remove || (newInteractivity.Some? && newInteractivity.value.group.None?) ==> r[id].overlaps == {}
  {
    if phase == Remove then DropPartners(H, id, H[id].overlaps)
    else if newInteractivity.Some? then
      var H1 := H[id := H[id].(interactivity := newInteractivity.value)];
      if newInteractivity.value.group.None? then DropPartners(H1, id, H1[id].overlaps)
      else DropPartners(H1, id, Incompatible(H1, id, canInteract))
    else H
  }

  /**
   * The entries after a new interactivity `i` for `id`: `id` keeps exactly
   * the partners `i` still lets it interact with (none when `i` has no
   * group), the dropped partners no longer record `id`, and nothing else
   * changes.
   */
  ghost predicate Rechecked(H0: Infos, H: Infos, id: HitboxId, i: Interactivity,
                            canInteract: (Interactivity, Interactivity) -> bool)
  {
    && id in H0 && H.Keys == H0.Keys
    && H[id].interactivity == i
    && (forall p :: p in H[id].overlaps <==>
          p in H0[id].overlaps && p in H0 && i.group.Some? && canInteract(i, H0[p].interactivity))
    && forall o :: o in H0 && o != id ==>
         H[o] == H0[o].(overlaps := if o in H[id].overlaps then H0[o].overlaps else H0[o].overlaps - {id})
  }

  /** `AfterPhase` with a new interactivity rechecks the overlaps as `Rechecked` says. */
  lemma {:induction false} AfterPhaseRechecks(H0: Infos, id: HitboxId, i: Interactivity, phase: Phase,
                                              canInteract: (Interactivity, Interactivity) -> bool, info: HitboxInfo)
    requires OverlapsSymmetric(H0) && id in H0 && phase == Update
    requires var H1 := AfterPhase(H0, id, Some(i), phase, canInteract);
      info.interactivity == H1[id].interactivity && info.overlaps == H1[id].overlaps
    ensures Rechecked(H0, AfterPhase(H0, id, Some(i), phase, canInteract)[id := info], id, i, canInteract)
  {
    var H1 := H0[id := H0[id].(interactivity := i)];
    var drop := if i.group.None? then H1[id].overlaps else Incompatible(H1, id, canInteract);
    assert AfterPhase(H0, id, Some(i), phase, canInteract) == DropPartners(H1, id, drop);
    var H := DropPartners(H1, id, drop)[id := info];
    forall p
      ensures p in H[id].overlaps <==>
        p in H0[id].overlaps && p in H0 && i.group.Some? && canInteract(i, H0[p].interactivity)
    {
      if p in H0[id].overlaps {
        assert p in H0 && p != id;
      }
    }
    forall o | o in H0 && o != id
      ensures H[o] == H0[o].(overlaps := if o in H[id].overlaps then H0[o].overlaps else H0[o].overlaps - {id})
    {
      assert id in H0[o].overlaps ==> o in H0[id].overlaps;
    }
  }

  // ---------------------------------------------------------------------
  // `remove_hitbox` in the debug build, as written.

  /**
   * The solitary event the debug `solitaire_event_check` queues during the
   * `Remove` phase of `internal_update_hitbox`, as written: the hitbox has
   * no group there, so the cell period is never, and a finite remaining
   * duration or time until the hitbox is too small still queues a panic
   * event for the hitbox that is about to be deleted.
   */
  function RemovePhaseSolitaryAsWritten(id: HitboxId, time: real, duration: XReal, tooSmall: XReal)
    : (r: Option<(real, InternalEvent)>)
    ensures r.Some? ==> r.value.1.Involves(id) && (r.value.1.PanicDurationPassed? || r.value.1.PanicSmallHitbox?)
    ensures r.Some? ==> r.value.0 < HIGH_TIME
    ensures r.Some? ==> Fin(r.value.0) == Plus(time, duration) || Fin(r.value.0) == Plus(time, tooSmall)
    ensures r.None? <==> Fin(HIGH_TIME).Le(Plus(time, duration)) && Fin(HIGH_TIME).Le(Plus(time, tooSmall))
  {
    var chosen := SolitaryChoice(PosInf, duration, tooSmall, id);
    var at := Plus(time, chosen.0);
    if at.Fin? && at.val < HIGH_TIME then Some((at.val, chosen.1)) else None
  }

  /**
   * The event is left behind by the deletion: once the queue holds an event
   * of a hitbox that has no key set, `Mirror` fails, and with it what
   * `EventManager::next` needs (its `event_keys_mut(id).unwrap()` finds no
   * entry and panics).
   */
  lemma {:induction false} StaleEventBreaksMirror(E: Queue, K: KeyMap, key: EventKey, ev: InternalEvent, id: HitboxId)
    requires ev.Involves(id) && id !in K
    ensures !Mirror(E[key := ev], K)
  {
    var E' := E[key := ev];
    assert key in E' && E'[key].Involves(id);
  }

  /**
   * A hitbox added at time 0 with a duration of 1 and removed at once: its
   * `PanicDurationPassed` is queued at time 1 after its entry is gone, so
   * advancing to 1 and calling `next` panics.
   */
  lemma RemovePhaseCounterexample()
    ensures RemovePhaseSolitaryAsWritten(7, 0.0, Fin(1.0), PosInf) == Some((1.0, PanicDurationPassed(7)))
    ensures !Mirror(map[EventKey(1.0, 0) := PanicDurationPassed(7)], map[])
  {
    StaleEventBreaksMirror(map[], map[], EventKey(1.0, 0), PanicDurationPassed(7), 7);
  }

  class Collider {
    var hitboxes: Infos
    var eventKeys: KeyMap
    var time: real
    const grid: Grid
    const padding: real
    const events: EventManager
    const canInteract: (Interactivity, Interactivity) -> bool
    const collideTime: (Hitbox, Hitbox) -> Delay
    const separateTime: (Hitbox, Hitbox, real) -> Delay
    const timeUntilTooSmall: (Hitbox, real) -> Delay
    /** `PlacedShape::max_edge` of the velocity: the speed of the fastest edge. */
    const maxEdge: PlacedShape -> real
    /** The cells `index_bounds` computes from the hitbox's bounding box. */
    const cellSpan: Hitbox -> CellSpan

    ghost predicate Valid()
      reads this, events, grid
    {
      && events.Valid() && grid.Valid()
      && 0.0 < padding < grid.cellWidth
      && Shared(hitboxes, eventKeys, events.events, grid.cells, time)
      && AllSolitaryQueued(hitboxes, eventKeys, events.events, {})
      && AllInGrid(grid.cells, hitboxes, cellSpan, {})
    }

    /**
     * The ids the grid holds, in the groups `id` interacts with, in the cells
     * of the area of `id`: none when `id` has no group.
     */
    ghost function Neighbours(id: HitboxId): set<HitboxId>
      reads this, grid
      requires id in hitboxes
    {
      NeighboursIn(grid.cells, hitboxes, id, cellSpan)
    }

    /**
     * The queue after `internal_update_hitbox` of `id` from the queue `E0`,
     * whose events of `id` were `gone`: every other event is still queued;
     * each new event is the solitary event of `id` or a `Collide` with a
     * neighbour or `Separate` with a partner at its solver time; and every
     * such `Collide` and `Separate` the queue takes is there.
     */
    ghost predicate Requeued(id: HitboxId, E0: Queue, gone: set<EventKey>)
      reads this, events, grid
    {
      && id in hitboxes
      && KeptBut(E0, gone, events.events)
      && NewAreUpdateEvents(E0, events.events, hitboxes, id, Neighbours(id), time,
                            canInteract, collideTime, separateTime, padding)
      && CollidesQueued(events.events, hitboxes, id, Neighbours(id), time, canInteract, collideTime)
      && SeparatesQueued(events.events, hitboxes, id, hitboxes[id].overlaps, time, separateTime, padding)
    }

    /**
     * `Collider::new`: no hitboxes, nothing queued, the clock at 0.  The
     * library asserts `cell_width > padding > 0`.
     */
    constructor (cellWidth: real, padding: real,
                 canInteract: (Interactivity, Interactivity) -> bool,
                 collideTime: (Hitbox, Hitbox) -> Delay,
                 separateTime: (Hitbox, Hitbox, real) -> Delay,
                 timeUntilTooSmall: (Hitbox, real) -> Delay,
                 maxEdge: PlacedShape -> real,
                 cellSpan: Hitbox -> CellSpan)
      requires cellWidth > padding > 0.0
      ensures Valid() && fresh(events) && fresh(grid)
      ensures hitboxes == map[] && time == 0.0 && events.events == map[] && grid.cellWidth == cellWidth
    {
      hitboxes := map[];
      eventKeys := map[];
      time := 0.0;
      grid := new Grid(cellWidth);
      this.padding := padding;
      events := new EventManager();
      this.canInteract := canInteract;
      this.collideTime := collideTime;
      this.separateTime := separateTime;
      this.timeUntilTooSmall := timeUntilTooSmall;
      this.maxEdge := maxEdge;
      this.cellSpan := cellSpan;
    }

    /** `time_until_next`: never negative, infinite exactly when nothing is queued. */
    method TimeUntilNext() returns (r: XReal)
      requires Valid()
      ensures r == Minus(EarliestTime(events.events), time)
      ensures r.PosInf? || r.val >= 0.0
      ensures r.PosInf? <==> events.events == map[]
    {
      var peek := events.PeekTime();
      r := Minus(peek, time);
    }

    /**
     * `advance`: the step must not be negative, and the clock must stay at
     * or before the first queued event and below `HIGH_TIME`.
     */
    method Advance(dt: real) returns (outcome: Outcome)
      requires Valid()
      modifies this
      ensures Valid()
      ensures hitboxes == old(hitboxes) && eventKeys == old(eventKeys)
      ensures outcome.Ok? <==> dt >= 0.0 && Fin(old(time) + dt).Le(EarliestTime(events.events)) && old(time) + dt < HIGH_TIME
      ensures outcome.Ok? ==> time == old(time) + dt
      ensures outcome.Panic? ==> time == old(time)
      ensures old(time) <= time
    {
      if dt < 0.0 {
        return Panic(NegativeStep);
      }
      var t := time + dt;
      var peek := events.PeekTime();
      if !Fin(t).Le(peek) {
        return Panic(PastNextEvent);
      }
      if t >= HIGH_TIME {
        return Panic(PastHighTime);
      }
      AdvanceKeepsShared(hitboxes, eventKeys, events.events, grid.cells, time, t);
      time := t;
      outcome := Ok;
    }

    /**
     * `get_hitbox`: `None` stands for the panic on an unknown id.  The hitbox
     * returned ends when the user's duration said it would.
     */
    function GetHitbox(id: HitboxId): (r: Option<Hitbox>)
      reads this, events, grid
      requires Valid()
      ensures r.Some? <==> id in hitboxes
      ensures r.Some? ==> ValidHitbox(r.value)
      ensures r.Some? ==> Plus(time, r.value.duration) == Plus(hitboxes[id].startTime, hitboxes[id].pubDuration)
      ensures r.Some? ==> r.value.vel == hitboxes[id].hitbox.vel && r.value.group == hitboxes[id].hitbox.group
      ensures r.Some? ==> r.value.shape == AdvancedShape(hitboxes[id].hitbox, time - hitboxes[id].startTime)
    {
      if id in hitboxes then Some(PubHitboxAtTime(hitboxes[id], time)) else None
    }

    /**
     * `clear_related_events` for `id`, given the other hitboxes' key sets:
     * the events of `id` leave the queue and their keys leave every set.
     */
    method ClearRelated(id: HitboxId)
      requires events.Valid() && id in eventKeys
      requires Mirror(events.events, eventKeys) && PairsDistinct(events.events)
      modifies this, events
      ensures events.Valid() && events.nextEventIndex == old(events.nextEventIndex)
      ensures events.events == old(events.events) - old(eventKeys)[id]
      ensures eventKeys == ClearedKeys(old(eventKeys), id)
      ensures hitboxes == old(hitboxes) && time == old(time)
    {
      var K: KeyMap := eventKeys;
      var others: KeyMap := K - {id};
      PartnersRecorded(events.events, K, id);
      ghost var E := events.events;
      var newKeySet, newKeys := events.ClearRelatedEvents(id, K[id], others);
      ClearedFromPartners(E, K, id, newKeys);
      eventKeys := newKeys[id := newKeySet];
    }

    /**
     * `clear_overlaps`: `id` leaves the overlap set of each of its partners
     * (where it must be), and its own set is emptied.
     */
    method ClearOverlaps(id: HitboxId)
      requires id in hitboxes && OverlapsSymmetric(hitboxes)
      modifies this
      ensures hitboxes == DropPartners(old(hitboxes), id, old(hitboxes)[id].overlaps)
      ensures hitboxes[id].overlaps == {}
      ensures eventKeys == old(eventKeys) && time == old(time)
    {
      ghost var H := hitboxes;
      var partners := hitboxes[id].overlaps;
      var rest := partners;
      while rest != {}
        invariant rest <= partners
        invariant hitboxes.Keys == H.Keys
        invariant hitboxes[id] == H[id]
        invariant forall o :: o in H && o != id ==>
          hitboxes[o] == if o in partners - rest then H[o].(overlaps := H[o].overlaps - {id}) else H[o]
        invariant eventKeys == old(eventKeys) && time == old(time)
        decreases rest
      {
        var other :| other in rest;
        assert id in hitboxes[other].overlaps;
        hitboxes := hitboxes[other := hitboxes[other].(overlaps := hitboxes[other].overlaps - {id})];
        rest := rest - {other};
      }
      hitboxes := hitboxes[id := hitboxes[id].(overlaps := {})];
      assert forall o :: o in H ==> hitboxes[o] == DropPartners(H, id, partners)[o];
    }

    /**
     * `recheck_overlap_interactivity`: each partner `id` can no longer
     * interact with is dropped, on both sides; the others stay.
     */
    method RecheckOverlapInteractivity(id: HitboxId)
      requires id in hitboxes && OverlapsSymmetric(hitboxes)
      modifies this
      ensures hitboxes == DropPartners(old(hitboxes), id, Incompatible(old(hitboxes), id, canInteract))
      ensures forall p :: p in hitboxes[id].overlaps <==>
        p in old(hitboxes)[id].overlaps && canInteract(hitboxes[id].interactivity, hitboxes[p].interactivity)
      ensures eventKeys == old(eventKeys) && time == old(time)
    {
      ghost var H := hitboxes;
      ghost var dropped: set<HitboxId> := {};
      var partners := hitboxes[id].overlaps;
      var rest := partners;
      DropNothing(H, id);
      while rest != {}
        invariant rest <= partners
        invariant dropped == Incompatible(H, id, canInteract) * (partners - rest)
        invariant hitboxes == DropPartners(H, id, dropped)
        invariant eventKeys == old(eventKeys) && time == old(time)
        decreases rest
      {
        var other :| other in rest;
        DropOneMore(H, id, dropped, other);
        if !canInteract(hitboxes[id].interactivity, hitboxes[other].interactivity) {
          hitboxes := hitboxes[id := hitboxes[id].(overlaps := hitboxes[id].overlaps - {other})];
          hitboxes := hitboxes[other := hitboxes[other].(overlaps := hitboxes[other].overlaps - {id})];
          dropped := dropped + {other};
        }
        rest := rest - {other};
      }
      assert dropped == Incompatible(H, id, canInteract);
      forall p | p in H[id].overlaps
        ensures p in H && hitboxes[p].interactivity == H[p].interactivity
      {
        assert p in H;
      }
    }

    /**
     * The delay and solitary event `solitaire_event_check` picks for `hb`
     * (debug build): the cell period, the duration or the time until the
     * hitbox is too small, whichever is first.
     */
    function SolitaryFor(id: HitboxId, hb: Hitbox, hasGroup: bool): (r: (XReal, InternalEvent))
      requires ValidHitbox(hb) && grid.cellWidth > 0.0
      ensures r.0.PosInf? || r.0.val >= 0.0
      ensures r.1.Reiterate? ==> r.0.PosInf? || r.0.val > 0.0
      ensures r.0.Le(hb.duration) && !r.1.IsPair() && r.1.id == id
    {
      SolitaryChoice(grid.CellPeriod(maxEdge(hb.vel), hasGroup), hb.duration, timeUntilTooSmall(hb, padding), id)
    }

    /**
     * The queueing half of `solitaire_event_check`: the solitary event goes
     * in at `time + delay`, unless that is never (at or beyond `HIGH_TIME`
     * the queue takes nothing either).
     */
    method QueueSolitary(id: HitboxId, chosen: (XReal, InternalEvent)) returns (exhausted: bool, ghost key: EventKey)
      requires events.Valid() && Shared(hitboxes, eventKeys, events.events, grid.cells, time) && id in hitboxes
      requires NoPairEventsOf(events.events, id) && AllSolitaryQueued(hitboxes, eventKeys, events.events, {id})
      requires chosen.0.PosInf? || chosen.0.val >= 0.0
      requires !chosen.1.IsPair() && chosen.1.id == id
      requires chosen.1.Reiterate? ==> chosen.0.PosInf? || chosen.0.val > 0.0
      modifies this, events
      ensures exhausted ==> events.nextEventIndex == PAIR_BASE
      ensures hitboxes == old(hitboxes) && time == old(time)
      ensures !exhausted ==>
        SolitaryAdded(old(eventKeys), old(events.events), time, id, chosen, old(events.nextEventIndex),
                      eventKeys, events.events)
      ensures !exhausted ==> events.Valid() && Shared(hitboxes, eventKeys, events.events, grid.cells, time)
      ensures !exhausted ==> NoNewDue(old(events.events), events.events, time)
      ensures !exhausted ==> NoPairEventsOf(events.events, id) && AllSolitaryQueued(hitboxes, eventKeys, events.events, {id})
      ensures !exhausted ==> Grows(old(eventKeys), old(events.events), eventKeys, events.events)
      ensures !exhausted ==> forall k :: k in events.events && k !in old(events.events) ==>
        events.events[k] == chosen.1 && Plus(time, chosen.0) == Fin(k.time)
      ensures !exhausted ==> var at := Plus(time, chosen.0);
        at.Fin? && at.val < HIGH_TIME ==>
          key in eventKeys[id] && key in events.events && key.time == at.val && !events.events[key].IsPair()
    {
      exhausted := false;
      var at := Plus(time, chosen.0);
      key := EventKey(0.0, 0);
      ghost var K, E, next := eventKeys, events.events, events.nextEventIndex;
      if at.Fin? {
        var keySet;
        keySet, exhausted := events.AddSolitaireEvent(at.val, chosen.1, eventKeys[id]);
        if exhausted {
          return;
        }
        eventKeys := eventKeys[id := keySet];
      }
      key := EventKey(if at.Fin? then at.val else 0.0, next);
      QueueSolitaryKeeps(hitboxes, K, E, grid.cells, time, id, chosen, next, eventKeys, events.events);
    }

    /**
     * The grid half of `internal_update_hitbox`: the hitbox moves from its
     * old area to the one of its new entry and group, and the grid reports
     * the ids in the cells it now looks at.
     */
    method PlaceInGrid(id: HitboxId, oldGroup: Option<Group>, newGroup: Option<Group>, newInfo: HitboxInfo)
      returns (test: Option<set<HitboxId>>)
      requires grid.Valid() && Shared(hitboxes, eventKeys, events.events, grid.cells, time) && id in hitboxes
      requires AllSolitaryQueued(hitboxes, eventKeys, events.events, {id})
      requires AllInGrid(grid.cells, hitboxes, cellSpan, {id})
      requires StoredExactlyIn(grid.cells, id, IndexBounds(oldGroup, cellSpan(hitboxes[id].hitbox)))
      requires newInfo.overlaps == hitboxes[id].overlaps && OnTime(newInfo, time)
      requires newGroup.Some? ==> newGroup == newInfo.interactivity.group
      modifies this, grid
      ensures hitboxes == old(hitboxes)[id := newInfo] && eventKeys == old(eventKeys) && time == old(time)
      ensures grid.Valid() && Shared(hitboxes, eventKeys, events.events, grid.cells, time)
      ensures AllSolitaryQueued(hitboxes, eventKeys, events.events, {id})
      ensures AllInGrid(grid.cells, hitboxes, cellSpan, {id})
      ensures StoredExactlyIn(grid.cells, id, IndexBounds(newGroup, cellSpan(newInfo.hitbox)))
      ensures test.None? <==> newGroup.None?
      ensures test.Some? ==> forall o :: o in test.value <==>
        o != id && o in GroupsIds(grid.cells, newInfo.interactivity.interactGroups,
                                  IndexBounds(newGroup, cellSpan(newInfo.hitbox)).value.rect)
      ensures test.Some? ==> test.value <= hitboxes.Keys
    {
      var groups := if newGroup.Some? then newInfo.interactivity.interactGroups else [];
      ghost var cells := grid.cells;
      var oldHitbox := hitboxes[id].hitbox;
      test := grid.UpdateHitbox(id, oldGroup, cellSpan(oldHitbox), newGroup, cellSpan(newInfo.hitbox), groups);
      ReplaceInfoKeepsShared(hitboxes, eventKeys, events.events, cells, grid.cells, time, cellSpan, id, newInfo);
      hitboxes := hitboxes[id := newInfo];
      if test.Some? {
        forall o | o in test.value
          ensures o in hitboxes
        {
          GroupsIdsPresent(grid.cells, hitboxes, groups, IndexBounds(newGroup, cellSpan(newInfo.hitbox)).value.rect, o);
        }
      }
    }

    /**
     * `add_pair_event` with the key sets of both hitboxes: a pair event that
     * agrees with their overlap and is not yet queued for them goes in, unless
     * its time is never.
     */
    method QueuePair(at: real, ev: InternalEvent) returns (exhausted: bool)
      requires events.Valid() && Shared(hitboxes, eventKeys, events.events, grid.cells, time)
      requires ev.IsPair() && ev.a != ev.b && ev.a in hitboxes && ev.b in hitboxes
      requires ev.Collide? <==> ev.b !in hitboxes[ev.a].overlaps
      requires forall k :: k in events.events ==> !SamePair(events.events[k], ev)
      requires time <= at
      modifies this, events
      ensures exhausted ==> events.nextEventIndex == PAIR_BASE
      ensures hitboxes == old(hitboxes) && time == old(time)
      ensures !exhausted ==> events.Valid() && Shared(hitboxes, eventKeys, events.events, grid.cells, time)
      ensures !exhausted ==> Grows(old(eventKeys), old(events.events), eventKeys, events.events)
      ensures !exhausted ==>
        PairAdded(old(eventKeys), old(events.events), at, ev, old(events.nextEventIndex), eventKeys, events.events)
      ensures exhausted ==> at < HIGH_TIME
    {
      ghost var E, K, n := events.events, eventKeys, events.nextEventIndex;
      var first, second;
      first, second, exhausted := events.AddPairEvent(at, ev, eventKeys[ev.a], eventKeys[ev.b]);
      if exhausted {
        return;
      }
      eventKeys := eventKeys[ev.a := first][ev.b := second];
      QueuePairKeeps(hitboxes, K, E, grid.cells, time, at, ev, n, eventKeys, events.events);
    }

    /**
     * One round of the collision loop: a `Collide` between `id` and `other`
     * is queued when they do not overlap and can interact, unless its time is
     * never.
     */
    method CollideWith(id: HitboxId, other: HitboxId, ghost S: set<HitboxId>)
      returns (exhausted: bool, ghost added: bool, ghost key: EventKey)
      requires events.Valid() && Shared(hitboxes, eventKeys, events.events, grid.cells, time)
      requires id in hitboxes && other in hitboxes && other != id
      requires PairsOfIdWithin(events.events, id, S) && other !in S
      modifies this, events
      ensures exhausted ==> events.nextEventIndex == PAIR_BASE
      ensures hitboxes == old(hitboxes) && time == old(time)
      ensures !exhausted ==> events.Valid() && Shared(hitboxes, eventKeys, events.events, grid.cells, time)
      ensures !exhausted && !added ==> eventKeys == old(eventKeys) && events.events == old(events.events)
      ensures !exhausted && added ==>
        && key !in old(events.events) && events.events == old(events.events)[key := InternalEvent.Collide(id, other)]
        && eventKeys == old(eventKeys)[id := old(eventKeys)[id] + {key}][other := old(eventKeys)[other] + {key}]
        && other !in hitboxes[id].overlaps && canInteract(hitboxes[id].interactivity, hitboxes[other].interactivity)
      ensures !exhausted ==>
        && (added <==> CollideWanted(hitboxes, id, other, time, canInteract, collideTime))
        && (added ==> Fin(key.time) == CollideTimeFrom(hitboxes, id, other, time, collideTime))
    {
      exhausted, added, key := false, false, EventKey(0.0, 0);
      ghost var n := events.nextEventIndex;
      if other !in hitboxes[id].overlaps && canInteract(hitboxes[id].interactivity, hitboxes[other].interactivity) {
        var delay := collideTime(hitboxes[id].hitbox, HitboxAtTime(hitboxes[other], time));
        var at := Plus(time, delay);
        if at.Fin? {
          NoPairYet(events.events, id, S, other, InternalEvent.Collide(id, other));
          exhausted := QueuePair(at.val, InternalEvent.Collide(id, other));
          if exhausted {
            return;
          }
          added, key := at.val < HIGH_TIME, EventKey(at.val, n + PAIR_BASE);
        }
      }
    }

    /**
     * The collision loop of `internal_update_hitbox`: for each id the grid
     * reported that `id` does not already overlap and can interact with, a
     * `Collide` is queued at the time the solver gives.
     */
    method QueueCollisions(id: HitboxId, test: set<HitboxId>) returns (exhausted: bool)
      requires events.Valid() && Shared(hitboxes, eventKeys, events.events, grid.cells, time)
      requires id in hitboxes && id !in test && test <= hitboxes.Keys
      requires NoPairEventsOf(events.events, id)
      modifies this, events
      ensures exhausted ==> events.nextEventIndex == PAIR_BASE
      ensures hitboxes == old(hitboxes) && time == old(time)
      ensures !exhausted ==> events.Valid() && Shared(hitboxes, eventKeys, events.events, grid.cells, time)
      ensures !exhausted ==> PairsOfIdWithin(events.events, id, test - hitboxes[id].overlaps)
      ensures !exhausted ==> Grows(old(eventKeys), old(events.events), eventKeys, events.events)
      ensures !exhausted ==> NewAreCollides(old(events.events), events.events, hitboxes, id, test, time, canInteract, collideTime)
      ensures !exhausted ==> CollidesQueued(events.events, hitboxes, id, test, time, canInteract, collideTime)
      ensures !exhausted ==> NoNewDue(old(events.events), events.events, time)
    {
      exhausted := false;
      var rest := test;
      ghost var K0, E0 := eventKeys, events.events;
      while rest != {}
        invariant rest <= test
        invariant hitboxes == old(hitboxes) && time == old(time)
        invariant events.Valid() && Shared(hitboxes, eventKeys, events.events, grid.cells, time)
        invariant PairsOfIdWithin(events.events, id, (test - rest) - hitboxes[id].overlaps)
        invariant Grows(K0, E0, eventKeys, events.events)
        invariant NewAreCollides(E0, events.events, hitboxes, id, test - rest, time, canInteract, collideTime)
        invariant CollidesQueued(events.events, hitboxes, id, test - rest, time, canInteract, collideTime)
        invariant NoNewDue(E0, events.events, time)
        decreases rest
      {
        var other :| other in rest;
        ghost var K1, E1 := eventKeys, events.events;
        ghost var added, key;
        exhausted, added, key := CollideWith(id, other, (test - rest) - hitboxes[id].overlaps);
        if exhausted {
          return;
        }
        CollideStep(K0, E0, K1, E1, eventKeys, events.events, hitboxes, id, test, rest, other, time,
                    canInteract, collideTime, added, key);
        CollideQueuedStep(E1, events.events, hitboxes, id, test, rest, other, time, canInteract, collideTime, added, key);
        rest := rest - {other};
      }
    }

    /** One round of the separation loop: a `Separate` between `id` and its partner `other`, unless its time is never. */
    method SeparateWith(id: HitboxId, other: HitboxId, ghost S: set<HitboxId>)
      returns (exhausted: bool, ghost added: bool, ghost key: EventKey)
      requires events.Valid() && Shared(hitboxes, eventKeys, events.events, grid.cells, time)
      requires id in hitboxes && other in hitboxes[id].overlaps
      requires PairsOfIdWithin(events.events, id, S) && other !in S
      modifies this, events
      ensures exhausted ==> events.nextEventIndex == PAIR_BASE
      ensures hitboxes == old(hitboxes) && time == old(time)
      ensures !exhausted ==> events.Valid() && Shared(hitboxes, eventKeys, events.events, grid.cells, time)
      ensures other in hitboxes && OnTime(hitboxes[other], time)
      ensures !exhausted ==> id in eventKeys && other in eventKeys
      ensures !exhausted && !added ==> eventKeys == old(eventKeys) && events.events == old(events.events)
      ensures !exhausted && added ==>
        && key !in old(events.events) && events.events == old(events.events)[key := InternalEvent.Separate(id, other)]
        && eventKeys == old(eventKeys)[id := old(eventKeys)[id] + {key}][other := old(eventKeys)[other] + {key}]
      ensures !exhausted ==>
        && (added <==> SeparateWanted(hitboxes, id, other, time, separateTime, padding))
        && (added ==> Fin(key.time) == SeparateTimeFrom(hitboxes, id, other, time, separateTime, padding))
    {
      exhausted, added, key := false, false, EventKey(0.0, 0);
      ghost var n := events.nextEventIndex;
      assert other in hitboxes && other != id && OnTime(hitboxes[other], time);
      var delay := separateTime(hitboxes[id].hitbox, HitboxAtTime(hitboxes[other], time), padding);
      var at := Plus(time, delay);
      if at.Fin? {
        NoPairYet(events.events, id, S, other, InternalEvent.Separate(id, other));
        exhausted := QueuePair(at.val, InternalEvent.Separate(id, other));
        if exhausted {
          return;
        }
        added, key := at.val < HIGH_TIME, EventKey(at.val, n + PAIR_BASE);
      }
    }

    /**
     * The separation loop of `internal_update_hitbox`: for each hitbox `id`
     * overlaps, a `Separate` is queued at the time the solver gives.
     */
    method QueueSeparations(id: HitboxId, ghost S: set<HitboxId>) returns (exhausted: bool)
      requires events.Valid() && Shared(hitboxes, eventKeys, events.events, grid.cells, time)
      requires id in hitboxes && S !! hitboxes[id].overlaps
      requires PairsOfIdWithin(events.events, id, S)
      modifies this, events
      ensures exhausted ==> events.nextEventIndex == PAIR_BASE
      ensures hitboxes == old(hitboxes) && time == old(time)
      ensures !exhausted ==> events.Valid() && Shared(hitboxes, eventKeys, events.events, grid.cells, time)
      ensures !exhausted ==> PairsOfIdWithin(events.events, id, S + hitboxes[id].overlaps)
      ensures !exhausted ==> Grows(old(eventKeys), old(events.events), eventKeys, events.events)
      ensures !exhausted ==>
        NewAreSeparates(old(events.events), events.events, hitboxes, id, hitboxes[id].overlaps, time, separateTime, padding)
      ensures !exhausted ==>
        SeparatesQueued(events.events, hitboxes, id, hitboxes[id].overlaps, time, separateTime, padding)
      ensures !exhausted ==> NoNewDue(old(events.events), events.events, time)
      ensures hitboxes[id].overlaps == {} ==> !exhausted && eventKeys == old(eventKeys) && events.events == old(events.events)
    {
      exhausted := false;
      var rest := hitboxes[id].overlaps;
      ghost var K0, E0, O := eventKeys, events.events, hitboxes[id].overlaps;
      while rest != {}
        invariant hitboxes == old(hitboxes) && time == old(time)
        invariant rest <= O && O == hitboxes[id].overlaps
        invariant events.Valid() && Shared(hitboxes, eventKeys, events.events, grid.cells, time)
        invariant PairsOfIdWithin(events.events, id, S + (O - rest))
        invariant Grows(K0, E0, eventKeys, events.events)
        invariant NewAreSeparates(E0, events.events, hitboxes, id, O - rest, time, separateTime, padding)
        invariant SeparatesQueued(events.events, hitboxes, id, O - rest, time, separateTime, padding)
        invariant NoNewDue(E0, events.events, time)
        invariant O == {} ==> eventKeys == K0 && events.events == E0
        decreases rest
      {
        var other :| other in rest;
        ghost var K1, E1 := eventKeys, events.events;
        ghost var added, key;
        exhausted, added, key := SeparateWith(id, other, S + (O - rest));
        if exhausted {
          return;
        }
        SeparateStep(K0, E0, K1, E1, eventKeys, events.events, hitboxes, id, S, rest, other, time,
                     separateTime, padding, added, key);
        SeparateQueuedStep(E1, events.events, hitboxes, id, rest, other, time, separateTime, padding, added, key);
        rest := rest - {other};
      }
    }

    /**
     * The first half of `internal_update_hitbox`: the events of `id` are
     * cleared, and the phase decides the old and new groups (the old one is
     * none when adding, the new one none when removing) and what happens to
     * the overlaps.
     */
    method Prepare(id: HitboxId, newInteractivity: Option<Interactivity>, phase: Phase)
      returns (oldGroup: Option<Group>, newGroup: Option<Group>)
      requires phase != Update ==> newInteractivity.None?
      requires events.Valid() && Shared(hitboxes, eventKeys, events.events, grid.cells, time) && id in hitboxes
      requires AllSolitaryQueued(hitboxes, eventKeys, events.events, {id})
      requires AllInGrid(grid.cells, hitboxes, cellSpan, {id})
      modifies this, events
      ensures time == old(time) && id in hitboxes
      ensures hitboxes == AfterPhase(old(hitboxes), id, newInteractivity, phase, canInteract)
      ensures eventKeys == ClearedKeys(old(eventKeys), id)
      ensures events.events == old(events.events) - old(eventKeys)[id]
      ensures events.Valid() && Shared(hitboxes, eventKeys, events.events, grid.cells, time)
      ensures NoEventsOf(events.events, id)
      ensures NoNewDue(old(events.events), events.events, time)
      ensures AllSolitaryQueued(hitboxes, eventKeys, events.events, {id})
      ensures AllInGrid(grid.cells, hitboxes, cellSpan, {id})
      ensures oldGroup == if phase == Add then None else old(hitboxes)[id].interactivity.group
      ensures newGroup == if phase == Remove then None else hitboxes[id].interactivity.group
    {
      ghost var H, K, E := hitboxes, eventKeys, events.events;
      ClearRelated(id);
      ClearKeepsShared(H, K, E, grid.cells, time, id);
      ClearKeepsSolitary(H, K, E, id);
      NoNewDueSubset(E, K[id], time);
      var group := hitboxes[id].interactivity.group;
      if phase == Add {
        oldGroup, newGroup := None, group;
      } else if phase == Remove {
        LeaveOverlaps(id);
        oldGroup, newGroup := group, None;
      } else if newInteractivity.Some? {
        ChangeInteractivity(id, newInteractivity.value);
        oldGroup, newGroup := group, newInteractivity.value.group;
      } else {
        oldGroup, newGroup := group, group;
      }
    }

    /**
     * The `Remove` phase: `clear_overlaps` once the events of `id` are gone,
     * keeping the invariant.
     */
    method LeaveOverlaps(id: HitboxId)
      requires Shared(hitboxes, eventKeys, events.events, grid.cells, time) && id in hitboxes
      requires NoEventsOf(events.events, id)
      requires AllSolitaryQueued(hitboxes, eventKeys, events.events, {id})
      requires AllInGrid(grid.cells, hitboxes, cellSpan, {id})
      modifies this
      ensures hitboxes == DropPartners(old(hitboxes), id, old(hitboxes)[id].overlaps)
      ensures eventKeys == old(eventKeys) && time == old(time)
      ensures Shared(hitboxes, eventKeys, events.events, grid.cells, time)
      ensures AllSolitaryQueued(hitboxes, eventKeys, events.events, {id})
      ensures AllInGrid(grid.cells, hitboxes, cellSpan, {id})
    {
      DropPartnersKeepsShared(hitboxes, eventKeys, events.events, grid.cells, time, id, hitboxes[id].overlaps);
      SameButOverlapsKeeps(hitboxes, DropPartners(hitboxes, id, hitboxes[id].overlaps), eventKeys, events.events,
                           grid.cells, time, cellSpan, {id});
      ClearOverlaps(id);
    }

    /**
     * The `Update` phase with a new interactivity, once the events of `id`
     * are gone: the interactivity is stored, then the overlaps are cleared
     * when it has no group and rechecked otherwise; the invariant holds
     * throughout.
     */
    method ChangeInteractivity(id: HitboxId, i: Interactivity)
      requires Shared(hitboxes, eventKeys, events.events, grid.cells, time) && id in hitboxes
      requires NoEventsOf(events.events, id)
      requires AllSolitaryQueued(hitboxes, eventKeys, events.events, {id})
      requires AllInGrid(grid.cells, hitboxes, cellSpan, {id})
      modifies this
      ensures hitboxes == AfterPhase(old(hitboxes), id, Some(i), Update, canInteract)
      ensures eventKeys == old(eventKeys) && time == old(time)
      ensures Shared(hitboxes, eventKeys, events.events, grid.cells, time)
      ensures AllSolitaryQueued(hitboxes, eventKeys, events.events, {id})
      ensures AllInGrid(grid.cells, hitboxes, cellSpan, {id})
    {
      var info := hitboxes[id].(interactivity := i);
      ReplaceInfoKeepsShared(hitboxes, eventKeys, events.events, grid.cells, grid.cells, time, cellSpan, id, info);
      hitboxes := hitboxes[id := info];
      var drop := if i.group.None? then info.overlaps else Incompatible(hitboxes, id, canInteract);
      DropPartnersKeepsShared(hitboxes, eventKeys, events.events, grid.cells, time, id, drop);
      SameButOverlapsKeeps(hitboxes, DropPartners(hitboxes, id, drop), eventKeys, events.events,
                           grid.cells, time, cellSpan, {id});
      if i.group.None? {
        ClearOverlaps(id);
      } else {
        RecheckOverlapInteractivity(id);
      }
    }

    /**
     * The middle of `internal_update_hitbox`: `hb` is stored with the chosen
     * delay as its duration and the clock as its start time, its solitary
     * event is queued, and the grid moves the hitbox to its new area and
     * reports the ids found there.
     */
    method Settle(id: HitboxId, hb: Hitbox, oldGroup: Option<Group>, newGroup: Option<Group>)
      returns (test: Option<set<HitboxId>>, exhausted: bool)
      requires events.Valid() && grid.Valid() && 0.0 < padding < grid.cellWidth
      requires Shared(hitboxes, eventKeys, events.events, grid.cells, time) && id in hitboxes
      requires NoEventsOf(events.events, id)
      requires AllSolitaryQueued(hitboxes, eventKeys, events.events, {id})
      requires AllInGrid(grid.cells, hitboxes, cellSpan, {id})
      requires StoredExactlyIn(grid.cells, id, IndexBounds(oldGroup, cellSpan(hitboxes[id].hitbox)))
      requires ValidHitbox(hb)
      requires newGroup.Some? ==> newGroup == hitboxes[id].interactivity.group
      modifies this, events, grid
      ensures exhausted ==> events.nextEventIndex == PAIR_BASE
      ensures time == old(time)
      ensures !exhausted ==>
        hitboxes == old(hitboxes)[id := old(hitboxes)[id].(hitbox := hb.(duration := SolitaryFor(id, hb, newGroup.Some?).0),
                                                           startTime := time, pubDuration := hb.duration)]
      ensures !exhausted ==>
        SolitaryAdded(old(eventKeys), old(events.events), time, id, SolitaryFor(id, hb, newGroup.Some?),
                      old(events.nextEventIndex), eventKeys, events.events)
      ensures !exhausted ==>
        && events.Valid() && grid.Valid()
        && Shared(hitboxes, eventKeys, events.events, grid.cells, time)
        && AllSolitaryQueued(hitboxes, eventKeys, events.events, {})
        && AllInGrid(grid.cells, hitboxes, cellSpan, {id})
        && StoredExactlyIn(grid.cells, id, IndexBounds(newGroup, cellSpan(hitboxes[id].hitbox)))
        && NoPairEventsOf(events.events, id)
        && NoNewDue(old(events.events), events.events, time)
      ensures !exhausted ==> (test.None? <==> newGroup.None?)
      ensures !exhausted && test.Some? ==> test.value <= hitboxes.Keys && forall o :: o in test.value <==>
        o != id && o in GroupsIds(grid.cells, hitboxes[id].interactivity.interactGroups,
                                  IndexBounds(newGroup, cellSpan(hitboxes[id].hitbox)).value.rect)
    {
      var chosen := SolitaryFor(id, hb, newGroup.Some?);
      var newInfo := hitboxes[id].(hitbox := hb.(duration := chosen.0), startTime := time, pubDuration := hb.duration);
      ghost var key;
      test := None;
      exhausted, key := QueueSolitary(id, chosen);
      if exhausted {
        return;
      }
      ghost var K1, E1 := eventKeys, events.events;
      test := PlaceInGrid(id, oldGroup, newGroup, newInfo);
      SolitaryNowQueued(hitboxes, K1, E1, id, key);
    }

    /**
     * The state `remove_hitbox` leaves just before it deletes the entry of
     * `id`: the invariant holds for every other hitbox, and nothing refers to
     * `id` any more.
     */
    ghost predicate Removable(id: HitboxId)
      reads this, events, grid
    {
      && events.Valid() && grid.Valid() && 0.0 < padding < grid.cellWidth
      && Shared(hitboxes, eventKeys, events.events, grid.cells, time)
      && id in hitboxes && eventKeys[id] == {} && hitboxes[id].overlaps == {}
      && NoEventsOf(events.events, id)
      && StoredExactlyIn(grid.cells, id, None)
      && AllSolitaryQueued(hitboxes, eventKeys, events.events, {id})
      && AllInGrid(grid.cells, hitboxes, cellSpan, {id})
    }

    /**
     * The second half of `internal_update_hitbox` for removal (with the
     * correction described in `RemovePhaseSolitaryAsWritten`): `hb` is
     * stored as for any update, the hitbox leaves the grid, and nothing is
     * queued.
     */
    method Unplace(id: HitboxId, hb: Hitbox, oldGroup: Option<Group>)
      requires events.Valid() && grid.Valid() && 0.0 < padding < grid.cellWidth
      requires Shared(hitboxes, eventKeys, events.events, grid.cells, time) && id in hitboxes
      requires NoEventsOf(events.events, id)
      requires AllSolitaryQueued(hitboxes, eventKeys, events.events, {id})
      requires AllInGrid(grid.cells, hitboxes, cellSpan, {id})
      requires StoredExactlyIn(grid.cells, id, IndexBounds(oldGroup, cellSpan(hitboxes[id].hitbox)))
      requires ValidHitbox(hb) && hitboxes[id].overlaps == {} && eventKeys[id] == {}
      modifies this, grid
      ensures hitboxes == old(hitboxes)[id := old(hitboxes)[id].(hitbox := hb.(duration := SolitaryFor(id, hb, false).0),
                                                           startTime := time, pubDuration := hb.duration)]
      ensures eventKeys == old(eventKeys) && events.events == old(events.events) && time == old(time)
      ensures Removable(id)
    {
      var newInfo := hitboxes[id].(hitbox := hb.(duration := SolitaryFor(id, hb, false).0),
                                   startTime := time, pubDuration := hb.duration);
      var _ := PlaceInGrid(id, oldGroup, None, newInfo);
    }

    /**
     * The second half of `internal_update_hitbox` otherwise: `Settle`, then
     * a `Collide` for each new neighbour `id` can interact with and a
     * `Separate` for each hitbox it overlaps.
     */
    method Finish(id: HitboxId, hb: Hitbox, oldGroup: Option<Group>, newGroup: Option<Group>)
      returns (outcome: Outcome)
      requires events.Valid() && grid.Valid() && 0.0 < padding < grid.cellWidth
      requires Shared(hitboxes, eventKeys, events.events, grid.cells, time) && id in hitboxes
      requires NoEventsOf(events.events, id)
      requires AllSolitaryQueued(hitboxes, eventKeys, events.events, {id})
      requires AllInGrid(grid.cells, hitboxes, cellSpan, {id})
      requires StoredExactlyIn(grid.cells, id, IndexBounds(oldGroup, cellSpan(hitboxes[id].hitbox)))
      requires ValidHitbox(hb)
      requires newGroup == hitboxes[id].interactivity.group
      modifies this, events, grid
      ensures outcome == Panic(IndicesExhausted) ==> events.nextEventIndex == PAIR_BASE
      ensures time == old(time)
      ensures outcome.Panic? ==> outcome == Panic(IndicesExhausted)
      ensures outcome.Ok? ==>
        hitboxes == old(hitboxes)[id := old(hitboxes)[id].(hitbox := hb.(duration := SolitaryFor(id, hb, newGroup.Some?).0),
                                                           startTime := time, pubDuration := hb.duration)]
      ensures outcome.Ok? ==> Valid()
      ensures outcome.Ok? ==> NoNewDue(old(events.events), events.events, time)
      ensures outcome.Ok? ==> Requeued(id, old(events.events), {})
    {
      ghost var E0 := events.events;
      var test, exhausted := Settle(id, hb, oldGroup, newGroup);
      if exhausted {
        return Panic(IndicesExhausted);
      }
      SettledNeighbours(grid.cells, hitboxes, id, cellSpan, newGroup, test);
      AllInGridWith(grid.cells, hitboxes, cellSpan, id);
      ghost var E1 := events.events;
      SolitaryAddedEntries(old(eventKeys), E0, time, id, SolitaryFor(id, hb, newGroup.Some?),
                           old(events.nextEventIndex), eventKeys, E1, hitboxes);
      outcome := Requeue(id, if test.Some? then test.value else {}, E0);
      if outcome.Ok? {
        NoNewDueTrans(old(events.events), E1, events.events, time);
      }
    }

    /**
     * The two loops once `Settle` has queued the solitary event of `id` since
     * `E0`: the neighbours' events are queued as `Requeued` says.
     */
    method Requeue(id: HitboxId, test: set<HitboxId>, ghost E0: Queue) returns (outcome: Outcome)
      requires Valid() && id in hitboxes && id !in test && test <= hitboxes.Keys
      requires NoPairEventsOf(events.events, id) && test == Neighbours(id)
      requires KeptBut(E0, {}, events.events)
      requires forall k :: k in events.events && k !in E0 ==> SolitaryEntry(events.events, hitboxes, id, k)
      modifies this, events
      ensures outcome.Panic? ==> outcome == Panic(IndicesExhausted) && events.nextEventIndex == PAIR_BASE
      ensures hitboxes == old(hitboxes) && time == old(time)
      ensures outcome.Ok? ==> Valid() && NoNewDue(old(events.events), events.events, time)
      ensures outcome.Ok? ==> Requeued(id, E0, {})
    {
      ghost var E1 := events.events;
      var exhausted := QueueNeighbourEvents(id, test);
      if exhausted {
        return Panic(IndicesExhausted);
      }
      outcome := Ok;
      UpdateEventsJoin(E0, E1, events.events, hitboxes, id, test, time,
                       canInteract, collideTime, separateTime, padding);
    }

    /**
     * The two loops at the end of `internal_update_hitbox`: a `Collide` for
     * each hitbox in `test` that `id` can interact with and does not overlap,
     * then a `Separate` for each hitbox it overlaps.
     */
    method QueueNeighbourEvents(id: HitboxId, test: set<HitboxId>) returns (exhausted: bool)
      requires Valid() && id in hitboxes && id !in test && test <= hitboxes.Keys
      requires NoPairEventsOf(events.events, id)
      modifies this, events
      ensures exhausted ==> events.nextEventIndex == PAIR_BASE
      ensures hitboxes == old(hitboxes) && time == old(time)
      ensures !exhausted ==> Valid() && NoNewDue(old(events.events), events.events, time)
      ensures !exhausted ==> CollidesQueued(events.events, hitboxes, id, test, time, canInteract, collideTime)
      ensures !exhausted ==>
        SeparatesQueued(events.events, hitboxes, id, hitboxes[id].overlaps, time, separateTime, padding)
      ensures !exhausted ==> NewAreNeighbourEvents(old(events.events), events.events, hitboxes, id, test, time,
                                                   canInteract, collideTime, separateTime, padding)
      ensures !exhausted ==> Grows(old(eventKeys), old(events.events), eventKeys, events.events)
    {
      ghost var K1, E1 := eventKeys, events.events;
      exhausted := QueueCollisions(id, test);
      if exhausted {
        return;
      }
      var S := test - hitboxes[id].overlaps;
      ghost var K2, E2 := eventKeys, events.events;
      exhausted := QueueSeparations(id, S);
      if exhausted {
        return;
      }
      NoNewDueTrans(E1, E2, events.events, time);
      GrowKeepsSolitary(hitboxes, K1, E1, eventKeys, events.events, {});
      NeighbourEventsJoin(E1, E2, events.events, hitboxes, id, test, time, canInteract, collideTime, separateTime, padding);
    }

    /**
     * `internal_update_hitbox`: the new hitbox (or the current one) is
     * validated; the events of `id` are cleared; the phase decides the
     * groups and the overlaps; then `Finish`.  The entry the update starts
     * from may break the invariant for `id` alone: its solitary event and its
     * grid cells are recomputed here.
     */
    method InternalUpdate(id: HitboxId, newHitbox: Option<Hitbox>, newInteractivity: Option<Interactivity>, phase: Phase)
      returns (outcome: Outcome)
      requires phase != Update ==> newHitbox.None? && newInteractivity.None?
      requires events.Valid() && grid.Valid() && 0.0 < padding < grid.cellWidth
      requires Shared(hitboxes, eventKeys, events.events, grid.cells, time) && id in hitboxes
      requires AllSolitaryQueued(hitboxes, eventKeys, events.events, {id})
      requires AllInGrid(grid.cells, hitboxes, cellSpan, {id})
      requires phase == Add ==> StoredExactlyIn(grid.cells, id, None)
      requires phase != Add ==>
        StoredExactlyIn(grid.cells, id, IndexBounds(hitboxes[id].interactivity.group, cellSpan(hitboxes[id].hitbox)))
      modifies this, events, grid
      ensures outcome == Panic(IndicesExhausted) ==> events.nextEventIndex == PAIR_BASE
      ensures time == old(time)
      ensures outcome.Panic? ==> outcome.reason == InvalidHitbox || outcome.reason == IndicesExhausted
      ensures outcome == Panic(InvalidHitbox) <==> newHitbox.Some? && !ValidHitbox(newHitbox.value)
      ensures outcome == Panic(InvalidHitbox) ==>
        hitboxes == old(hitboxes) && eventKeys == old(eventKeys) && events.events == old(events.events)
        && grid.cells == old(grid.cells)
      ensures outcome.Ok? ==>
        var hb := if newHitbox.Some? then newHitbox.value else PubHitboxAtTime(old(hitboxes)[id], time);
        var H1 := AfterPhase(old(hitboxes), id, newInteractivity, phase, canInteract);
        var newGroup := if phase == Remove then None else H1[id].interactivity.group;
        hitboxes == H1[id := H1[id].(hitbox := hb.(duration := SolitaryFor(id, hb, newGroup.Some?).0),
                                      startTime := time, pubDuration := hb.duration)]
      ensures outcome.Ok? && phase != Remove ==> Valid()
      ensures outcome.Ok? && phase != Remove ==> Requeued(id, old(events.events), old(eventKeys)[id])
      ensures phase == Remove ==> outcome.Ok? && Removable(id)
      ensures phase == Remove ==>
        events.events == old(events.events) - old(eventKeys)[id] && eventKeys == ClearedKeys(old(eventKeys), id)
      ensures outcome.Ok? ==> NoNewDue(old(events.events), events.events, time)
    {
      var info := hitboxes[id];
      var hb := if newHitbox.Some? then newHitbox.value else PubHitboxAtTime(info, time);
      if !ValidHitbox(hb) {
        return Panic(InvalidHitbox);
      }
      ghost var E0 := events.events;
      var oldGroup, newGroup := Prepare(id, newInteractivity, phase);
      ghost var E1 := events.events;
      if phase == Remove {
        Unplace(id, hb, oldGroup);
        outcome := Ok;
      } else {
        outcome := Finish(id, hb, oldGroup, newGroup);
        if outcome.Ok? {
          NoNewDueTrans(E0, E1, events.events, time);
          UpdateEventsAfterClear(E0, old(eventKeys)[id], events.events, hitboxes, id, Neighbours(id), time,
                                 canInteract, collideTime, separateTime, padding);
        }
      }
    }

    /**
     * What follows a pair event: the next event for the same two hitboxes,
     * at the time the solver gives from where they are now (a `Separate`
     * after they collided, a `Collide` after they separated); a time that is
     * never queues nothing.
     */
    method QueueNextPairEvent(ev: InternalEvent) returns (exhausted: bool)
      requires events.Valid() && grid.Valid() && 0.0 < padding < grid.cellWidth
      requires Shared(hitboxes, eventKeys, events.events, grid.cells, time)
      requires AllSolitaryQueued(hitboxes, eventKeys, events.events, {}) && AllInGrid(grid.cells, hitboxes, cellSpan, {})
      requires ev.IsPair() && ev.a != ev.b && ev.a in hitboxes && ev.b in hitboxes
      requires ev.Collide? <==> ev.b !in hitboxes[ev.a].overlaps
      requires forall k :: k in events.events ==> !SamePair(events.events[k], ev)
      modifies this, events
      ensures exhausted ==> events.nextEventIndex == PAIR_BASE
      ensures hitboxes == old(hitboxes) && time == old(time)
      ensures !exhausted ==> Valid()
      ensures !exhausted ==>
        PairQueuedAt(old(eventKeys), old(events.events), PairTimeAt(hitboxes, ev, time, collideTime, separateTime, padding),
                     ev, old(events.nextEventIndex), eventKeys, events.events)
      ensures exhausted ==> Queueable(PairTimeAt(hitboxes, ev, time, collideTime, separateTime, padding))
    {
      var at := PairTimeAt(hitboxes, ev, time, collideTime, separateTime, padding);
      exhausted := false;
      if at.Fin? {
        ghost var K, E := eventKeys, events.events;
        exhausted := QueuePair(at.val, ev);
        if !exhausted {
          GrowKeepsSolitary(hitboxes, K, E, eventKeys, events.events, {});
        }
      }
    }

    /**
     * A `Collide` came due: the two hitboxes now overlap (neither may have
     * recorded the other), their `Separate` is queued, and the public event
     * is returned.
     */
    method ProcessCollide(a: HitboxId, b: HitboxId) returns (r: Option<Event>, outcome: Outcome)
      requires events.Valid() && grid.Valid() && 0.0 < padding < grid.cellWidth
      requires Shared(hitboxes, eventKeys, events.events, grid.cells, time)
      requires AllSolitaryQueued(hitboxes, eventKeys, events.events, {}) && AllInGrid(grid.cells, hitboxes, cellSpan, {})
      requires a in hitboxes && b in hitboxes && a != b && b !in hitboxes[a].overlaps
      requires forall k :: k in events.events ==> !SamePair(events.events[k], InternalEvent.Collide(a, b))
      modifies this, events
      ensures outcome == Panic(IndicesExhausted) ==> events.nextEventIndex == PAIR_BASE
      ensures time == old(time)
      ensures outcome.Panic? ==> outcome == Panic(IndicesExhausted) && r.None?
      ensures outcome.Ok? ==> Valid() && r == NewCollide(a, b) && hitboxes == JoinOverlap(old(hitboxes), a, b)
      ensures outcome.Ok? ==>
        PairQueuedAt(old(eventKeys), old(events.events),
                     PairTimeAt(old(hitboxes), InternalEvent.Separate(a, b), time, collideTime, separateTime, padding),
                     InternalEvent.Separate(a, b), old(events.nextEventIndex), eventKeys, events.events)
      ensures outcome.Panic? ==>
        Queueable(PairTimeAt(old(hitboxes), InternalEvent.Separate(a, b), time, collideTime, separateTime, padding))
    {
      assert a !in hitboxes[b].overlaps;
      ghost var H := hitboxes;
      JoinKeepsShared(H, eventKeys, events.events, grid.cells, time, a, b);
      SameButOverlapsKeeps(H, JoinOverlap(H, a, b), eventKeys, events.events, grid.cells, time, cellSpan, {});
      hitboxes := JoinOverlap(hitboxes, a, b);
      var exhausted := QueueNextPairEvent(InternalEvent.Separate(a, b));
      if exhausted {
        return None, Panic(IndicesExhausted);
      }
      r, outcome := NewCollide(a, b), Ok;
    }

    /**
     * A `Separate` came due: the two hitboxes no longer overlap (both must
     * have recorded the other), their next `Collide` is queued, and the
     * public event is returned.
     */
    method ProcessSeparate(a: HitboxId, b: HitboxId) returns (r: Option<Event>, outcome: Outcome)
      requires events.Valid() && grid.Valid() && 0.0 < padding < grid.cellWidth
      requires Shared(hitboxes, eventKeys, events.events, grid.cells, time)
      requires AllSolitaryQueued(hitboxes, eventKeys, events.events, {}) && AllInGrid(grid.cells, hitboxes, cellSpan, {})
      requires a in hitboxes && b in hitboxes[a].overlaps
      requires forall k :: k in events.events ==> !SamePair(events.events[k], InternalEvent.Separate(a, b))
      modifies this, events
      ensures outcome == Panic(IndicesExhausted) ==> events.nextEventIndex == PAIR_BASE
      ensures time == old(time)
      ensures outcome.Panic? ==> outcome == Panic(IndicesExhausted) && r.None?
      ensures outcome.Ok? ==> b in old(hitboxes) && a != b
      ensures outcome.Ok? ==> Valid() && r == NewSeparate(a, b) && hitboxes == SplitOverlap(old(hitboxes), a, b)
      ensures outcome.Ok? ==>
        PairQueuedAt(old(eventKeys), old(events.events),
                     PairTimeAt(old(hitboxes), InternalEvent.Collide(a, b), time, collideTime, separateTime, padding),
                     InternalEvent.Collide(a, b), old(events.nextEventIndex), eventKeys, events.events)
      ensures outcome.Panic? ==>
        Queueable(PairTimeAt(old(hitboxes), InternalEvent.Collide(a, b), time, collideTime, separateTime, padding))
    {
      ghost var H := hitboxes;
      SplitKeepsShared(H, eventKeys, events.events, grid.cells, time, a, b);
      SameButOverlapsKeeps(H, SplitOverlap(H, a, b), eventKeys, events.events, grid.cells, time, cellSpan, {});
      hitboxes := SplitOverlap(hitboxes, a, b);
      var exhausted := QueueNextPairEvent(InternalEvent.Collide(a, b));
      if exhausted {
        return None, Panic(IndicesExhausted);
      }
      r, outcome := NewSeparate(a, b), Ok;
    }

    /**
     * A `Reiterate` came due: the hitbox is updated to itself at the current
     * time, which recomputes its grid cells and its next solitary event; the
     * hitbox the user sees is unchanged.
     */
    method ProcessReiterate(id: HitboxId) returns (outcome: Outcome)
      requires events.Valid() && grid.Valid() && 0.0 < padding < grid.cellWidth
      requires Shared(hitboxes, eventKeys, events.events, grid.cells, time)
      requires AllSolitaryQueued(hitboxes, eventKeys, events.events, {id})
      requires AllInGrid(grid.cells, hitboxes, cellSpan, {}) && id in hitboxes
      modifies this, events, grid
      ensures outcome == Panic(IndicesExhausted) ==> events.nextEventIndex == PAIR_BASE
      ensures time == old(time)
      ensures outcome.Panic? ==> outcome == Panic(IndicesExhausted)
      ensures outcome.Ok? ==> Valid() && NoNewDue(old(events.events), events.events, time)
      ensures outcome.Ok? ==> hitboxes.Keys == old(hitboxes).Keys
      ensures outcome.Ok? ==> GetHitbox(id) == Some(PubHitboxAtTime(old(hitboxes)[id], time))
      ensures outcome.Ok? ==> forall o :: o in old(hitboxes) && o != id ==> hitboxes[o] == old(hitboxes)[o]
      ensures outcome.Ok? ==>
        id in hitboxes && OnTime(hitboxes[id], time)
        && PubHitboxAtTime(hitboxes[id], time) == PubHitboxAtTime(old(hitboxes)[id], time)
      ensures outcome.Ok? ==> id in old(eventKeys) && Requeued(id, old(events.events), old(eventKeys)[id])
    {
      ghost var H0 := hitboxes;
      ghost var hb := PubHitboxAtTime(hitboxes[id], time);
      outcome := InternalUpdate(id, None, None, Update);
      if outcome.Ok? {
        assert AfterPhase(H0, id, None, Update, canInteract) == H0;
        var d := SolitaryFor(id, hb, H0[id].interactivity.group.Some?).0;
        StoredReadsBack(H0[id], hb, d, time);
        OnlyEntryReplaced(H0, id, H0[id].(hitbox := hb.(duration := d), startTime := time, pubDuration := hb.duration));
      }
    }

    /**
     * `process_event`: a pair event becomes a public event; a `Reiterate`
     * updates its hitbox in place and yields nothing; the two debug events
     * are the panics "hitbox became too small" and "hitbox was not updated
     * before duration passed".
     */
    method ProcessEvent(ev: InternalEvent) returns (r: Option<Event>, outcome: Outcome)
      requires events.Valid() && grid.Valid() && 0.0 < padding < grid.cellWidth
      requires Shared(hitboxes, eventKeys, events.events, grid.cells, time)
      requires AllSolitaryQueued(hitboxes, eventKeys, events.events, if ev.IsPair() then {} else {ev.id})
      requires AllInGrid(grid.cells, hitboxes, cellSpan, {})
      requires ReadyPair(hitboxes, events.events, ev)
      modifies this, events, grid
      ensures outcome == Panic(IndicesExhausted) ==> events.nextEventIndex == PAIR_BASE
      ensures time == old(time)
      ensures outcome.Ok? ==> Valid()
      ensures r.Some? ==> ev.IsPair() && outcome.Ok? && Reported(r.value, hitboxes)
      ensures ev.IsPair() && outcome.Ok? ==>
        r == NewEvent(ev.a, ev.b, if ev.Collide? then EventKind.Collide else EventKind.Separate)
      ensures ev.Collide? && outcome.Ok? ==> hitboxes == JoinOverlap(old(hitboxes), ev.a, ev.b)
      ensures ev.Separate? && outcome.Ok? ==> hitboxes == SplitOverlap(old(hitboxes), ev.a, ev.b)
      ensures ev.IsPair() && outcome.Ok? ==>
        PairQueuedAt(old(eventKeys), old(events.events),
                     PairTimeAt(old(hitboxes), FollowUp(ev), time, collideTime, separateTime, padding),
                     FollowUp(ev), old(events.nextEventIndex), eventKeys, events.events)
      ensures ev.IsPair() && outcome.Panic? ==>
        outcome == Panic(IndicesExhausted)
        && Queueable(PairTimeAt(old(hitboxes), FollowUp(ev), time, collideTime, separateTime, padding))
      ensures ev.Reiterate? && outcome.Ok? ==> NoNewDue(old(events.events), events.events, time)
      ensures ev.Reiterate? && outcome.Ok? ==>
        && hitboxes.Keys == old(hitboxes).Keys
        && ev.id in hitboxes && OnTime(hitboxes[ev.id], time)
        && PubHitboxAtTime(hitboxes[ev.id], time) == PubHitboxAtTime(old(hitboxes)[ev.id], time)
        && forall o :: o in old(hitboxes) && o != ev.id ==> hitboxes[o] == old(hitboxes)[o]
      ensures ev.Reiterate? && outcome.Ok? ==>
        ev.id in old(eventKeys) && Requeued(ev.id, old(events.events), old(eventKeys)[ev.id])
      ensures ev.PanicSmallHitbox? ==> outcome == Panic(BecameTooSmall(ev.id))
      ensures ev.PanicDurationPassed? ==> outcome == Panic(DurationPassed(ev.id))
      ensures (ev.IsPair() || ev.Reiterate?) && outcome.Panic? ==> outcome == Panic(IndicesExhausted)
    {
      match ev {
        case Collide(a, b) =>
          JoinReported(hitboxes, a, b);
          r, outcome := ProcessCollide(a, b);
        case Separate(a, b) =>
          SplitReported(hitboxes, a, b);
          r, outcome := ProcessSeparate(a, b);
        case Reiterate(id) =>
          assert OnTime(hitboxes[id], time);
          outcome := ProcessReiterate(id);
          r := None;
        case PanicSmallHitbox(id) =>
          r, outcome := None, Panic(BecameTooSmall(id));
        case PanicDurationPassed(id) =>
          r, outcome := None, Panic(DurationPassed(id));
      }
    }

    /**
     * One round of `next`'s loop: unqueue the first event if it is due now
     * and process it.  `done` is off only after a `Reiterate`, which leaves
     * fewer `Reiterate` events due.
     */
    method NextStep() returns (r: Option<Event>, outcome: Outcome, done: bool)
      requires Valid()
      modifies this, events, grid
      ensures outcome == Panic(IndicesExhausted) ==> events.nextEventIndex == PAIR_BASE
      ensures time == old(time)
      ensures outcome.Ok? ==> Valid()
      ensures !done ==> outcome.Ok? && r.None? && |DueKeys(events.events, time)| < old(|DueKeys(events.events, time)|)
      ensures done && outcome.Ok? && r.None? ==> Fin(time).Lt(EarliestTime(events.events))
      ensures r.Some? ==> outcome.Ok? && Reported(r.value, hitboxes)
      ensures outcome.Panic? ==>
        outcome.reason.BecameTooSmall? || outcome.reason.DurationPassed? || outcome.reason == IndicesExhausted
      ensures FirstDue(old(events.events), time).None? ==>
        && done && r.None? && outcome.Ok?
        && hitboxes == old(hitboxes) && eventKeys == old(eventKeys) && events.events == old(events.events)
      ensures r.Some? ==> FirstDue(old(events.events), time).Some? && FirstDue(old(events.events), time).value.IsPair()
      ensures var first := FirstDue(old(events.events), time);
        first.Some? && first.value.IsPair() && outcome.Ok? ==>
        r == NewEvent(first.value.a, first.value.b, if first.value.Collide? then EventKind.Collide else EventKind.Separate)
      ensures outcome.Panic? && outcome.reason.BecameTooSmall? ==>
        FirstDue(old(events.events), time) == Some(PanicSmallHitbox(outcome.reason.id))
      ensures outcome.Panic? && outcome.reason.DurationPassed? ==>
        FirstDue(old(events.events), time) == Some(PanicDurationPassed(outcome.reason.id))
      ensures outcome.Ok? ==> SamePublic(old(hitboxes), hitboxes, time)
    {
      ghost var E0, H0 := events.events, hitboxes;
      var ev;
      ghost var m;
      ev, m := PopDue();
      if ev.None? {
        return None, Ok, true;
      }
      r, outcome := ProcessEvent(ev.value);
      done := r.Some? || outcome.Panic? || !ev.value.Reiterate?;
      if !done {
        DueShrinks(E0, events.events, m, time);
      }
      if outcome.Ok? {
        if ev.value.IsPair() {
          OverlapsArePrivate(H0, hitboxes, time);
        } else {
          ReplacedKeepsPublic(H0, hitboxes, ev.value.id, time);
        }
      }
    }

    /**
     * The unqueueing half of a round of `next`: the first event leaves the
     * queue and the key sets when it is due now; the invariant then holds
     * for every hitbox but the one a solitary event names.
     */
    method PopDue() returns (ev: Option<InternalEvent>, ghost m: EventKey)
      requires Valid()
      modifies this, events
      ensures time == old(time) && hitboxes == old(hitboxes)
      ensures ev == FirstDue(old(events.events), time)
      ensures ev.None? ==> events.Valid() && Fin(time).Lt(EarliestTime(events.events))
      ensures ev.None? ==> events.events == old(events.events) && eventKeys == old(eventKeys)
      ensures ev.Some? ==>
        && m in old(events.events) && old(events.events)[m] == ev.value && m.time == time
        && events.events == old(events.events) - {m}
      ensures ev.Some? ==>
        && events.Valid() && grid.Valid() && 0.0 < padding < grid.cellWidth
        && Shared(hitboxes, eventKeys, events.events, grid.cells, time)
        && AllSolitaryQueued(hitboxes, eventKeys, events.events, if ev.value.IsPair() then {} else {ev.value.id})
        && AllInGrid(grid.cells, hitboxes, cellSpan, {})
      ensures ev.Some? ==> ReadyPair(hitboxes, events.events, ev.value)
    {
      ghost var E0, K0 := events.events, eventKeys;
      var newKeys;
      ev, newKeys := events.Next(time, eventKeys);
      eventKeys := newKeys;
      PopFacts(hitboxes, K0, E0, grid.cells, time, ev, eventKeys, events.events);
      m := if ev.Some? then Earliest(E0.Keys).value else EventKey(0.0, 0);
    }

    /**
     * `next`: unqueue and process the events due now until one yields a
     * public event, which names its ids in increasing order and agrees with
     * the overlap it leaves; with none left, nothing is due now.
     */
    method Next() returns (r: Option<Event>, outcome: Outcome)
      requires Valid()
      modifies this, events, grid
      ensures outcome == Panic(IndicesExhausted) ==> events.nextEventIndex == PAIR_BASE
      ensures time == old(time)
      ensures outcome.Ok? ==> Valid()
      ensures outcome.Ok? && r.None? ==> Fin(time).Lt(EarliestTime(events.events))
      ensures r.Some? ==> outcome.Ok? && Reported(r.value, hitboxes)
      ensures outcome.Panic? ==>
        outcome.reason.BecameTooSmall? || outcome.reason.DurationPassed? || outcome.reason == IndicesExhausted
      ensures Fin(time).Lt(old(EarliestTime(events.events))) ==>
        r.None? && outcome.Ok? && hitboxes == old(hitboxes) && events.events == old(events.events)
      ensures outcome.Ok? ==> hitboxes.Keys == old(hitboxes).Keys
      ensures outcome.Ok? ==> forall o :: o in hitboxes ==> GetHitbox(o) == old(GetHitbox(o))
    {
      ghost var H0, E0 := hitboxes, events.events;
      FirstDueIff(events.events, time);
      var done := false;
      r, outcome, done := NextStep();
      while !done
        invariant time == old(time)
        invariant outcome.Ok? ==> Valid()
        invariant !done ==> outcome.Ok? && r.None?
        invariant done && outcome.Ok? && r.None? ==> Fin(time).Lt(EarliestTime(events.events))
        invariant r.Some? ==> outcome.Ok? && Reported(r.value, hitboxes)
        invariant outcome.Panic? ==>
          outcome.reason.BecameTooSmall? || outcome.reason.DurationPassed? || outcome.reason == IndicesExhausted
        invariant outcome == Panic(IndicesExhausted) ==> events.nextEventIndex == PAIR_BASE
        invariant outcome.Ok? ==> SamePublic(H0, hitboxes, time)
        invariant FirstDue(E0, time).None? ==> done && r.None? && outcome.Ok? && hitboxes == H0 && events.events == E0
        decreases if done then 0 else |DueKeys(events.events, time)| + 1
      {
        ghost var H1 := hitboxes;
        r, outcome, done := NextStep();
        if outcome.Ok? {
          SamePublicTrans(H0, H1, hitboxes, time);
        }
      }
      if outcome.Ok? {
        forall o | o in hitboxes
          ensures GetHitbox(o) == old(GetHitbox(o))
        {
          assert OnTime(hitboxes[o], time) && OnTime(H0[o], time);
        }
      }
    }

    /**
     * `add_hitbox_with_interactivity`: a new hitbox, its events and its
     * cells.  An id already in use is refused, and so is a hitbox `validate`
     * rejects; neither changes anything.
     */
    method AddHitbox(id: HitboxId, hitbox: Hitbox, interactivity: Interactivity) returns (outcome: Outcome)
      requires Valid()
      modifies this, events, grid
      ensures outcome == Panic(IndicesExhausted) ==> events.nextEventIndex == PAIR_BASE
      ensures time == old(time)
      ensures outcome == Panic(IdInUse) <==> id in old(hitboxes)
      ensures outcome == Panic(InvalidHitbox) <==> id !in old(hitboxes) && !ValidHitbox(hitbox)
      ensures outcome.Panic? ==> outcome.reason in {IdInUse, InvalidHitbox, IndicesExhausted}
      ensures outcome.Panic? && outcome.reason != IndicesExhausted ==>
        hitboxes == old(hitboxes) && eventKeys == old(eventKeys) && events.events == old(events.events)
      ensures outcome.Ok? ==> Valid() && hitboxes.Keys == old(hitboxes).Keys + {id}
      ensures outcome.Ok? ==> GetHitbox(id) == Some(hitbox)
      ensures outcome.Ok? ==> hitboxes[id].interactivity == interactivity && hitboxes[id].overlaps == {}
      ensures outcome.Ok? ==> forall o :: o in old(hitboxes) ==> hitboxes[o] == old(hitboxes)[o]
      ensures outcome.Ok? ==> Requeued(id, old(events.events), {})
    {
      if id in hitboxes {
        return Panic(IdInUse);
      }
      if !ValidHitbox(hitbox) {
        return Panic(InvalidHitbox);
      }
      outcome := AddChecked(id, hitbox, interactivity);
      if outcome.Ok? {
        var info := HitboxInfo(interactivity, hitbox, time, hitbox.duration, {});
        StoredReadsBack(info, hitbox, SolitaryFor(id, hitbox, interactivity.group.Some?).0, time);
      }
    }

    /**
     * The rest of `add_hitbox_with_interactivity`, once the id is free and
     * the hitbox valid: only running out of event indices can stop it, and
     * otherwise the new entry holds the hitbox with the duration of its
     * first solitary event.
     */
    method AddChecked(id: HitboxId, hitbox: Hitbox, interactivity: Interactivity) returns (outcome: Outcome)
      requires Valid() && id !in hitboxes && ValidHitbox(hitbox)
      modifies this, events, grid
      ensures outcome == Panic(IndicesExhausted) ==> events.nextEventIndex == PAIR_BASE
      ensures time == old(time)
      ensures outcome.Panic? ==> outcome == Panic(IndicesExhausted)
      ensures outcome.Ok? ==> Valid()
      ensures outcome.Ok? ==> hitboxes.Keys == old(hitboxes).Keys + {id}
      ensures outcome.Ok? ==> forall o :: o in old(hitboxes) ==> hitboxes[o] == old(hitboxes)[o]
      ensures outcome.Ok? ==>
        hitboxes[id] == HitboxInfo(interactivity, hitbox.(duration := SolitaryFor(id, hitbox, interactivity.group.Some?).0),
                                   time, hitbox.duration, {})
      ensures outcome.Ok? ==> Requeued(id, old(events.events), {})
    {
      var info := HitboxInfo(interactivity, hitbox, time, hitbox.duration, {});
      StoredReadsBack(info, hitbox, hitbox.duration, time);
      Insert(id, info);
      outcome := AddPhase(id);
    }

    /**
     * `internal_update_hitbox` in the `Add` phase, right after the entry of
     * `id` went in: the entry is stored again from its own public hitbox,
     * and its events are queued.
     */
    method AddPhase(id: HitboxId) returns (outcome: Outcome)
      requires events.Valid() && grid.Valid() && 0.0 < padding < grid.cellWidth
      requires Shared(hitboxes, eventKeys, events.events, grid.cells, time) && id in hitboxes
      requires AllSolitaryQueued(hitboxes, eventKeys, events.events, {id})
      requires AllInGrid(grid.cells, hitboxes, cellSpan, {id})
      requires StoredExactlyIn(grid.cells, id, None)
      modifies this, events, grid
      ensures outcome == Panic(IndicesExhausted) ==> events.nextEventIndex == PAIR_BASE
      ensures time == old(time)
      ensures outcome.Panic? ==> outcome == Panic(IndicesExhausted)
      ensures outcome.Ok? ==> Valid()
      ensures outcome.Ok? ==>
        var hb := PubHitboxAtTime(old(hitboxes)[id], time);
        var info := old(hitboxes)[id];
        hitboxes == old(hitboxes)[id := info.(hitbox := hb.(duration := SolitaryFor(id, hb, info.interactivity.group.Some?).0),
                                              startTime := time, pubDuration := hb.duration)]
      ensures outcome.Ok? ==> Requeued(id, old(events.events), old(eventKeys)[id])
    {
      ghost var H1 := hitboxes;
      outcome := InternalUpdate(id, None, None, Add);
      if outcome.Ok? {
        assert AfterPhase(H1, id, None, Add, canInteract) == H1;
      }
    }

    /**
     * The first step of `add_hitbox_with_interactivity`: the entry of the new
     * hitbox, with no overlaps and no event keys; the invariant holds for
     * every other hitbox, and `id` is in no cell.
     */
    method Insert(id: HitboxId, info: HitboxInfo)
      requires Valid() && id !in hitboxes && OnTime(info, time) && info.overlaps == {}
      modifies this
      ensures hitboxes == old(hitboxes)[id := info] && eventKeys == old(eventKeys)[id := {}] && time == old(time)
      ensures Shared(hitboxes, eventKeys, events.events, grid.cells, time)
      ensures AllSolitaryQueued(hitboxes, eventKeys, events.events, {id})
      ensures AllInGrid(grid.cells, hitboxes, cellSpan, {id})
      ensures StoredExactlyIn(grid.cells, id, None)
    {
      InsertKeepsShared(hitboxes, eventKeys, events.events, grid.cells, time, cellSpan, id, info);
      hitboxes := hitboxes[id := info];
      eventKeys := eventKeys[id := {}];
    }

    /**
     * `remove_hitbox`: the hitbox, its events and its overlaps are gone; the
     * hitboxes it overlapped no longer record it.  An unknown id is refused
     * and changes nothing.
     */
    method RemoveHitbox(id: HitboxId) returns (outcome: Outcome)
      requires Valid()
      modifies this, events, grid
      ensures time == old(time)
      ensures outcome.Panic? <==> id !in old(hitboxes)
      ensures outcome.Panic? ==> outcome == Panic(IdNotFound)
      ensures outcome.Panic? ==>
        hitboxes == old(hitboxes) && eventKeys == old(eventKeys) && events.events == old(events.events)
      ensures outcome.Ok? ==> Valid() && hitboxes.Keys == old(hitboxes).Keys - {id}
      ensures outcome.Ok? ==> events.events == old(events.events) - old(eventKeys)[id] && NoEventsOf(events.events, id)
      ensures outcome.Ok? ==> forall o :: o in hitboxes ==>
        hitboxes[o] == old(hitboxes)[o].(overlaps := old(hitboxes)[o].overlaps - {id})
    {
      if id !in hitboxes {
        return Panic(IdNotFound);
      }
      ghost var H0 := hitboxes;
      DropAllPartners(H0, id);
      outcome := InternalUpdate(id, None, None, Remove);
      DeleteKeepsShared(hitboxes, eventKeys, events.events, grid.cells, time, cellSpan, id);
      hitboxes := hitboxes - {id};
      eventKeys := eventKeys - {id};
    }

    /**
     * `update_hitbox`: the hitbox becomes `hitbox`; its interactivity and its
     * overlaps are kept (an overlap that goes on produces no new event), and
     * no other entry changes.
     */
    method UpdateHitbox(id: HitboxId, hitbox: Hitbox) returns (outcome: Outcome)
      requires Valid()
      modifies this, events, grid
      ensures outcome == Panic(IndicesExhausted) ==> events.nextEventIndex == PAIR_BASE
      ensures time == old(time)
      ensures outcome == Panic(IdNotFound) <==> id !in old(hitboxes)
      ensures outcome == Panic(InvalidHitbox) <==> id in old(hitboxes) && !ValidHitbox(hitbox)
      ensures outcome.Panic? ==> outcome.reason in {IdNotFound, InvalidHitbox, IndicesExhausted}
      ensures outcome.Panic? && outcome.reason != IndicesExhausted ==>
        hitboxes == old(hitboxes) && eventKeys == old(eventKeys) && events.events == old(events.events)
      ensures outcome.Ok? ==> Valid() && hitboxes.Keys == old(hitboxes).Keys && GetHitbox(id) == Some(hitbox)
      ensures outcome.Ok? ==>
        hitboxes[id].interactivity == old(hitboxes)[id].interactivity && hitboxes[id].overlaps == old(hitboxes)[id].overlaps
      ensures outcome.Ok? ==> forall o :: o in old(hitboxes) && o != id ==> hitboxes[o] == old(hitboxes)[o]
      ensures outcome.Ok? ==> id in old(eventKeys) && Requeued(id, old(events.events), old(eventKeys)[id])
    {
      if id !in hitboxes {
        return Panic(IdNotFound);
      }
      ghost var H0 := hitboxes;
      outcome := InternalUpdate(id, Some(hitbox), None, Update);
      if outcome.Ok? {
        assert AfterPhase(H0, id, None, Update, canInteract) == H0;
        var d := SolitaryFor(id, hitbox, H0[id].interactivity.group.Some?).0;
        StoredReadsBack(H0[id], hitbox, d, time);
        OnlyEntryReplaced(H0, id, H0[id].(hitbox := hitbox.(duration := d), startTime := time, pubDuration := hitbox.duration));
      }
    }

    /**
     * `update_interactivity`: the interactivity becomes `interactivity` and
     * the overlaps are rechecked against it without any `Separate`; the
     * hitbox the user sees is unchanged.
     */
    method UpdateInteractivity(id: HitboxId, interactivity: Interactivity) returns (outcome: Outcome)
      requires Valid()
      modifies this, events, grid
      ensures outcome == Panic(IndicesExhausted) ==> events.nextEventIndex == PAIR_BASE
      ensures time == old(time)
      ensures outcome.Panic? ==> outcome.reason in {IdNotFound, IndicesExhausted}
      ensures outcome == Panic(IdNotFound) <==> id !in old(hitboxes)
      ensures outcome == Panic(IdNotFound) ==>
        hitboxes == old(hitboxes) && eventKeys == old(eventKeys) && events.events == old(events.events)
      ensures outcome.Ok? ==> Valid() && GetHitbox(id) == old(GetHitbox(id))
      ensures outcome.Ok? ==> Rechecked(old(hitboxes), hitboxes, id, interactivity, canInteract)
      ensures outcome.Ok? ==> id in old(eventKeys) && Requeued(id, old(events.events), old(eventKeys)[id])
    {
      if id !in hitboxes {
        return Panic(IdNotFound);
      }
      ghost var H0 := hitboxes;
      outcome := InternalUpdate(id, None, Some(interactivity), Update);
      if outcome.Ok? {
        AfterPhaseRechecks(H0, id, interactivity, Update, canInteract, hitboxes[id]);
      }
    }

    /** `update_hitbox_and_interactivity`: both updates in one. */
    method UpdateHitboxAndInteractivity(id: HitboxId, hitbox: Hitbox, interactivity: Interactivity)
      returns (outcome: Outcome)
      requires Valid()
      modifies this, events, grid
      ensures outcome == Panic(IndicesExhausted) ==> events.nextEventIndex == PAIR_BASE
      ensures time == old(time)
      ensures outcome == Panic(IdNotFound) <==> id !in old(hitboxes)
      ensures outcome == Panic(InvalidHitbox) <==> id in old(hitboxes) && !ValidHitbox(hitbox)
      ensures outcome.Panic? ==> outcome.reason in {IdNotFound, InvalidHitbox, IndicesExhausted}
      ensures outcome.Panic? && outcome.reason != IndicesExhausted ==>
        hitboxes == old(hitboxes) && eventKeys == old(eventKeys) && events.events == old(events.events)
      ensures outcome.Ok? ==> Valid() && GetHitbox(id) == Some(hitbox)
      ensures outcome.Ok? ==> Rechecked(old(hitboxes), hitboxes, id, interactivity, canInteract)
      ensures outcome.Ok? ==> id in old(eventKeys) && Requeued(id, old(events.events), old(eventKeys)[id])
    {
      if id !in hitboxes {
        return Panic(IdNotFound);
      }
      ghost var H0 := hitboxes;
      outcome := InternalUpdate(id, Some(hitbox), Some(interactivity), Update);
      if outcome.Ok? {
        ghost var H1 := AfterPhase(H0, id, Some(interactivity), Update, canInteract);
        StoredReadsBack(H1[id], hitbox, SolitaryFor(id, hitbox, interactivity.group.Some?).0, time);
        AfterPhaseRechecks(H0, id, interactivity, Update, canInteract, hitboxes[id]);
      }
    }
  }
}
