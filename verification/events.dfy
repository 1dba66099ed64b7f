/**
 * The event queue (src/core/events.rs): internal events ordered by
 * `(time, index)`, a counter handing out fresh indices, and, for each
 * hitbox, the set of keys of the queued events that involve it.  The queue
 * and those key sets mirror each other; every operation here keeps them so.
 *
 * The debug-only `PanicSmallHitbox` and `PanicDurationPassed` events are
 * included: the model follows a debug build.
 */
module Events {
  import opened Prelude
  import opened Core

  /** Indices of pair events are offset by this; solitary indices stay below it. */
  const PAIR_BASE: nat := 0x8000_0000_0000_0000

  /**
   * `EventKey`.  The library compares keys for equality (and hashes them)
   * by index alone; indices are issued once each, so within one queue two
   * keys with the same index are the same key (`UniqueIndices`), and
   * structural equality coincides with the library's.
   */
  datatype EventKey = EventKey(time: real, index: nat)

  /** `Ord for EventKey`: by time, then by index. */
  function Cmp(a: EventKey, b: EventKey): Ordering
  {
    if a.time == b.time then
      (if a.index < b.index then Less else if a.index == b.index then Equal else Greater)
    else if a.time < b.time then Less
    else Greater
  }

  predicate KeyLess(a: EventKey, b: EventKey)
  {
    Cmp(a, b) == Less
  }

  /** `Cmp` is a total order: only equal keys compare `Equal`, it flips with its arguments, and it is transitive. */
  lemma CmpIsTotalOrder(a: EventKey, b: EventKey, c: EventKey)
    ensures Cmp(a, b) == Equal <==> a == b
    ensures Cmp(a, b) == Less <==> Cmp(b, a) == Greater
    ensures KeyLess(a, b) && KeyLess(b, c) ==> KeyLess(a, c)
    ensures a != b ==> KeyLess(a, b) || KeyLess(b, a)
  {
  }

  /** A key comes first when its time is earlier, whatever the indices. */
  lemma EarlierTimeFirst(a: EventKey, b: EventKey)
    requires a.time < b.time
    ensures KeyLess(a, b) && !KeyLess(b, a)
  {
  }

  /** `OneOrTwo` from the utility module: the ids an event involves. */
  datatype OneOrTwo = One(id: HitboxId) | Two(first: HitboxId, second: HitboxId)
  {
    predicate Has(x: HitboxId)
    {
      match this
      case One(id) => id == x
      case Two(a, b) => a == x || b == x
    }

    /**
     * `OneOrTwo::other_id` (the utility module is not part of this model):
     * the partner of a member of a pair; nothing for a single id or a
     * stranger.
     */
    function OtherId(x: HitboxId): (r: Option<HitboxId>)
      ensures r.Some? <==> Two? && Has(x)
      ensures r.Some? ==> Has(r.value) && (first == x ==> r.value == second) && (first != x ==> r.value == first)
    {
      match this
      case One(_) => None
      case Two(a, b) => if a == x then Some(b) else if b == x then Some(a) else None
    }
  }

  datatype InternalEvent =
    | PanicSmallHitbox(id: HitboxId)
    | PanicDurationPassed(id: HitboxId)
    | Reiterate(id: HitboxId)
    | Collide(a: HitboxId, b: HitboxId)
    | Separate(a: HitboxId, b: HitboxId)
  {
    predicate IsPair()
    {
      Collide? || Separate?
    }

    /** `involved_hitbox_ids`: one id for the three solitary events, two for a pair. */
    function InvolvedHitboxIds(): (r: OneOrTwo)
      ensures r.One? <==> !IsPair()
      ensures r.One? ==> r.id == id
      ensures r.Two? ==> r.first == a && r.second == b
    {
      match this
      case PanicSmallHitbox(x) => One(x)
      case PanicDurationPassed(x) => One(x)
      case Reiterate(x) => One(x)
      case Collide(x, y) => Two(x, y)
      case Separate(x, y) => Two(x, y)
    }

    predicate Involves(x: HitboxId)
    {
      InvolvedHitboxIds().Has(x)
    }

    /** `InternalEvent::other_id`: a solitary event has no partner; a pair event gives the other id. */
    function OtherId(x: HitboxId): (r: Option<HitboxId>)
      ensures !IsPair() ==> r.None?
      ensures IsPair() && a == x ==> r == Some(b)
      ensures IsPair() && b == x && a != x ==> r == Some(a)
      ensures r.Some? ==> Involves(x) && Involves(r.value)
    {
      InvolvedHitboxIds().OtherId(x)
    }
  }

  /** An index below the counter, in the solitary or the pair range, has been handed out. */
  predicate Issued(index: nat, next: nat)
  {
    index < next || (PAIR_BASE <= index < PAIR_BASE + next)
  }

  /** Some key of `s` precedes all others. */
  lemma LeastExists(s: set<EventKey>)
    requires s != {}
    ensures exists m :: m in s && forall k :: k in s ==> k == m || KeyLess(m, k)
  {
    var m := LeastOf(s);
  }

  /** A key of `s` that precedes all others, found by removing one key at a time. */
  lemma {:induction false} LeastOf(s: set<EventKey>) returns (m: EventKey)
    requires s != {}
    ensures m in s && forall k :: k in s ==> k == m || KeyLess(m, k)
    decreases |s|
  {
    var x :| x in s;
    if s == {x} {
      m := x;
    } else {
      var m' := LeastOf(s - {x});
      if KeyLess(x, m') {
        m := x;
        forall k | k in s
          ensures k == x || KeyLess(x, k)
        {
          if k != x {
            CmpIsTotalOrder(x, m', k);
          }
        }
      } else {
        m := m';
        CmpIsTotalOrder(x, m', x);
      }
    }
  }

  /** The least key of a set is unique. */
  lemma LeastUnique(s: set<EventKey>, m1: EventKey, m2: EventKey)
    requires m1 in s && forall k :: k in s ==> k == m1 || KeyLess(m1, k)
    requires m2 in s && forall k :: k in s ==> k == m2 || KeyLess(m2, k)
    ensures m1 == m2
  {
  }

  /** The first key of the ordered map. */
  ghost function Earliest(s: set<EventKey>): (r: Option<EventKey>)
    ensures r.None? <==> s == {}
    ensures r.Some? ==> r.value in s && forall k :: k in s ==> k == r.value || KeyLess(r.value, k)
  {
    if s == {} then None
    else
      LeastExists(s);
      var m :| m in s && forall k :: k in s ==> k == m || KeyLess(m, k);
      Some(m)
  }

  /** `peek_time` as a value: infinite for an empty queue, else the first key's time. */
  ghost function EarliestTime(events: map<EventKey, InternalEvent>): (r: XReal)
    ensures r.PosInf? <==> events == map[]
    ensures forall k :: k in events ==> r.Le(Fin(k.time))
    ensures r.Fin? ==> exists k :: k in events && k.time == r.val
  {
    var m := Earliest(events.Keys);
    if m.None? then
      assert forall k :: k !in events.Keys;
      PosInf
    else
      Fin(m.value.time)
  }

  /** Remove key `key` from the key set of each hitbox it involves. */
  function Unlink(keys: map<HitboxId, set<EventKey>>, key: EventKey, e: InternalEvent): (r: map<HitboxId, set<EventKey>>)
    ensures r.Keys == keys.Keys
    ensures forall x :: x in keys ==> r[x] == if e.Involves(x) then keys[x] - {key} else keys[x]
  {
    map x | x in keys :: if e.Involves(x) then keys[x] - {key} else keys[x]
  }

  /** The keys among `done` whose event pairs `id` with `other`. */
  ghost function PartnerKeys(events: map<EventKey, InternalEvent>, done: set<EventKey>, id: HitboxId, other: HitboxId): set<EventKey>
  {
    set k | k in done && k in events && events[k].OtherId(id) == Some(other)
  }

  /**
   * What `next` does at `time`: when the first key is due then, its event
   * is returned and leaves the queue and the key sets; otherwise nothing
   * changes.
   */
  ghost predicate Popped(events: map<EventKey, InternalEvent>, keys: map<HitboxId, set<EventKey>>, time: real,
                         r: Option<InternalEvent>, events': map<EventKey, InternalEvent>,
                         keys': map<HitboxId, set<EventKey>>)
  {
    var m := Earliest(events.Keys);
    if m.Some? && m.value.time == time then
      r == Some(events[m.value]) && events' == events - {m.value} && keys' == Unlink(keys, m.value, events[m.value])
    else
      r.None? && events' == events && keys' == keys
  }

  /** Clearing one more key adds it to the partner keys of its other hitbox only. */
  lemma PartnerKeysStep(events: map<EventKey, InternalEvent>, done: set<EventKey>, key: EventKey, id: HitboxId)
    requires key in events
    ensures forall o: HitboxId ::
      PartnerKeys(events, done + {key}, id, o) ==
        PartnerKeys(events, done, id, o) + (if events[key].OtherId(id) == Some(o) then {key} else {})
  {
  }

  /** `EventManager`: the ordered queue and the index counter. */
  class EventManager {
    var events: map<EventKey, InternalEvent>
    var nextEventIndex: nat

    ghost predicate Valid()
      reads this
    {
      QueueValid(events, nextEventIndex)
    }

    /**
     * Every queued key lies before `HIGH_TIME` and carries an index already
     * handed out, and no two keys share an index.
     */
    static ghost predicate QueueValid(events: map<EventKey, InternalEvent>, nextEventIndex: nat)
    {
      && nextEventIndex <= PAIR_BASE
      && (forall k :: k in events ==> k.time < HIGH_TIME && Issued(k.index, nextEventIndex))
      && UniqueIndices(events)
    }

    /** Taking events out of a valid queue leaves it valid. */
    static lemma QueueValidSubset(e1: map<EventKey, InternalEvent>, e2: map<EventKey, InternalEvent>, next: nat)
      requires QueueValid(e1, next) && e2.Keys <= e1.Keys
      ensures QueueValid(e2, next)
    {
    }

    /** Within the queue, equality by index is equality. */
    static ghost predicate UniqueIndices(events: map<EventKey, InternalEvent>)
    {
      forall k1, k2 :: k1 in events && k2 in events && k1.index == k2.index ==> k1 == k2
    }

    /** `EventManager::new`: an empty queue, counting from 0. */
    constructor ()
      ensures Valid() && events == map[] && nextEventIndex == 0
    {
      events := map[];
      nextEventIndex := 0;
    }

    /**
     * `new_event_key`: no key for a time at or beyond `HIGH_TIME`; otherwise
     * the next index, offset by `PAIR_BASE` for a pair.  Running out of
     * solitary indices is the library's assertion failure, reported here
     * as `exhausted`.
     */
    method NewEventKey(time: real, forPair: bool) returns (key: Option<EventKey>, exhausted: bool)
      requires Valid()
      modifies this
      ensures events == old(events)
      ensures exhausted <==> time < HIGH_TIME && old(nextEventIndex) >= PAIR_BASE
      ensures key.Some? <==> time < HIGH_TIME && !exhausted
      ensures key.None? ==> nextEventIndex == old(nextEventIndex)
      ensures key.Some? ==> && key.value == EventKey(time, if forPair then old(nextEventIndex) + PAIR_BASE else old(nextEventIndex))
                            && nextEventIndex == old(nextEventIndex) + 1
                            && !Issued(key.value.index, old(nextEventIndex))
                            && Issued(key.value.index, nextEventIndex)
      ensures Valid()
    {
      if time >= HIGH_TIME {
        key, exhausted := None, false;
      } else if nextEventIndex >= PAIR_BASE {
        key, exhausted := None, true;
      } else {
        var index := nextEventIndex;
        nextEventIndex := nextEventIndex + 1;
        if forPair {
          index := index + PAIR_BASE;
        }
        key, exhausted := Some(EventKey(time, index)), false;
      }
    }

    /**
     * `add_solitaire_event`: queue `event` under a fresh key and record the
     * key in the hitbox's key set.  Both insertions are new (the library
     * asserts it).
     */
    method AddSolitaireEvent(time: real, event: InternalEvent, keySet: set<EventKey>)
      returns (newKeySet: set<EventKey>, exhausted: bool)
      requires Valid() && forall k :: k in keySet ==> Issued(k.index, nextEventIndex)
      modifies this
      ensures exhausted <==> time < HIGH_TIME && old(nextEventIndex) >= PAIR_BASE
      ensures exhausted ==> events == old(events) && nextEventIndex == PAIR_BASE
      ensures !exhausted ==> Valid() && forall k :: k in newKeySet ==> Issued(k.index, nextEventIndex)
      ensures !exhausted && time >= HIGH_TIME ==>
        events == old(events) && nextEventIndex == old(nextEventIndex) && newKeySet == keySet
      ensures !exhausted && time < HIGH_TIME ==>
        var key := EventKey(time, old(nextEventIndex));
        && key !in old(events) && key !in keySet
        && events == old(events)[key := event] && newKeySet == keySet + {key}
        && nextEventIndex == old(nextEventIndex) + 1
    {
      newKeySet := keySet;
      var key;
      key, exhausted := NewEventKey(time, false);
      if key.Some? {
        assert key.value !in events;
        events := events[key.value := event];
        assert key.value !in newKeySet;
        newKeySet := newKeySet + {key.value};
      }
    }

    /**
     * `add_pair_event`: queue `event` under a fresh pair key and record the
     * key in both hitboxes' key sets.
     */
    method AddPairEvent(time: real, event: InternalEvent, firstKeySet: set<EventKey>, secondKeySet: set<EventKey>)
      returns (newFirst: set<EventKey>, newSecond: set<EventKey>, exhausted: bool)
      requires Valid()
      requires forall k :: k in firstKeySet ==> Issued(k.index, nextEventIndex)
      requires forall k :: k in secondKeySet ==> Issued(k.index, nextEventIndex)
      modifies this
      ensures exhausted <==> time < HIGH_TIME && old(nextEventIndex) >= PAIR_BASE
      ensures exhausted ==> events == old(events) && nextEventIndex == PAIR_BASE
      ensures !exhausted ==> Valid()
      ensures !exhausted ==> forall k :: k in newFirst ==> Issued(k.index, nextEventIndex)
      ensures !exhausted ==> forall k :: k in newSecond ==> Issued(k.index, nextEventIndex)
      ensures !exhausted && time >= HIGH_TIME ==>
        events == old(events) && nextEventIndex == old(nextEventIndex)
        && newFirst == firstKeySet && newSecond == secondKeySet
      ensures !exhausted && time < HIGH_TIME ==>
        var key := EventKey(time, old(nextEventIndex) + PAIR_BASE);
        && key !in old(events) && key !in firstKeySet && key !in secondKeySet
        && events == old(events)[key := event]
        && newFirst == firstKeySet + {key} && newSecond == secondKeySet + {key}
        && nextEventIndex == old(nextEventIndex) + 1
    {
      newFirst, newSecond := firstKeySet, secondKeySet;
      var key;
      key, exhausted := NewEventKey(time, true);
      if key.Some? {
        assert key.value !in events;
        events := events[key.value := event];
        assert key.value !in newFirst && key.value !in newSecond;
        newFirst := newFirst + {key.value};
        newSecond := newSecond + {key.value};
      }
    }

    /**
     * `clear_related_events`: unqueue every event of `keySet` (each must be
     * queued), drop each pair event's key from the partner's key set (where
     * it must be), and empty `keySet`.
     */
    method ClearRelatedEvents(id: HitboxId, keySet: set<EventKey>, keys: map<HitboxId, set<EventKey>>)
      returns (newKeySet: set<EventKey>, newKeys: map<HitboxId, set<EventKey>>)
      requires Valid()
      requires forall k :: k in keySet ==> k in events
      requires forall k :: k in keySet && events[k].OtherId(id).Some? ==>
        events[k].OtherId(id).value in keys && k in keys[events[k].OtherId(id).value]
      modifies this
      ensures Valid() && nextEventIndex == old(nextEventIndex)
      ensures newKeySet == {}
      ensures events == old(events) - keySet
      ensures newKeys.Keys == keys.Keys
      ensures forall o :: o in keys ==> newKeys[o] == keys[o] - PartnerKeys(old(events), keySet, id, o)
    {
      newKeys, newKeySet := keys, {};
      var remaining := keySet;
      ghost var E := events;
      ghost var done: set<EventKey> := {};
      while remaining != {}
        invariant remaining <= keySet && done == keySet - remaining
        invariant nextEventIndex == old(nextEventIndex)
        invariant events == E - done
        invariant newKeys.Keys == keys.Keys
        invariant forall o :: o in keys ==> newKeys[o] == keys[o] - PartnerKeys(E, done, id, o)
        decreases remaining
      {
        var key :| key in remaining;
        var event := events[key];
        events := events - {key};
        var other := event.OtherId(id);
        ghost var prev := newKeys;
        if other.Some? {
          assert key in newKeys[other.value];
          newKeys := newKeys[other.value := newKeys[other.value] - {key}];
        }
        PartnerKeysStep(E, done, key, id);
        forall o | o in keys
          ensures newKeys[o] == keys[o] - PartnerKeys(E, done + {key}, id, o)
        {
          assert newKeys[o] == if other == Some(o) then prev[o] - {key} else prev[o];
        }
        done := done + {key};
        remaining := remaining - {key};
      }
      QueueValidSubset(E, events, nextEventIndex);
    }

    /** `peek_key`: the first key of the ordered map, if any. */
    method PeekKey() returns (r: Option<EventKey>)
      ensures r == Earliest(events.Keys)
    {
      r := None;
      var rest := events.Keys;
      while rest != {}
        invariant rest <= events.Keys
        invariant r.None? ==> rest == events.Keys
        invariant r.Some? ==> r.value in events && r.value !in rest
        invariant r.Some? ==> forall k :: k in events.Keys - rest ==> k == r.value || KeyLess(r.value, k)
        decreases rest
      {
        var k :| k in rest;
        if r.None? || KeyLess(k, r.value) {
          if r.Some? {
            forall k' | k' in events.Keys - rest
              ensures k' == k || KeyLess(k, k')
            {
              CmpIsTotalOrder(k, r.value, k');
            }
          }
          r := Some(k);
        } else {
          CmpIsTotalOrder(k, r.value, k);
        }
        rest := rest - {k};
      }
      if r.Some? {
        LeastUnique(events.Keys, r.value, Earliest(events.Keys).value);
      }
    }

    /** `peek_time`: infinite when nothing is queued, else the first key's time. */
    method PeekTime() returns (r: XReal)
      ensures r == EarliestTime(events)
    {
      var key := PeekKey();
      r := if key.Some? then Fin(key.value.time) else PosInf;
    }

    /**
     * `next`: when the first key's time is exactly `time`, unqueue its event,
     * drop the key from each involved hitbox's key set (where it must be) and
     * return the event; otherwise change nothing.
     */
    method Next(time: real, keys: map<HitboxId, set<EventKey>>)
      returns (r: Option<InternalEvent>, newKeys: map<HitboxId, set<EventKey>>)
      requires Valid()
      requires forall k, x :: k in events && events[k].Involves(x) ==> x in keys && k in keys[x]
      requires forall k :: k in events && events[k].IsPair() ==> events[k].a != events[k].b
      modifies this
      ensures Valid() && nextEventIndex == old(nextEventIndex)
      ensures Popped(old(events), keys, time, r, events, newKeys)
    {
      var key := PeekKey();
      if key.Some? && key.value.time == time {
        var k := key.value;
        var event := events[k];
        events := events - {k};
        newKeys := keys;
        match event.InvolvedHitboxIds() {
          case One(x) =>
            assert event.Involves(x);
            assert k in newKeys[x];
            newKeys := newKeys[x := newKeys[x] - {k}];
          case Two(x, y) =>
            assert event.Involves(x) && event.Involves(y) && x != y;
            assert k in newKeys[x];
            newKeys := newKeys[x := newKeys[x] - {k}];
            assert k in newKeys[y];
            newKeys := newKeys[y := newKeys[y] - {k}];
        }
        assert newKeys == Unlink(keys, k, event);
        r := Some(event);
      } else {
        r, newKeys := None, keys;
      }
    }
  }
}
