/** What a controller still waits to see of its own writes (utils/expectations/expectations.go).

    Times are numbers; `now` is passed in. The value-level functions say what each operation makes
    of the entries; the class does it in place. */
module Expectations {

  datatype Key = Key(namespace: string, name: string)

  datatype Expectation = Expectation(timestamp: int, create: set<Key>, delete: set<Key>)

  type Entries = map<Key, Expectation>

  function SetOf(keys: seq<Key>): set<Key> {
    set k | k in keys
  }

  function Expecting(entries: Entries, ctrl: Key, create: set<Key>, delete: set<Key>, now: int): Entries {
    entries[ctrl := Expectation(now, create, delete)]
  }

  function AfterCreation(entries: Entries, ctrl: Key, created: Key): Entries {
    if ctrl in entries then entries[ctrl := entries[ctrl].(create := entries[ctrl].create - {created})] else entries
  }

  function AfterDeletion(entries: Entries, ctrl: Key, deleted: Key): Entries {
    if ctrl in entries then entries[ctrl := entries[ctrl].(delete := entries[ctrl].delete - {deleted})] else entries
  }

  predicate TimedOut(entries: Entries, ctrl: Key, now: int, timeout: int) {
    ctrl in entries && now - entries[ctrl].timestamp > timeout
  }

  /** Nothing is pending. */
  predicate Observed(entries: Entries, ctrl: Key) {
    ctrl in entries ==> entries[ctrl].create == {} && entries[ctrl].delete == {}
  }

  predicate IsSatisfied(entries: Entries, ctrl: Key, now: int, timeout: int) {
    TimedOut(entries, ctrl, now, timeout) || Observed(entries, ctrl)
  }

  // ---- What a history of observations adds up to ----------------------------------------------

  datatype Event = Creation(ctrl: Key, key: Key) | Deletion(ctrl: Key, key: Key)

  function After(entries: Entries, events: seq<Event>): Entries {
    if events == [] then entries
    else
      var rest := After(entries, events[..|events| - 1]);
      match events[|events| - 1]
      case Creation(ctrl, key) => AfterCreation(rest, ctrl, key)
      case Deletion(ctrl, key) => AfterDeletion(rest, ctrl, key)
  }

  lemma {:induction false} PendingIs(entries: Entries, ctrl: Key, create: set<Key>, delete: set<Key>, now: int,
                                     events: seq<Event>)
    ensures var after := After(Expecting(entries, ctrl, create, delete, now), events);
            && ctrl in after
            && after[ctrl].timestamp == now
            && after[ctrl].create == (set k | k in create && Creation(ctrl, k) !in events)
            && after[ctrl].delete == (set k | k in delete && Deletion(ctrl, k) !in events)
  {
    if events != [] {
      var init, last := events[..|events| - 1], events[|events| - 1];
      PendingIs(entries, ctrl, create, delete, now, init);
      assert events == init + [last];
    }
  }

  /** After expecting some creations and deletions and any observations, in any order and of any
      controller's objects, the controller is satisfied exactly when it waited out the timeout or
      saw each of them. */
  lemma SatisfiedWhenAllSeen(entries: Entries, ctrl: Key, create: set<Key>, delete: set<Key>, since: int,
                             events: seq<Event>, now: int, timeout: int)
    ensures IsSatisfied(After(Expecting(entries, ctrl, create, delete, since), events), ctrl, now, timeout) <==>
              || now - since > timeout
              || ((forall k | k in create :: Creation(ctrl, k) in events) &&
                  (forall k | k in delete :: Deletion(ctrl, k) in events))
  {
    PendingIs(entries, ctrl, create, delete, since, events);
    var after := After(Expecting(entries, ctrl, create, delete, since), events);
    assert forall k | k in create :: k in after[ctrl].create <==> Creation(ctrl, k) !in events;
    assert forall k | k in delete :: k in after[ctrl].delete <==> Deletion(ctrl, k) !in events;
  }

  /** Observations for one controller leave the others' entries alone. */
  lemma {:induction false} OthersUntouched(entries: Entries, events: seq<Event>, other: Key)
    requires forall e | e in events :: e.ctrl != other
    ensures other in After(entries, events) <==> other in entries
    ensures other in entries ==> After(entries, events)[other] == entries[other]
  {
    if events != [] {
      var init, last := events[..|events| - 1], events[|events| - 1];
      assert events == init + [last] && last in events;
      OthersUntouched(entries, init, other);
    }
  }

  class Expectations {
    const timeout: int
    var entries: Entries

    constructor (timeout: int)
      ensures this.timeout == timeout && entries == map[]
    {
      this.timeout := timeout;
      entries := map[];
    }

    method Delete(ctrl: Key)
      modifies this
      ensures entries == old(entries) - {ctrl}
    {
      entries := entries - {ctrl};
    }

    method ExpectCreationsAndDeletions(ctrl: Key, created: seq<Key>, deleted: seq<Key>, now: int)
      modifies this
      ensures entries == Expecting(old(entries), ctrl, SetOf(created), SetOf(deleted), now)
    {
      entries := entries[ctrl := Expectation(now, SetOf(created), SetOf(deleted))];
    }

    method ExpectCreations(ctrl: Key, created: seq<Key>, now: int)
      modifies this
      ensures entries == Expecting(old(entries), ctrl, SetOf(created), {}, now)
    {
      entries := entries[ctrl := Expectation(now, SetOf(created), {})];
    }

    method ExpectDeletions(ctrl: Key, deleted: seq<Key>, now: int)
      modifies this
      ensures entries == Expecting(old(entries), ctrl, {}, SetOf(deleted), now)
    {
      entries := entries[ctrl := Expectation(now, {}, SetOf(deleted))];
    }

    method CreationObserved(ctrl: Key, created: Key)
      modifies this
      ensures entries == AfterCreation(old(entries), ctrl, created)
    {
      if ctrl !in entries {
        return;
      }
      var exp := entries[ctrl];
      entries := entries[ctrl := exp.(create := exp.create - {created})];
    }

    method DeletionObserved(ctrl: Key, deleted: Key)
      modifies this
      ensures entries == AfterDeletion(old(entries), ctrl, deleted)
    {
      if ctrl !in entries {
        return;
      }
      var exp := entries[ctrl];
      entries := entries[ctrl := exp.(delete := exp.delete - {deleted})];
    }

    method Satisfied(ctrl: Key, now: int) returns (ok: bool)
      ensures ok <==> IsSatisfied(entries, ctrl, now, timeout)
    {
      if ctrl !in entries {
        return true;
      }
      var exp := entries[ctrl];
      if now - exp.timestamp > timeout {
        return true;
      }
      if |exp.create| == 0 && |exp.delete| == 0 {
        return true;
      }
      ok := false;
    }
  }
}
