/** The API server as clients with stale copies see it: every write gives the object a new resource
    version, a patch with a version is refused unless it is the current one, and what a client has
    read is some state the object was once in. */
module VersionedStore {

  datatype Object<T> = Object(name: string, version: nat, value: T)

  /** server: the objects now; seen: every state any object ever had; next: the next version. */
  datatype Store<T(==)> = Store(server: map<string, Object<T>>, seen: set<Object<T>>, next: nat)

  datatype Outcome = Done | Conflict | NotFound

  function Written<T(==)>(s: Store<T>, name: string, value: T): Store<T> {
    var o := Object(name, s.next, value);
    Store(s.server[name := o], s.seen + {o}, s.next + 1)
  }

  function Deleted<T(==)>(s: Store<T>, name: string): Store<T> {
    s.(server := s.server - {name})
  }

  /** What a patch made from a copy comes to. */
  function PatchOutcome<T(==)>(s: Store<T>, copy: Object<T>): Outcome {
    if copy.name !in s.server then NotFound
    else if s.server[copy.name].version != copy.version then Conflict
    else Done
  }

  function Patched<T(==)>(s: Store<T>, copy: Object<T>, value: T): Store<T> {
    if PatchOutcome(s, copy) == Done then Written(s, copy.name, value) else s
  }

  ghost predicate Inv<T(!new)>(s: Store<T>) {
    && (forall n | n in s.server :: s.server[n].name == n && s.server[n] in s.seen)
    && (forall o | o in s.seen :: o.version < s.next)
    && (forall a, b | a in s.seen && b in s.seen && a.version == b.version :: a == b)
  }

  lemma WritesKeepInv<T(!new)>(s: Store<T>, name: string, value: T)
    requires Inv(s)
    ensures Inv(Written(s, name, value)) && Inv(Deleted(s, name))
  {
  }

  /** Optimistic locking: a patch goes through exactly when the copy it was made from, however old,
      is still what the server has. */
  lemma DoneMeansCurrent<T(!new)>(s: Store<T>, copy: Object<T>)
    requires Inv(s) && copy in s.seen
    ensures PatchOutcome(s, copy) == Done <==> copy.name in s.server && s.server[copy.name] == copy
  {
  }
}
