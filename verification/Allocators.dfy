/** Allocating the addresses of an object as a transaction (internal/registry/ipallocator/allocators.go)
    over the pool the allocators share. */
module Allocators {
  import opened Wrappers
  import opened Api
  import opened Sequences

  type Addr = string

  datatype Request = Request(family: Family, addr: Option<Addr>)

  /** The addresses there are and who claims them; an ephemeral one goes with its claim. */
  datatype Pool = Pool(claims: map<Addr, Option<UID>>, ephemeral: set<Addr>)

  datatype Error = NoAllocator | ErrAllocated | ErrNotFound | ErrCreate

  function Claims(p: Pool, u: UID): set<Addr> {
    set a | a in p.claims && p.claims[a] == Some(u)
  }

  function AddrSet(addrs: seq<Addr>): set<Addr> {
    set a | a in addrs
  }

  // ---- The allocators --------------------------------------------------------------------------

  /** Claiming an address that is free or the claimer's own. */
  function Allocate(p: Pool, u: UID, a: Addr): Result<Pool, Error> {
    if a !in p.claims then Err(ErrNotFound)
    else if p.claims[a] !in {None, Some(u)} then Err(ErrAllocated)
    else Ok(p.(claims := p.claims[a := Some(u)]))
  }

  /** Creating an ephemeral address; which one, or that it fails, is up to the server. */
  function AllocateNext(p: Pool, u: UID, created: Option<Addr>): Result<Pool, Error> {
    if created.None? then Err(ErrCreate)
    else Ok(Pool(p.claims[created.value := Some(u)], p.ephemeral + {created.value}))
  }

  function Release(p: Pool, u: UID, a: Addr): Pool {
    if a !in p.claims || p.claims[a] != Some(u) then p
    else if a in p.ephemeral then Pool(p.claims - {a}, p.ephemeral - {a})
    else p.(claims := p.claims[a := None])
  }

  /** The pool after u took some addresses, the created ones new. */
  function Taken(p: Pool, u: UID, taken: set<Addr>, created: set<Addr>): Pool {
    Pool(map a | a in p.claims.Keys + created ::
         if a in taken || a !in p.claims then Some(u) else p.claims[a], p.ephemeral + created)
  }

  /** The pool after u let go of those of the addresses it had. */
  function Released(p: Pool, u: UID, addrs: set<Addr>): Pool {
    Pool(map a | a in p.claims && !(a in addrs && p.claims[a] == Some(u) && a in p.ephemeral)
           :: if a in addrs && p.claims[a] == Some(u) then None else p.claims[a],
         p.ephemeral - (addrs * Claims(p, u)))
  }

  lemma ReleaseOneMore(p: Pool, u: UID, addrs: set<Addr>, a: Addr)
    ensures Release(Released(p, u, addrs), u, a) == Released(p, u, addrs + {a})
  {
    var q, r := Release(Released(p, u, addrs), u, a), Released(p, u, addrs + {a});
    assert forall x :: x in q.claims <==> x in r.claims;
    assert q.claims == r.claims;
    assert forall x :: x in q.ephemeral <==> x in r.ephemeral;
  }

  lemma ReleaseNone(p: Pool, u: UID)
    ensures Released(p, u, {}) == p
  {
    assert Released(p, u, {}).claims == p.claims;
  }

  /** releaseIPs, in any order. */
  method ReleaseIPs(p: Pool, u: UID, ips: seq<Addr>) returns (after: Pool)
    ensures after == Released(p, u, AddrSet(ips))
  {
    hide Released;
    after := p;
    ReleaseNone(p, u);
    assert AddrSet(ips[..0]) == {};
    for i := 0 to |ips|
      invariant after == Released(p, u, AddrSet(ips[..i]))
    {
      ReleaseOneMore(p, u, AddrSet(ips[..i]), ips[i]);
      assert ips[..i + 1] == ips[..i] + [ips[i]];
      assert AddrSet(ips[..i + 1]) == AddrSet(ips[..i]) + {ips[i]};
      after := Release(after, u, ips[i]);
    }
    assert ips[..|ips|] == ips;
  }

  /** What the server creates is new to the pool, one address each time. */
  ghost predicate Creatable(p: Pool, created: seq<Option<Addr>>) {
    && (forall i | 0 <= i < |created| && created[i].Some? :: created[i].value !in p.claims)
    && (forall i, j | 0 <= i < j < |created| && created[i].Some? :: created[i] != created[j])
  }

  /** The address a request comes out with, if it succeeds. */
  function Wish(req: Request, created: Option<Addr>): Option<Addr> {
    if req.addr.Some? then req.addr else created
  }

  function CreatedFor(reqs: seq<Request>, created: seq<Option<Addr>>): set<Addr>
    requires |reqs| <= |created|
  {
    set i | 0 <= i < |reqs| && reqs[i].addr.None? && created[i].Some? :: created[i].value
  }

  /** The i-th request succeeds: its address exists, or is created by an earlier one, and is free or
      the claimer's; or the server creates one. */
  ghost predicate Grantable(p: Pool, u: UID, reqs: seq<Request>, created: seq<Option<Addr>>, i: int)
    requires 0 <= i < |reqs| <= |created|
  {
    match reqs[i].addr
    case Some(a) => (a in p.claims && p.claims[a] in {None, Some(u)}) || a in CreatedFor(reqs[..i], created)
    case None => created[i].Some?
  }

  /** What an allocation makes of the pool: addrs are u's, those of them that were
      there were free or u's before. */
  ghost predicate Took(p: Pool, u: UID, addrs: set<Addr>, created: set<Addr>, after: Pool) {
    && after == Taken(p, u, addrs, created)
    && created <= addrs <= p.claims.Keys + created && created !! p.claims.Keys
    && forall a | a in addrs && a in p.claims :: p.claims[a] in {None, Some(u)}
  }

  /** The requests are granted up to the first one that cannot be. */
  ghost predicate Granted(p: Pool, u: UID, reqs: seq<Request>, created: seq<Option<Addr>>, addrs: seq<Addr>,
                          after: Pool)
    requires |reqs| <= |created|
  {
    && |addrs| <= |reqs| && (|addrs| < |reqs| ==> !Grantable(p, u, reqs, created, |addrs|))
    && (forall i | 0 <= i < |addrs| :: Some(addrs[i]) == Wish(reqs[i], created[i]) && Grantable(p, u, reqs, created, i))
    && Took(p, u, AddrSet(addrs), CreatedFor(reqs[..|addrs|], created), after)
  }

  lemma GrantedIsTaken(p: Pool, u: UID, reqs: seq<Request>, created: seq<Option<Addr>>, addrs: seq<Addr>)
    requires |addrs| <= |reqs| <= |created| && Creatable(p, created)
    requires forall i | 0 <= i < |addrs| ::
              Some(addrs[i]) == Wish(reqs[i], created[i]) && Grantable(p, u, reqs, created, i)
    ensures var made := CreatedFor(reqs[..|addrs|], created);
              Took(p, u, AddrSet(addrs), made, Taken(p, u, AddrSet(addrs), made))
  {
    var done := reqs[..|addrs|];
    assert forall i | 0 <= i < |addrs| :: done[i] == reqs[i] && done[..i] == reqs[..i];
    forall a | a in CreatedFor(done, created) ensures a in AddrSet(addrs) {
      var i :| 0 <= i < |done| && done[i].addr.None? && created[i].Some? && created[i].value == a;
      assert addrs[i] == a;
    }
    forall i | 0 <= i < |addrs|
      ensures addrs[i] in p.claims.Keys + CreatedFor(done, created) &&
        (addrs[i] in p.claims ==> p.claims[addrs[i]] in {None, Some(u)}) {
      assert Grantable(p, u, reqs, created, i);
      assert forall a | a in CreatedFor(done[..i], created) :: a in CreatedFor(done, created);
    }
  }

  /** allocateIPs: what was allocated before the first failure stays so. */
  method AllocateIPs(p: Pool, u: UID, reqs: seq<Request>, created: seq<Option<Addr>>)
    returns (after: Pool, addrs: seq<Addr>, err: Option<Error>)
    requires |reqs| <= |created| && Creatable(p, created)
    ensures Granted(p, u, reqs, created, addrs, after) && (err.None? <==> |addrs| == |reqs|)
  {
    hide Taken, CreatedFor, Allocate, AllocateNext, Took;
    after, addrs, err := p, [], None;
    TakeNothing(p, u, reqs, created);
    for i := 0 to |reqs|
      invariant |addrs| == i && err.None?
      invariant forall k | 0 <= k < i ::
                Some(addrs[k]) == Wish(reqs[k], created[k]) && Grantable(p, u, reqs, created, k)
      invariant forall a | a in AddrSet(addrs) && a in p.claims :: p.claims[a] in {None, Some(u)}
      invariant after == Taken(p, u, AddrSet(addrs), CreatedFor(reqs[..i], created))
    {
      var addr := "";
      var result;
      if reqs[i].addr.Some? {
        addr := reqs[i].addr.value;
        result := Allocate(after, u, addr);
        AllocateMeans(p, u, AddrSet(addrs), CreatedFor(reqs[..i], created), addr);
        CreatedIsNew(p, reqs[..i], created);
      } else {
        result := AllocateNext(after, u, created[i]);
        AllocateNextMeans(p, u, AddrSet(addrs), CreatedFor(reqs[..i], created), created[i]);
        if created[i].Some? {
          addr := created[i].value;
        }
      }
      if result.Err? {
        GrantedIsTaken(p, u, reqs, created, addrs);
        return after, addrs, Some(result.error);
      }
      assert AddrSet(addrs + [addr]) == AddrSet(addrs) + {addr};
      CreatedForMore(reqs, created, i);
      after := result.value;
      addrs := addrs + [addr];
    }
    GrantedIsTaken(p, u, reqs, created, addrs);
  }

  lemma TakeNothing(p: Pool, u: UID, reqs: seq<Request>, created: seq<Option<Addr>>)
    requires |reqs| <= |created|
    ensures p == Taken(p, u, AddrSet([]), CreatedFor(reqs[..0], created))
  {
    assert CreatedFor(reqs[..0], created) == {} && AddrSet([]) == {};
    assert Taken(p, u, {}, {}).claims == p.claims;
  }

  lemma AllocateMeans(p: Pool, u: UID, taken: set<Addr>, created: set<Addr>, a: Addr)
    requires forall t | t in taken && t in p.claims :: p.claims[t] in {None, Some(u)}
    ensures Allocate(Taken(p, u, taken, created), u, a).Ok? <==>
              (a in p.claims && p.claims[a] in {None, Some(u)}) || (a in created && a !in p.claims)
    ensures Allocate(Taken(p, u, taken, created), u, a).Ok? ==>
              Allocate(Taken(p, u, taken, created), u, a).value == Taken(p, u, taken + {a}, created)
  {
    var q := Taken(p, u, taken, created);
    if Allocate(q, u, a).Ok? {
      assert q.claims[a := Some(u)] == Taken(p, u, taken + {a}, created).claims;
    }
  }

  lemma AllocateNextMeans(p: Pool, u: UID, taken: set<Addr>, created: set<Addr>, c: Option<Addr>)
    requires c.Some? ==> c.value !in p.claims
    ensures AllocateNext(Taken(p, u, taken, created), u, c).Ok? <==> c.Some?
    ensures c.Some? ==>
              AllocateNext(Taken(p, u, taken, created), u, c).value ==
              Taken(p, u, taken + {c.value}, created + {c.value})
  {
    if c.Some? {
      var q, r := AllocateNext(Taken(p, u, taken, created), u, c).value,
          Taken(p, u, taken + {c.value}, created + {c.value});
      assert q.claims == r.claims;
      assert q.ephemeral == r.ephemeral;
    }
  }

  lemma CreatedForMore(reqs: seq<Request>, created: seq<Option<Addr>>, i: nat)
    requires i < |reqs| <= |created|
    ensures reqs[i].addr.Some? || created[i].None? ==>
              CreatedFor(reqs[..i + 1], created) == CreatedFor(reqs[..i], created)
    ensures reqs[i].addr.None? && created[i].Some? ==>
              CreatedFor(reqs[..i + 1], created) == CreatedFor(reqs[..i], created) + {created[i].value}
  {
    assert reqs[..i + 1][i] == reqs[i];
    assert forall k | 0 <= k < i :: reqs[..i + 1][k] == reqs[..i][k];
    if reqs[i].addr.None? && created[i].Some? {
      assert created[i].value in CreatedFor(reqs[..i + 1], created);
    }
  }

  lemma CreatedIsNew(p: Pool, reqs: seq<Request>, created: seq<Option<Addr>>)
    requires |reqs| <= |created| && Creatable(p, created)
    ensures forall a | a in CreatedFor(reqs, created) :: a !in p.claims
  {
  }

  // ---- Transactions ----------------------------------------------------------------------------

  /** The families requests are made for; validation lets no other through. */
  ghost predicate Familiar(reqs: seq<Request>) {
    forall r | r in reqs :: r.family in {IPv4, IPv6}
  }

  /** allocatorsForRequestIterator: stops at the second family, there being no third. */
  method AllocatorsFor(supported: set<Family>, reqs: seq<Request>) returns (ok: bool)
    requires Familiar(reqs)
    ensures ok <==> forall r | r in reqs :: r.family in supported
  {
    var allocs: set<Family> := {};
    for i := 0 to |reqs|
      invariant allocs <= {IPv4, IPv6} * supported && forall r | r in reqs[..i] :: r.family in allocs
    {
      assert reqs[i] in reqs && reqs[..i + 1] == reqs[..i] + [reqs[i]];
      if reqs[i].family !in supported {
        return false;
      }
      allocs := allocs + {reqs[i].family};
      if allocs == {IPv4, IPv6} {
        return true;
      }
    }
    assert reqs[..|reqs|] == reqs;
    ok := true;
  }

  function Addrs(ips: seq<Option<Addr>>): set<Addr> {
    set i | 0 <= i < |ips| && ips[i].Some? :: ips[i].value
  }

  ghost predicate ValidPool(p: Pool) {
    forall a | a in p.ephemeral :: a in p.claims && p.claims[a].Some?
  }

  /** The i-th request can be granted: the address requested is there, free or the claimer's own, or an
      earlier request without an address will have created it; without an address, the server has to
      create one. */
  lemma GrantableMeans(p: Pool, u: UID, reqs: seq<Request>, created: seq<Option<Addr>>, i: nat)
    requires i < |reqs| <= |created|
    ensures Grantable(p, u, reqs, created, i) <==>
              match reqs[i].addr
              case Some(a) =>
                || (a in p.claims && (p.claims[a].None? || p.claims[a].value == u))
                || (exists j :: 0 <= j < i && reqs[j].addr.None? && created[j] == Some(a))
              case None => created[i].Some?
  {
    if reqs[i].addr.Some? {
      var a := reqs[i].addr.value;
      assert forall j | 0 <= j < i :: reqs[..i][j] == reqs[j];
      if j :| 0 <= j < i && reqs[j].addr.None? && created[j] == Some(a) {
        assert reqs[..i][j].addr.None?;
      }
    }
  }

  /** What an allocation leaves, finished or not: each request up to the first that could not be granted
      has its address, now the claimer's, and no other claim changed. */
  lemma GrantedMeans(p: Pool, u: UID, reqs: seq<Request>, created: seq<Option<Addr>>, addrs: seq<Addr>, after: Pool)
    requires |reqs| <= |created| && Granted(p, u, reqs, created, addrs, after)
    ensures |addrs| <= |reqs| && (|addrs| < |reqs| ==> !Grantable(p, u, reqs, created, |addrs|))
    ensures forall i | 0 <= i < |addrs| ::
              && Grantable(p, u, reqs, created, i)
              && (reqs[i].addr.Some? ==> addrs[i] == reqs[i].addr.value)
              && (reqs[i].addr.None? ==> created[i] == Some(addrs[i]))
    ensures forall a :: a in after.claims <==> a in p.claims || a in addrs
    ensures forall a | a in after.claims :: after.claims[a] == if a in addrs then Some(u) else p.claims[a]
  {
    hide Grantable;
    assert forall a :: a in AddrSet(addrs) <==> a in addrs;
  }

  /** AllocateCreate: on success each position has its address; a failure half way undoes nothing. */
  method AllocateCreate(supported: set<Family>, p: Pool, u: UID, reqs: seq<Request>, created: seq<Option<Addr>>)
    returns (after: Pool, addrs: seq<Addr>, ips: seq<Option<Addr>>, ok: bool)
    requires Familiar(reqs) && |created| == |reqs| && Creatable(p, created)
    ensures ok <==>
              && (forall r | r in reqs :: r.family in supported)
              && forall i | 0 <= i < |reqs| :: Grantable(p, u, reqs, created, i)
    ensures Granted(p, u, reqs, created, addrs, after) ||
              (addrs == [] && after == p && exists r :: r in reqs && r.family !in supported)
    ensures ok ==> |ips| == |addrs| == |reqs| && forall i | 0 <= i < |reqs| :: ips[i] == Some(addrs[i])
  {
    hide Took, Taken, CreatedFor, Creatable, Grantable;
    after, addrs, ips := p, [], seq(|reqs|, i requires 0 <= i < |reqs| => reqs[i].addr);
    ok := AllocatorsFor(supported, reqs);
    if !ok {
      return;
    }
    var err;
    after, addrs, err := AllocateIPs(p, u, reqs, created);
    if err.Some? {
      ok := false;
      return;
    }
    for i := 0 to |addrs|
      invariant |ips| == |reqs| && forall k | 0 <= k < i :: ips[k] == Some(addrs[k])
    {
      ips := ips[i := Some(addrs[i])];
    }
  }

  /** Reverting a create gives back exactly what it took, and so restores the pool, exactly when none
      of the addresses had been the claimer's before: those are lost. */
  lemma RevertedCreate(p: Pool, u: UID, addrs: set<Addr>, created: set<Addr>, after: Pool)
    requires ValidPool(p) && Took(p, u, addrs, created, after)
    ensures Claims(Released(after, u, addrs), u) == Claims(p, u) - addrs
    ensures Released(after, u, addrs) == p <==> addrs !! Claims(p, u)
  {
    var r := Released(after, u, addrs);
    assert forall a :: a in Claims(r, u) <==> a in Claims(p, u) - addrs;
    if addrs !! Claims(p, u) {
      forall a | a in p.claims ensures a in r.claims && r.claims[a] == p.claims[a] {
        assert a in addrs ==> a !in Claims(p, u) && p.claims[a] == None;
      }
      assert r.claims == p.claims;
      assert r.ephemeral == p.ephemeral;
    }
    if r == p {
      assert Claims(p, u) == Claims(p, u) - addrs;
    }
  }

  // ---- Updates ---------------------------------------------------------------------------------

  function Requested(reqs: seq<Request>): set<Option<Addr>> {
    set r | r in reqs :: r.addr
  }

  /** The first request for an address the object already had keeps it. */
  ghost predicate KeptAt(oldReqs: seq<Request>, newReqs: seq<Request>, i: int)
    requires 0 <= i < |newReqs|
  {
    newReqs[i].addr in Requested(oldReqs) && forall j | 0 <= j < i :: newReqs[j].addr != newReqs[i].addr
  }

  /** The other ones among the first n, in order: those to be allocated. */
  ghost function Wanted(oldReqs: seq<Request>, newReqs: seq<Request>, n: nat): (r: seq<Request>)
    requires n <= |newReqs|
    ensures |r| <= n
  {
    if n == 0 then [] else
      Wanted(oldReqs, newReqs, n - 1) + if KeptAt(oldReqs, newReqs, n - 1) then [] else [newReqs[n - 1]]
  }

  lemma {:induction false} WantedIsJoined(oldReqs: seq<Request>, newReqs: seq<Request>, n: nat)
    requires n <= |newReqs|
    ensures Wanted(oldReqs, newReqs, n) ==
              Joined(seq(n, i requires 0 <= i < n => if KeptAt(oldReqs, newReqs, i) then [] else [newReqs[i]]))
  {
    hide KeptAt;
    var parts := seq(n, i requires 0 <= i < n => if KeptAt(oldReqs, newReqs, i) then [] else [newReqs[i]]);
    if n > 0 {
      WantedIsJoined(oldReqs, newReqs, n - 1);
      assert parts[..n - 1] ==
             seq(n - 1, i requires 0 <= i < n - 1 => if KeptAt(oldReqs, newReqs, i) then [] else [newReqs[i]]);
    }
  }

  /** What is to be allocated are, in order, the requests but for the first one for each address the
      object already had. */
  lemma WantedAre(oldReqs: seq<Request>, newReqs: seq<Request>, n: nat) returns (at: seq<nat>)
    requires n <= |newReqs|
    ensures |at| == |Wanted(oldReqs, newReqs, n)|
    ensures forall s, t | 0 <= s < t < |at| :: at[s] < at[t]
    ensures forall i: nat :: i in at <==>
              i < n && !((exists o :: o in oldReqs && o.addr == newReqs[i].addr)
                         && forall j | 0 <= j < i :: newReqs[j].addr != newReqs[i].addr)
    ensures forall t | 0 <= t < |at| :: at[t] < n && Wanted(oldReqs, newReqs, n)[t] == newReqs[at[t]]
  {
    hide KeptAt, Wanted, Joined;
    var parts := seq(n, i requires 0 <= i < n => if KeptAt(oldReqs, newReqs, i) then [] else [newReqs[i]]);
    WantedIsJoined(oldReqs, newReqs, n);
    at := PlacesOf(parts);
    forall i: nat | i < n
      ensures parts[i] == if KeptAt(oldReqs, newReqs, i) then [] else [newReqs[i]]
      ensures KeptAt(oldReqs, newReqs, i) <==>
                && (exists o :: o in oldReqs && o.addr == newReqs[i].addr)
                && forall j | 0 <= j < i :: newReqs[j].addr != newReqs[i].addr
    {
      KeptAtMeans(oldReqs, newReqs, i);
    }
  }

  lemma KeptAtMeans(oldReqs: seq<Request>, newReqs: seq<Request>, i: nat)
    requires i < |newReqs|
    ensures KeptAt(oldReqs, newReqs, i) <==>
              && (exists o :: o in oldReqs && o.addr == newReqs[i].addr)
              && forall j | 0 <= j < i :: newReqs[j].addr != newReqs[i].addr
  {
  }

  /** Which addresses go, and the place in what is allocated of each position that is not kept; `from`
      is the other way round. */
  datatype Division = Division(toRelease: set<Option<Addr>>, toAllocate: seq<Request>, index: map<nat, nat>,
                               from: seq<nat>)

  ghost predicate Divided(oldReqs: seq<Request>, newReqs: seq<Request>, n: nat, d: Division)
    requires n <= |newReqs|
  {
    && d.toRelease == Requested(oldReqs) - Requested(newReqs[..n])
    && d.toAllocate == Wanted(oldReqs, newReqs, n)
    && (forall i: nat :: i in d.index <==> i < n && !KeptAt(oldReqs, newReqs, i))
    && (forall i | i in d.index :: d.index[i] < |d.toAllocate| && d.toAllocate[d.index[i]] == newReqs[i])
    && |d.from| == |d.toAllocate| && (forall t | 0 <= t < |d.from| :: d.from[t] in d.index && d.index[d.from[t]] == t)
  }

  method Divide(oldReqs: seq<Request>, newReqs: seq<Request>)
    returns (toRelease: set<Option<Addr>>, toAllocate: seq<Request>, index: map<nat, nat>)
    ensures exists from :: Divided(oldReqs, newReqs, |newReqs|, Division(toRelease, toAllocate, index, from))
  {
    hide Requested;
    toRelease, toAllocate, index := Requested(oldReqs), [], map[];
    ghost var from: seq<nat> := [];
    assert Requested(newReqs[..0]) == {} by { RequestedMore(newReqs, 0); }
    for i := 0 to |newReqs|
      invariant Divided(oldReqs, newReqs, i, Division(toRelease, toAllocate, index, from))
    {
      RequestedMore(newReqs, i);
      if newReqs[i].addr in toRelease {
        toRelease := toRelease - {newReqs[i].addr};
      } else {
        index := index[i := |toAllocate|];
        toAllocate := toAllocate + [newReqs[i]];
        from := from + [i];
      }
    }
  }

  lemma RequestedMore(reqs: seq<Request>, n: nat)
    requires n <= |reqs|
    ensures n == 0 ==> Requested(reqs[..0]) == {}
    ensures n < |reqs| ==> Requested(reqs[..n + 1]) == Requested(reqs[..n]) + {reqs[n].addr}
    ensures forall a :: a in Requested(reqs[..n]) <==> exists j :: 0 <= j < n && reqs[j].addr == a
  {
    if n < |reqs| {
      assert reqs[..n + 1] == reqs[..n] + [reqs[n]];
      assert reqs[n] in reqs[..n + 1];
    }
    forall j | 0 <= j < n ensures reqs[j].addr in Requested(reqs[..n]) {
      assert reqs[j] in reqs[..n];
    }
  }

  /** A successful update of an object: its division, what was allocated, and the addresses of its
      positions afterwards. */
  datatype Update = Update(oldReqs: seq<Request>, newReqs: seq<Request>, division: Division, addrs: seq<Addr>,
                           ips: seq<Option<Addr>>)

  ghost predicate Updated(x: Update) {
    var d := x.division;
    && Divided(x.oldReqs, x.newReqs, |x.newReqs|, d)
    && |x.addrs| == |d.toAllocate| && |x.ips| == |x.newReqs|
    && (forall i | 0 <= i < |x.ips| && i !in d.index :: x.ips[i] == x.newReqs[i].addr)
    && (forall i | 0 <= i < |x.ips| && i in d.index :: x.ips[i] == Some(x.addrs[d.index[i]]))
    && (forall t | 0 <= t < |d.toAllocate| && d.toAllocate[t].addr.Some? :: x.addrs[t] == d.toAllocate[t].addr.value)
  }

  /** AllocateUpdate succeeded with these addresses and those to be released. */
  ghost predicate UpdateTook(p: Pool, u: UID, oldReqs: seq<Request>, newReqs: seq<Request>, created: seq<Option<Addr>>,
                             after: Pool, ips: seq<Option<Addr>>, toRelease: set<Option<Addr>>)
    requires |newReqs| <= |created|
  {
    var wanted := Wanted(oldReqs, newReqs, |newReqs|);
    exists x: Update ::
      && Updated(x) && x.oldReqs == oldReqs && x.newReqs == newReqs && x.ips == ips && x.division.toRelease == toRelease
      && |x.addrs| == |wanted| && Granted(p, u, wanted, created, x.addrs, after)
  }

  /** What a failed update leaves behind: the requests before the first that could not be granted
      stay allocated. */
  ghost predicate UpdateLeft(p: Pool, u: UID, oldReqs: seq<Request>, newReqs: seq<Request>, created: seq<Option<Addr>>,
                             after: Pool)
    requires |newReqs| <= |created|
  {
    exists addrs :: Granted(p, u, Wanted(oldReqs, newReqs, |newReqs|), created, addrs, after)
  }

  /** AllocateUpdate, up to the commit. */
  method AllocateUpdate(supported: set<Family>, p: Pool, u: UID, oldReqs: seq<Request>, newReqs: seq<Request>,
                        created: seq<Option<Addr>>)
    returns (after: Pool, ips: seq<Option<Addr>>, toRelease: set<Option<Addr>>, ok: bool)
    requires Familiar(oldReqs) && Familiar(newReqs) && |created| == |newReqs| && Creatable(p, created)
    ensures var wanted := Wanted(oldReqs, newReqs, |newReqs|);
            ok <==>
              && (forall r | r in oldReqs + newReqs :: r.family in supported)
              && forall t | 0 <= t < |wanted| :: Grantable(p, u, wanted, created, t)
    ensures ok ==> UpdateTook(p, u, oldReqs, newReqs, created, after, ips, toRelease)
    ensures !ok ==> after == p || UpdateLeft(p, u, oldReqs, newReqs, created, after)
  {
    hide Took, Taken, CreatedFor, Grantable, Requested, AddrSet, KeptAt, UpdateTook, Wish, Wanted;
    after, ips, toRelease := p, [], {};
    ok := AllocatorsFor(supported, oldReqs + newReqs);
    if !ok {
      return;
    }
    var wanted, places;
    toRelease, wanted, places := Divide(oldReqs, newReqs);
    ghost var from :| Divided(oldReqs, newReqs, |newReqs|, Division(toRelease, wanted, places, from));
    var taken, err;
    after, taken, err := AllocateIPs(p, u, wanted, created);
    if err.Some? {
      ok := false;
      return;
    }
    ips := SetIPs(newReqs, places, taken);
    Takes(p, u, Update(oldReqs, newReqs, Division(toRelease, wanted, places, from), taken, ips), created, after);
  }

  /** SetIP for the positions that were allocated, in any order. */
  method SetIPs(reqs: seq<Request>, index: map<nat, nat>, addrs: seq<Addr>) returns (ips: seq<Option<Addr>>)
    requires forall i | i in index :: i < |reqs| && index[i] < |addrs|
    ensures |ips| == |reqs|
    ensures forall i | 0 <= i < |ips| :: ips[i] == if i in index then Some(addrs[index[i]]) else reqs[i].addr
  {
    ips := seq(|reqs|, i requires 0 <= i < |reqs| => reqs[i].addr);
    var rest := index.Keys;
    while rest != {}
      invariant rest <= index.Keys && |ips| == |reqs|
      invariant forall i | 0 <= i < |ips| ::
                ips[i] == if i in index && i !in rest then Some(addrs[index[i]]) else reqs[i].addr
    {
      var idx :| idx in rest;
      rest := rest - {idx};
      ips := ips[idx := Some(addrs[index[idx]])];
    }
  }

  lemma Takes(p: Pool, u: UID, x: Update, created: seq<Option<Addr>>, after: Pool)
    requires Divided(x.oldReqs, x.newReqs, |x.newReqs|, x.division) && |x.newReqs| <= |created|
    requires |x.ips| == |x.newReqs| && |x.addrs| == |x.division.toAllocate|
    requires forall i | 0 <= i < |x.ips| ::
              x.ips[i] == if i in x.division.index then Some(x.addrs[x.division.index[i]]) else x.newReqs[i].addr
    requires Granted(p, u, x.division.toAllocate, created, x.addrs, after)
    ensures UpdateTook(p, u, x.oldReqs, x.newReqs, created, after, x.ips, x.division.toRelease)
  {
    hide Took, AddrSet, CreatedFor, Grantable, Wanted, Requested, KeptAt;
    assert Updated(x);
  }

  function Somes(addrs: set<Option<Addr>>): set<Addr> {
    set a | a in addrs && a.Some? :: a.value
  }

  /** Commit, and Revert, of an update: both release the same. The addresses are set: there is no
      allocator to release an unset one. */
  method Finish(p: Pool, u: UID, toRelease: set<Option<Addr>>) returns (after: Pool)
    requires forall a | a in toRelease :: a.Some?
    ensures after == Released(p, u, Somes(toRelease))
  {
    var rest := toRelease;
    var ips: seq<Addr> := [];
    while rest != {}
      invariant rest <= toRelease && AddrSet(ips) == Somes(toRelease - rest)
    {
      var a :| a in rest;
      assert toRelease - (rest - {a}) == (toRelease - rest) + {a};
      rest := rest - {a};
      assert AddrSet(ips + [a.value]) == AddrSet(ips) + {a.value};
      ips := ips + [a.value];
    }
    assert toRelease - rest == toRelease;
    after := ReleaseIPs(p, u, ips);
  }

  lemma ClaimsAfter(p: Pool, u: UID, addrs: set<Addr>, created: set<Addr>, after: Pool, gone: set<Addr>)
    requires Took(p, u, addrs, created, after)
    ensures Claims(Released(after, u, gone), u) == Claims(p, u) + addrs - gone
    ensures forall v | v != u :: Claims(Released(after, u, gone), v) == Claims(p, v)
  {
    var r := Released(after, u, gone);
    assert forall a :: a in Claims(r, u) <==> a in Claims(p, u) + addrs - gone;
    forall v | v != u ensures Claims(r, v) == Claims(p, v) {
      assert forall a :: a in Claims(r, v) <==> a in Claims(p, v);
    }
  }

  /** An allocation, finished or not, only adds to the claimer's claims and leaves all others. */
  lemma ClaimsTaken(p: Pool, u: UID, reqs: seq<Request>, created: seq<Option<Addr>>, addrs: seq<Addr>, after: Pool)
    requires |reqs| <= |created| && Granted(p, u, reqs, created, addrs, after)
    ensures Claims(after, u) == Claims(p, u) + AddrSet(addrs) && forall v | v != u :: Claims(after, v) == Claims(p, v)
  {
    hide Took, Taken, Released, CreatedFor, Grantable, Claims;
    ClaimsAfter(p, u, AddrSet(addrs), CreatedFor(reqs[..|addrs|], created), after, {});
    ReleaseNone(after, u);
  }

  /** What the pool had of the object, and what it was given, in an update that succeeded. */
  ghost predicate OwnsOld(p: Pool, u: UID, oldReqs: seq<Request>) {
    (forall r | r in oldReqs :: r.addr.Some?) && Claims(p, u) == Somes(Requested(oldReqs))
  }

  ghost predicate Proper(p: Pool, u: UID, x: Update) {
    && Updated(x) && OwnsOld(p, u, x.oldReqs)
    && forall t | 0 <= t < |x.division.toAllocate| && x.division.toAllocate[t].addr.None? :: x.addrs[t] !in p.claims
  }

  lemma ProperUpdate(p: Pool, u: UID, oldReqs: seq<Request>, newReqs: seq<Request>, created: seq<Option<Addr>>,
                     after: Pool, ips: seq<Option<Addr>>, toRelease: set<Option<Addr>>)
    returns (x: Update, made: set<Addr>)
    requires |newReqs| <= |created| && UpdateTook(p, u, oldReqs, newReqs, created, after, ips, toRelease)
    requires Creatable(p, created) && OwnsOld(p, u, oldReqs)
    ensures Proper(p, u, x) && x.oldReqs == oldReqs && x.newReqs == newReqs && x.ips == ips &&
              x.division.toRelease == toRelease
    ensures Took(p, u, AddrSet(x.addrs), made, after)
  {
    hide Took, OwnsOld, Wanted, Grantable, Requested, KeptAt;
    var wanted := Wanted(oldReqs, newReqs, |newReqs|);
    x :|
      && Updated(x) && x.oldReqs == oldReqs && x.newReqs == newReqs && x.ips == ips && x.division.toRelease == toRelease
      && |x.addrs| == |wanted| && Granted(p, u, wanted, created, x.addrs, after);
    made := CreatedFor(wanted[..|x.addrs|], created);
    assert wanted == x.division.toAllocate;
  }

  lemma AllocatedStays(p: Pool, u: UID, x: Update, t: nat)
    requires Proper(p, u, x) && t < |x.addrs|
    ensures x.addrs[t] in AddrSet(x.addrs) && x.addrs[t] !in Somes(x.division.toRelease)
    ensures x.division.toAllocate[t].addr.None? ==> x.addrs[t] !in Claims(p, u)
  {
    hide Wanted;
    var d := x.division;
    assert x.newReqs[..|x.newReqs|] == x.newReqs;
    if d.toAllocate[t].addr.Some? {
      assert x.newReqs[d.from[t]] in x.newReqs && x.newReqs[d.from[t]].addr == Some(x.addrs[t]);
    } else {
      assert x.addrs[t] !in Claims(p, u);
    }
  }

  /** The addresses of the updated object are those it had and those it was allocated, less those to
      be released. */
  lemma AddressesAfter(p: Pool, u: UID, x: Update)
    requires Proper(p, u, x)
    ensures Addrs(x.ips) == Claims(p, u) + AddrSet(x.addrs) - Somes(x.division.toRelease)
    ensures forall i | 0 <= i < |x.ips| :: x.ips[i].Some?
    ensures x.division.toRelease <= Requested(x.oldReqs)
  {
    hide Wanted;
    var d := x.division;
    assert x.newReqs[..|x.newReqs|] == x.newReqs;
    RequestedMore(x.newReqs, |x.newReqs|);
    forall i | 0 <= i < |x.ips|
      ensures x.ips[i].Some? && x.ips[i].value in Claims(p, u) + AddrSet(x.addrs) - Somes(d.toRelease)
    {
      if i in d.index {
        AllocatedStays(p, u, x, d.index[i]);
      } else {
        assert KeptAt(x.oldReqs, x.newReqs, i);
        assert x.newReqs[i].addr in Requested(x.newReqs);
      }
    }
    forall a | a in Claims(p, u) + AddrSet(x.addrs) - Somes(d.toRelease) ensures a in Addrs(x.ips) {
      if a in AddrSet(x.addrs) {
        var t :| 0 <= t < |x.addrs| && x.addrs[t] == a;
        assert x.ips[d.from[t]] == Some(a);
      } else {
        assert Some(a) in Requested(x.newReqs);
        var i := FirstRequest(x.newReqs, Some(a));
        assert KeptAt(x.oldReqs, x.newReqs, i);
        assert x.ips[i] == Some(a);
      }
    }
  }

  lemma {:induction false} FirstRequest(reqs: seq<Request>, a: Option<Addr>) returns (i: nat)
    requires a in Requested(reqs)
    ensures i < |reqs| && reqs[i].addr == a && forall j | 0 <= j < i :: reqs[j].addr != a
  {
    if reqs[0].addr == a {
      i := 0;
    } else {
      assert reqs == [reqs[0]] + reqs[1..];
      i := FirstRequest(reqs[1..], a);
      i := i + 1;
    }
  }

  /** The addresses stay the same exactly when the requests do, order and repetition apart. */
  lemma SameAddresses(p: Pool, u: UID, x: Update)
    requires Proper(p, u, x)
    ensures Addrs(x.ips) == Claims(p, u) <==> Requested(x.newReqs) == Requested(x.oldReqs)
  {
    hide Wanted, Updated, Requested, KeptAt;
    AddressesAfter(p, u, x);
    if Addrs(x.ips) == Claims(p, u) {
      forall i | 0 <= i < |x.newReqs| ensures x.newReqs[i].addr in Requested(x.oldReqs) {
        KeepsOrChanges(p, u, x, i);
      }
      RequestedIs(x);
      AreSet(x.oldReqs);
      forall a | a in Requested(x.oldReqs) ensures a in Requested(x.newReqs) {
        assert a.value in Claims(p, u) && a.value !in Somes(x.division.toRelease);
      }
    } else if Requested(x.newReqs) == Requested(x.oldReqs) {
      RequestedIs(x);
      forall t | 0 <= t < |x.addrs| ensures x.addrs[t] in Claims(p, u) {
        AllocatedWasRequested(p, u, x, t);
      }
    }
  }

  lemma KeepsOrChanges(p: Pool, u: UID, x: Update, i: nat)
    requires Proper(p, u, x) && i < |x.newReqs| && Addrs(x.ips) == Claims(p, u)
    ensures x.newReqs[i].addr in Requested(x.oldReqs)
  {
    hide Wanted, Requested;
    var d := x.division;
    if i in d.index {
      var t := d.index[i];
      assert x.ips[i] == Some(x.addrs[t]) && x.addrs[t] in Addrs(x.ips);
      AllocatedStays(p, u, x, t);
      assert x.newReqs[i].addr == Some(x.addrs[t]);
    } else {
      assert KeptAt(x.oldReqs, x.newReqs, i);
    }
  }

  lemma RequestedIs(x: Update)
    requires Updated(x)
    ensures x.division.toRelease == Requested(x.oldReqs) - Requested(x.newReqs)
    ensures (forall i | 0 <= i < |x.newReqs| :: x.newReqs[i].addr in Requested(x.oldReqs)) <==>
              Requested(x.newReqs) <= Requested(x.oldReqs)
  {
    hide Wanted, KeptAt;
    assert x.newReqs[..|x.newReqs|] == x.newReqs;
    RequestedMore(x.newReqs, |x.newReqs|);
  }

  lemma AllocatedWasRequested(p: Pool, u: UID, x: Update, t: nat)
    requires Proper(p, u, x) && t < |x.addrs| && Requested(x.newReqs) == Requested(x.oldReqs)
    ensures x.addrs[t] in Claims(p, u)
  {
    hide Wanted, KeptAt;
    var r := x.newReqs[x.division.from[t]];
    assert r in x.newReqs && r.addr in Requested(x.newReqs);
    assert r.addr.Some? && x.addrs[t] == r.addr.value;
  }

  /** An update that succeeds and is committed conserves claims: if the object held the addresses it
      had, it holds exactly those it has now, duplicates and all, and nobody else's claim changed. */
  lemma UpdateConserves(p: Pool, u: UID, oldReqs: seq<Request>, newReqs: seq<Request>, created: seq<Option<Addr>>,
                        after: Pool, ips: seq<Option<Addr>>, toRelease: set<Option<Addr>>)
    requires |newReqs| <= |created| && UpdateTook(p, u, oldReqs, newReqs, created, after, ips, toRelease)
    requires Creatable(p, created) && OwnsOld(p, u, oldReqs)
    ensures Claims(Released(after, u, Somes(toRelease)), u) == Addrs(ips) && forall i | 0 <= i < |ips| :: ips[i].Some?
    ensures forall v | v != u :: Claims(Released(after, u, Somes(toRelease)), v) == Claims(p, v)
    ensures toRelease <= Requested(oldReqs)
  {
    hide Took, Taken, Released, Proper, UpdateTook, OwnsOld;
    var x, made := ProperUpdate(p, u, oldReqs, newReqs, created, after, ips, toRelease);
    AddressesAfter(p, u, x);
    ClaimsAfter(p, u, AddrSet(x.addrs), made, after, Somes(toRelease));
  }

  /** Reverting an update releases what committing it would have released. So it restores the pool
      only when there was nothing to do: exactly when the addresses requested are those the object
      had. */
  lemma RevertedUpdate(p: Pool, u: UID, oldReqs: seq<Request>, newReqs: seq<Request>, created: seq<Option<Addr>>,
                       after: Pool, ips: seq<Option<Addr>>, toRelease: set<Option<Addr>>)
    requires |newReqs| <= |created| && UpdateTook(p, u, oldReqs, newReqs, created, after, ips, toRelease)
    requires Creatable(p, created) && OwnsOld(p, u, oldReqs)
    ensures Released(after, u, Somes(toRelease)) == p <==> Requested(newReqs) == Requested(oldReqs)
  {
    hide Took, Taken, Released, Requested, Updated, UpdateTook;
    UpdateConserves(p, u, oldReqs, newReqs, created, after, ips, toRelease);
    var x, made := ProperUpdate(p, u, oldReqs, newReqs, created, after, ips, toRelease);
    SameAddresses(p, u, x);
    if Requested(newReqs) == Requested(oldReqs) {
      AddressesAfter(p, u, x);
      forall a | a in AddrSet(x.addrs) ensures a in Claims(p, u) {
        var t :| 0 <= t < |x.addrs| && x.addrs[t] == a;
        AllocatedStays(p, u, x, t);
      }
      RequestedIs(x);
      assert Somes(toRelease) == {};
      TookNothing(p, u, AddrSet(x.addrs), made, after);
      ReleaseNone(p, u);
    }
  }

  lemma TookNothing(p: Pool, u: UID, addrs: set<Addr>, created: set<Addr>, after: Pool)
    requires Took(p, u, addrs, created, after) && addrs <= Claims(p, u)
    ensures after == p
  {
    assert created == {};
    assert after.claims == p.claims;
  }

  const OLD_REQUESTS := [Request(IPv4, Some("a"))]
  const NEW_REQUESTS := [Request(IPv4, Some("b"))]

  function TwoAddresses(u: UID): Pool {
    Pool(map["a" := Some(u), "b" := None], {})
  }

  /** An object with address "a" asks for the free "b" instead and the update is reverted: it loses
      "a" and keeps "b". */
  lemma RevertLosesAddress(u: UID)
    ensures var p, after := TwoAddresses(u), Taken(TwoAddresses(u), u, {"b"}, {});
            && UpdateTook(p, u, OLD_REQUESTS, NEW_REQUESTS, [None], after, [Some("b")], {Some("a")})
            && Claims(p, u) == {"a"} && Claims(Released(after, u, Somes({Some("a")})), u) == {"b"}
  {
    hide Took, Taken, Released, Updated, UpdateTook, Requested, Wanted, Grantable, Divided, Creatable;
    var p, after := TwoAddresses(u), Taken(TwoAddresses(u), u, {"b"}, {});
    var x := Update(OLD_REQUESTS, NEW_REQUESTS, Division({Some("a")}, NEW_REQUESTS, map[0 := 0], [0]), ["b"],
                    [Some("b")]);
    ExampleDivides(x.division);
    ExampleIsGranted(u);
    ExampleIsOwned(u);
    Takes(p, u, x, [None], after);
    UpdateConserves(p, u, OLD_REQUESTS, NEW_REQUESTS, [None], after, [Some("b")], {Some("a")});
    assert Addrs([Some("b")]) == {"b"} by { assert [Some("b")][0].Some?; }
  }

  lemma ExampleDivides(d: Division)
    requires d == Division({Some("a")}, NEW_REQUESTS, map[0 := 0], [0])
    ensures Divided(OLD_REQUESTS, NEW_REQUESTS, 1, d)
    ensures Requested(OLD_REQUESTS) == {Some("a")}
  {
    assert OLD_REQUESTS[0] in OLD_REQUESTS && NEW_REQUESTS[0] in NEW_REQUESTS && NEW_REQUESTS[..1] == NEW_REQUESTS;
    assert Requested(OLD_REQUESTS) == {Some("a")} && Requested(NEW_REQUESTS) == {Some("b")};
    assert !KeptAt(OLD_REQUESTS, NEW_REQUESTS, 0) && Wanted(OLD_REQUESTS, NEW_REQUESTS, 0) == [];
    assert Wanted(OLD_REQUESTS, NEW_REQUESTS, 1) == NEW_REQUESTS;
  }

  lemma ExampleIsOwned(u: UID)
    ensures Creatable(TwoAddresses(u), [None]) && OwnsOld(TwoAddresses(u), u, OLD_REQUESTS) &&
              Claims(TwoAddresses(u), u) == {"a"}
  {
    hide Requested;
    assert Claims(TwoAddresses(u), u) == {"a"};
    ExampleDivides(Division({Some("a")}, NEW_REQUESTS, map[0 := 0], [0]));
    assert Somes({Some("a")}) == {"a"};
  }

  lemma ExampleIsGranted(u: UID)
    ensures Granted(TwoAddresses(u), u, NEW_REQUESTS, [None], ["b"], Taken(TwoAddresses(u), u, {"b"}, {}))
  {
    hide Taken, Took, Creatable;
    var p := TwoAddresses(u);
    ExampleIsOwned(u);
    assert Grantable(p, u, NEW_REQUESTS, [None], 0);
    hide Grantable;
    GrantedIsTaken(p, u, NEW_REQUESTS, [None], ["b"]);
    assert AddrSet(["b"]) == {"b"} by { assert ["b"][0] == "b"; }
    assert CreatedFor(NEW_REQUESTS[..1], [None]) == {};
  }

  // ---- Whole requests --------------------------------------------------------------------------

  /** A create of an object, with or without success after the allocation. Whatever happens nobody
      else's claim changes; a failed allocation only adds claims. */
  method CreateObject(supported: set<Family>, p: Pool, u: UID, reqs: seq<Request>, created: seq<Option<Addr>>,
                      success: bool)
    returns (after: Pool, ips: seq<Option<Addr>>, ok: bool)
    requires ValidPool(p) && Familiar(reqs) && |created| == |reqs| && Creatable(p, created)
    ensures ok <==>
              && (forall r | r in reqs :: r.family in supported)
              && forall i | 0 <= i < |reqs| :: Grantable(p, u, reqs, created, i)
    ensures ok && success ==>
              Claims(after, u) == Claims(p, u) + Addrs(ips) && |ips| == |reqs| &&
              forall i | 0 <= i < |ips| :: ips[i] == if reqs[i].addr.Some? then reqs[i].addr else created[i]
    ensures ok && !success ==> Claims(after, u) == Claims(p, u) - Addrs(ips)
    ensures ok && !success ==> (after == p <==> forall r | r in reqs && r.addr.Some? :: r.addr.value !in Claims(p, u))
    ensures !ok ==> after == p || exists addrs :: Granted(p, u, reqs, created, addrs, after)
    ensures (!ok ==> Claims(p, u) <= Claims(after, u)) && forall v | v != u :: Claims(after, v) == Claims(p, v)
  {
    hide Took, Taken, Released, CreatedFor, Grantable, Claims, Creatable;
    var addrs;
    after, addrs, ips, ok := AllocateCreate(supported, p, u, reqs, created);
    if Granted(p, u, reqs, created, addrs, after) {
      ClaimsTaken(p, u, reqs, created, addrs, after);
    }
    if !ok {
      return;
    }
    assert AddrSet(addrs) == Addrs(ips);
    if !success {
      assert reqs[..|addrs|] == reqs;
      RevertedCreate(p, u, AddrSet(addrs), CreatedFor(reqs, created), after);
      ClaimsAfter(p, u, AddrSet(addrs), CreatedFor(reqs, created), after, AddrSet(addrs));
      RequestedWereOwn(p, u, reqs, created, addrs, after);
      after := ReleaseIPs(after, u, addrs);
    }
  }

  lemma RequestedWereOwn(p: Pool, u: UID, reqs: seq<Request>, created: seq<Option<Addr>>, addrs: seq<Addr>, after: Pool)
    requires |reqs| <= |created| && Creatable(p, created) && |addrs| == |reqs| &&
              Granted(p, u, reqs, created, addrs, after)
    ensures AddrSet(addrs) !! Claims(p, u) <==> forall r | r in reqs && r.addr.Some? :: r.addr.value !in Claims(p, u)
  {
    hide Took, Taken, CreatedFor, Grantable, Claims;
    assert forall i | 0 <= i < |reqs| && reqs[i].addr.None? :: addrs[i] !in p.claims;
    CreatedAreNotOwn(p, u);
    forall i | 0 <= i < |reqs|
      ensures reqs[i] in reqs && addrs[i] in AddrSet(addrs) && Some(addrs[i]) == Wish(reqs[i], created[i]) {
    }
    forall r | r in reqs && r.addr.Some? ensures r.addr.value in AddrSet(addrs) {
      var i :| 0 <= i < |reqs| && reqs[i] == r;
      assert addrs[i] == r.addr.value;
    }
    forall a | a in AddrSet(addrs) && a in Claims(p, u) ensures exists r :: r in reqs && r.addr == Some(a) {
      var i :| 0 <= i < |addrs| && addrs[i] == a;
      assert reqs[i].addr == Some(a);
    }
  }

  lemma CreatedAreNotOwn(p: Pool, u: UID)
    ensures forall a | a in Claims(p, u) :: a in p.claims
  {
  }

  /** An update of an object, with or without success after the allocation: both end in the same
      releases. */
  method UpdateObject(supported: set<Family>, p: Pool, u: UID, oldReqs: seq<Request>, newReqs: seq<Request>,
                      created: seq<Option<Addr>>)
    returns (after: Pool, ips: seq<Option<Addr>>, ok: bool)
    requires Familiar(oldReqs) && Familiar(newReqs) && |created| == |newReqs| && Creatable(p, created)
    requires OwnsOld(p, u, oldReqs)
    ensures var wanted := Wanted(oldReqs, newReqs, |newReqs|);
            ok <==>
              && (forall r | r in oldReqs + newReqs :: r.family in supported)
              && forall t | 0 <= t < |wanted| :: Grantable(p, u, wanted, created, t)
    ensures ok ==> |ips| == |newReqs| && Claims(after, u) == Addrs(ips)
    ensures ok ==> forall i | 0 <= i < |ips| :: ips[i].Some? && (newReqs[i].addr.Some? ==> ips[i] == newReqs[i].addr)
    ensures ok ==> (after == p <==> Requested(newReqs) == Requested(oldReqs))
    ensures !ok ==> after == p || UpdateLeft(p, u, oldReqs, newReqs, created, after)
    ensures (!ok ==> Claims(p, u) <= Claims(after, u)) && forall v | v != u :: Claims(after, v) == Claims(p, v)
  {
    hide Took, Taken, Released, CreatedFor, Requested, Claims, KeptAt, Wanted, Grantable, AddrSet, Creatable;
    var toRelease;
    after, ips, toRelease, ok := AllocateUpdate(supported, p, u, oldReqs, newReqs, created);
    if !ok {
      if after != p {
        ghost var wanted := Wanted(oldReqs, newReqs, |newReqs|);
        ghost var addrs :| Granted(p, u, wanted, created, addrs, after);
        ClaimsTaken(p, u, wanted, created, addrs, after);
      }
      return;
    }
    UpdateConserves(p, u, oldReqs, newReqs, created, after, ips, toRelease);
    RevertedUpdate(p, u, oldReqs, newReqs, created, after, ips, toRelease);
    AreSet(oldReqs);
    after := Finish(after, u, toRelease);
  }

  lemma AreSet(reqs: seq<Request>)
    requires forall r | r in reqs :: r.addr.Some?
    ensures forall a | a in Requested(reqs) :: a.Some?
  {
  }
}
