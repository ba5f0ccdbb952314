/** Topology balance of the scheduler's cache over runs of cache operations
    (internal/controllers/scheduler_controller.go, internal/controllers/scheduler/cache.go). */
module SchedulerBalance {
  import opened Wrappers
  import opened Api
  import opened Labels
  import opened NodeAffinity
  import opened SchedulerCache
  import opened AntiAffinity
  import opened TopologySpread
  import opened Scheduler

  // ---- What the cache holds --------------------------------------------------------------------

  /** A node of the cache that has all of the topology keys. */
  predicate Candidate(s: State, cs: Constraints, name: string) {
    NodeOf(s, name).Some? && forall c | c in cs :: c.topologyKey in NodeOf(s, name).value.labels
  }

  function Domain(s: State, name: string, c: SpreadConstraint): string
    requires NodeOf(s, name).Some? && c.topologyKey in NodeOf(s, name).value.labels
  {
    NodeOf(s, name).value.labels[c.topologyKey]
  }

  predicate InDomain(s: State, cs: Constraints, name: string, c: SpreadConstraint, value: string) {
    && Candidate(s, cs, name)
    && c.topologyKey in NodeOf(s, name).value.labels && Domain(s, name, c) == value
  }

  /** The instances a domain holds that the constraint selects. */
  ghost function CountedIn(s: State, cs: Constraints, c: SpreadConstraint, namespace: string, value: string): set<UID> {
    set k | k in s.states && CountsFor(c, namespace, s.states[k].instance) &&
        InDomain(s, cs, s.states[k].instance.nodeName, c, value)
  }

  /** For each constraint no domain of the cache holds more than the allowed skew above another. */
  ghost predicate BalancedCache(s: State, cs: Constraints, namespace: string) {
    forall c, a, b | c in cs && Candidate(s, cs, a) && Candidate(s, cs, b) ::
      |CountedIn(s, cs, c, namespace, Domain(s, a, c))| - |CountedIn(s, cs, c, namespace, Domain(s, b, c))| <= c.maxSkew
  }

  // ---- The snapshot's counts are the cache's ---------------------------------------------------

  ghost function DomainSet(nodes: seq<Info>, c: SpreadConstraint, namespace: string, value: string): set<UID> {
    if nodes == [] then {}
    else
      var n := nodes[|nodes| - 1];
      DomainSet(nodes[..|nodes| - 1], c, namespace, value) +
      if InPair(n, c, Pair(c.topologyKey, value)) then Matching(n, c, namespace) else {}
  }

  ghost predicate Apart(nodes: seq<Info>) {
    forall i, j | 0 <= i < j < |nodes| :: nodes[i].instances.Keys !! nodes[j].instances.Keys
  }

  lemma {:induction false} DomainSetIs(nodes: seq<Info>, c: SpreadConstraint, namespace: string, value: string)
    ensures forall k :: k in DomainSet(nodes, c, namespace, value) <==>
              exists n :: n in nodes && InPair(n, c, Pair(c.topologyKey, value)) && k in Matching(n, c, namespace)
  {
    hide InPair, Matching;
    if nodes != [] {
      var init, last := nodes[..|nodes| - 1], nodes[|nodes| - 1];
      DomainSetIs(init, c, namespace, value);
      assert nodes == init + [last];
    }
  }

  lemma {:induction false} DomainSetCard(nodes: seq<Info>, c: SpreadConstraint, namespace: string, value: string)
    requires Apart(nodes)
    ensures |DomainSet(nodes, c, namespace, value)| == DomainCount(nodes, c, namespace, value)
  {
    hide InPair;
    if nodes != [] {
      var init, last := nodes[..|nodes| - 1], nodes[|nodes| - 1];
      DomainSetCard(init, c, namespace, value);
      DomainSetIs(init, c, namespace, value);
      assert DomainSet(init, c, namespace, value) !! last.instances.Keys;
    }
  }

  lemma {:induction false} EligibleOnesApart(infos: seq<Info>, cs: Constraints)
    requires Apart(infos)
    ensures Apart(EligibleOnes(infos, cs))
  {
    hide Eligible;
    if infos != [] {
      var init, last := infos[..|infos| - 1], infos[|infos| - 1];
      EligibleOnesApart(init, cs);
      EligibleOnesAre(init, cs);
      assert forall n | n in init :: n.instances.Keys !! last.instances.Keys;
      assert forall n | n in EligibleOnes(init, cs) :: n in init;
    }
  }

  /** No instance is listed with two nodes. */
  lemma ListedApart(s: State, infos: seq<Info>)
    requires Inv(s) && Lists(infos, s)
    ensures Apart(infos)
  {
    hide Inv, Lists;
    forall i, j | 0 <= i < j < |infos| ensures infos[i].instances.Keys !! infos[j].instances.Keys {
      assert infos[i].node.name != infos[j].node.name by { NamesDiffer(s, infos, i, j); }
      AllListedThere(s, infos, infos[i]);
      AllListedThere(s, infos, infos[j]);
    }
  }

  lemma AllListedThere(s: State, infos: seq<Info>, n: Info)
    requires Inv(s) && Lists(infos, s) && n in infos
    ensures forall k | k in n.instances :: k in s.states && s.states[k].instance.nodeName == n.node.name
  {
    hide Inv, Lists;
    forall k | k in n.instances ensures k in s.states && s.states[k].instance.nodeName == n.node.name {
      ListedInstance(s, infos, n, k);
    }
  }

  lemma NamesDiffer(s: State, infos: seq<Info>, i: nat, j: nat)
    requires Lists(infos, s) && i < j < |infos|
    ensures infos[i].node.name != infos[j].node.name
  {
  }

  lemma CountsAgree(s: State, infos: seq<Info>, cs: Constraints, c: SpreadConstraint, namespace: string, value: string)
    requires Inv(s) && Lists(infos, s)
    ensures DomainCount(EligibleOnes(infos, cs), c, namespace, value) == |CountedIn(s, cs, c, namespace, value)|
  {
    hide Inv, Lists, CountsFor, NodeOf, Instances;
    var nodes := EligibleOnes(infos, cs);
    ListedApart(s, infos);
    EligibleOnesApart(infos, cs);
    EligibleOnesAre(infos, cs);
    DomainSetCard(nodes, c, namespace, value);
    DomainSetIs(nodes, c, namespace, value);
    forall k ensures k in DomainSet(nodes, c, namespace, value) <==> k in CountedIn(s, cs, c, namespace, value) {
      if k in DomainSet(nodes, c, namespace, value) {
        var n :| n in nodes && InPair(n, c, Pair(c.topologyKey, value)) && k in Matching(n, c, namespace);
        ListedInstance(s, infos, n, k);
      }
      if k in CountedIn(s, cs, c, namespace, value) {
        var n := ListedIn(s, infos, k);
        ListedInstance(s, infos, n, k);
        assert n in nodes && k in Matching(n, c, namespace);
      }
    }
    assert DomainSet(nodes, c, namespace, value) == CountedIn(s, cs, c, namespace, value);
  }

  lemma ListedCandidate(s: State, infos: seq<Info>, cs: Constraints, n: Info)
    requires Inv(s) && Lists(infos, s) && n in EligibleOnes(infos, cs)
    ensures Candidate(s, cs, n.node.name) && NodeOf(s, n.node.name).value == n.node
  {
    EligibleOnesAre(infos, cs);
    ListedNode(s, infos, n);
  }

  lemma CandidateListed(s: State, infos: seq<Info>, cs: Constraints, name: string) returns (n: Info)
    requires Inv(s) && Lists(infos, s) && Candidate(s, cs, name)
    ensures n in EligibleOnes(infos, cs) && NodeOf(s, name).value == n.node
  {
    n := Info(s.nodes[name].node.value, s.nodes[name].instances);
    EligibleOnesAre(infos, cs);
  }

  /** The cache is balanced exactly when its listing is, in whatever order. */
  lemma BalanceAgrees(s: State, infos: seq<Info>, cs: Constraints, namespace: string)
    requires Inv(s) && Lists(infos, s)
    ensures BalancedCache(s, cs, namespace) <==> Balanced(EligibleOnes(infos, cs), cs, namespace)
  {
    hide Inv, Lists, CountedIn, DomainCount, NodeOf, EligibleOnes;
    var nodes := EligibleOnes(infos, cs);
    if BalancedCache(s, cs, namespace) {
      forall c, n, m | c in cs && n in nodes && m in nodes && Eligible(n, cs) && Eligible(m, cs)
        ensures DomainCount(nodes, c, namespace, n.node.labels[c.topologyKey]) -
                  DomainCount(nodes, c, namespace, m.node.labels[c.topologyKey]) <= c.maxSkew
      {
        ListedCandidate(s, infos, cs, n);
        ListedCandidate(s, infos, cs, m);
        CountsAgree(s, infos, cs, c, namespace, n.node.labels[c.topologyKey]);
        CountsAgree(s, infos, cs, c, namespace, m.node.labels[c.topologyKey]);
        assert Domain(s, n.node.name, c) == n.node.labels[c.topologyKey] &&
            Domain(s, m.node.name, c) == m.node.labels[c.topologyKey];
      }
    }
    if Balanced(nodes, cs, namespace) {
      forall c, a, b | c in cs && Candidate(s, cs, a) && Candidate(s, cs, b)
        ensures |CountedIn(s, cs, c, namespace, Domain(s, a, c))| -
                  |CountedIn(s, cs, c, namespace, Domain(s, b, c))| <= c.maxSkew
      {
        var n := CandidateListed(s, infos, cs, a);
        var m := CandidateListed(s, infos, cs, b);
        assert Eligible(n, cs) && Eligible(m, cs);
        CountsAgree(s, infos, cs, c, namespace, n.node.labels[c.topologyKey]);
        CountsAgree(s, infos, cs, c, namespace, m.node.labels[c.topologyKey]);
      }
    }
  }

  // ---- Placements ------------------------------------------------------------------------------

  /** Assuming an instance on a listed node leaves a cache that the edited list lists. */
  lemma AssumeIsListed(s: State, infos: seq<Info>, at: nat, i: Instance)
    requires Inv(s) && Lists(infos, s) && at < |infos| && i.uid != "" && i.uid !in s.states &&
              i.nodeName == infos[at].node.name
    ensures Lists(WithInstance(infos, at, i), Applied(s, Assume(i)))
  {
    var t := Applied(s, Assume(i));
    var after := WithInstance(infos, at, i);
    assert infos[at] in infos;
    ListedNode(s, infos, infos[at]);
    assert t.nodes == s.nodes[i.nodeName := Container(Some(infos[at].node), infos[at].instances[i.uid := i])];
    forall n | n in after
      ensures exists name ::
                name in t.nodes && t.nodes[name].node.Some? &&
                n == Info(t.nodes[name].node.value, t.nodes[name].instances)
    {
      var k :| 0 <= k < |after| && after[k] == n;
      if k != at {
        assert infos[k] in infos;
        ListedNode(s, infos, infos[k]);
        assert infos[k].node.name != i.nodeName;
        assert infos[k].node.name in t.nodes;
      } else {
        assert i.nodeName in t.nodes;
      }
    }
    forall name | name in t.nodes && t.nodes[name].node.Some?
      ensures Info(t.nodes[name].node.value, t.nodes[name].instances) in after {
      if name == i.nodeName {
        assert after[at] in after;
      } else {
        var n := Info(s.nodes[name].node.value, s.nodes[name].instances);
        assert n in infos;
        ListedNode(s, infos, n);
        assert NodeOf(s, name).Some?;
        var k :| 0 <= k < |infos| && infos[k] == n;
        assert after[k] == n;
      }
    }
  }

  /** Where the instances counted by one of the constraints are. */
  ghost predicate SameCounted(s: State, t: State, cs: Constraints, namespace: string) {
    && (forall n :: NodeOf(t, n) == NodeOf(s, n))
    && forall c, k, name | c in cs :: CountedAt(t, c, namespace, k, name) <==> CountedAt(s, c, namespace, k, name)
  }

  predicate CountedAt(s: State, c: SpreadConstraint, namespace: string, k: UID, name: string) {
    k in s.states && CountsFor(c, namespace, s.states[k].instance) && s.states[k].instance.nodeName == name
  }

  lemma SameCountedIn(s: State, t: State, cs: Constraints, c: SpreadConstraint, namespace: string, value: string)
    requires SameCounted(s, t, cs, namespace) && c in cs
    ensures CountedIn(t, cs, c, namespace, value) == CountedIn(s, cs, c, namespace, value)
  {
    hide CountsFor, NodeOf;
    forall k ensures k in CountedIn(t, cs, c, namespace, value) <==> k in CountedIn(s, cs, c, namespace, value) {
      if k in s.states {
        var name := s.states[k].instance.nodeName;
        assert CountedAt(s, c, namespace, k, name) <==> CountedAt(t, c, namespace, k, name);
      }
      if k in t.states {
        var name := t.states[k].instance.nodeName;
        assert CountedAt(s, c, namespace, k, name) <==> CountedAt(t, c, namespace, k, name);
      }
    }
  }

  /** One more instance in the node's domain would exceed no other domain by more than the skew. */
  ghost predicate FitsCache(s: State, cs: Constraints, namespace: string, inst: Instance, name: string) {
    && Candidate(s, cs, name)
    && forall c, b | c in cs && Candidate(s, cs, b) ::
      |CountedIn(s, cs, c, namespace, Domain(s, name, c))| + SelfCount(inst, c)
      - |CountedIn(s, cs, c, namespace, Domain(s, b, c))| <= c.maxSkew
  }

  /** What passes the filter over a listing fits the cache that was listed. */
  lemma FilterFitsCache(s: State, infos: seq<Info>, at: nat, inst: Instance)
    requires Inv(s) && Lists(infos, s) && at < |infos| && Proper(inst.spread) && SpreadFits(inst, infos[at], infos)
    ensures FitsCache(s, inst.spread, inst.namespace, inst, infos[at].node.name)
  {
    hide Inv, Lists, CountedIn, DomainCount, PairCount, SelfCount, NodeOf, EligibleOnes, IsPair;
    var cs, namespace, n := inst.spread, inst.namespace, infos[at];
    var nodes := EligibleOnes(infos, cs);
    assert n in nodes by {
      assert n in infos;
      EligibleOnesAre(infos, cs);
    }
    ListedCandidate(s, infos, cs, n);
    forall c, b | c in cs && Candidate(s, cs, b)
      ensures |CountedIn(s, cs, c, namespace, Domain(s, n.node.name, c))| + SelfCount(inst, c)
              - |CountedIn(s, cs, c, namespace, Domain(s, b, c))| <= c.maxSkew
    {
      var m := CandidateListed(s, infos, cs, b);
      var v, w := Domain(s, n.node.name, c), Domain(s, b, c);
      CountsAgree(s, infos, cs, c, namespace, v);
      CountsAgree(s, infos, cs, c, namespace, w);
      PairCountIsDomainCount(nodes, cs, namespace, c, v);
      PairCountIsDomainCount(nodes, cs, namespace, c, w);
      assert IsPair(nodes, cs, Pair(c.topologyKey, w)) by { PairOfNode(nodes, m, cs, c); }
      assert FitsConstraint(inst, n, c, nodes);
    }
  }

  lemma PairOfNode(nodes: seq<Info>, m: Info, cs: Constraints, c: SpreadConstraint)
    requires m in nodes && c in cs && c.topologyKey in m.node.labels
    ensures IsPair(nodes, cs, Pair(c.topologyKey, m.node.labels[c.topologyKey]))
  {
    assert InPair(m, c, Pair(c.topologyKey, m.node.labels[c.topologyKey]));
    assert IsPairOf(m, cs, Pair(c.topologyKey, m.node.labels[c.topologyKey]));
  }

  lemma FitsStays(s: State, t: State, cs: Constraints, namespace: string, inst: Instance, name: string)
    requires FitsCache(s, cs, namespace, inst, name) && SameCounted(s, t, cs, namespace)
    ensures FitsCache(t, cs, namespace, inst, name)
  {
    hide CountedIn, NodeOf, SelfCount;
    assert Candidate(t, cs, name);
    forall c, b | c in cs && Candidate(t, cs, b)
      ensures |CountedIn(t, cs, c, namespace, Domain(t, name, c))| + SelfCount(inst, c)
              - |CountedIn(t, cs, c, namespace, Domain(t, b, c))| <= c.maxSkew
    {
      assert Candidate(s, cs, b) && Domain(s, b, c) == Domain(t, b, c) && Domain(s, name, c) == Domain(t, name, c);
      SameCountedIn(s, t, cs, c, namespace, Domain(s, b, c));
      SameCountedIn(s, t, cs, c, namespace, Domain(s, name, c));
    }
  }

  lemma AssumedFields(s: State, i: Instance)
    requires i.uid != "" && i.uid !in s.states
    ensures Applied(s, Assume(i)).states == s.states[i.uid := InstanceState(i, false)]
    ensures forall n :: NodeOf(Applied(s, Assume(i)), n) == NodeOf(s, n)
  {
    hide Inserted, NodeOf, Instances;
    InsertedShape(s, i.uid, i, true);
  }

  /** An assumed instance counts in the domain of its node, if the constraint selects it. */
  lemma CountedAfter(s: State, i: Instance, cs: Constraints, c: SpreadConstraint, namespace: string, value: string)
    requires i.uid != "" && i.uid !in s.states
    ensures |CountedIn(Applied(s, Assume(i)), cs, c, namespace, value)| == |CountedIn(s, cs, c, namespace, value)|
              + if CountsFor(c, namespace, i) && InDomain(s, cs, i.nodeName, c, value) then 1 else 0
  {
    hide CountsFor, NodeOf, Applied, InDomain;
    var t := Applied(s, Assume(i));
    AssumedFields(s, i);
    SameDomains(s, t, cs, c, value);
    var before, after := CountedIn(s, cs, c, namespace, value), CountedIn(t, cs, c, namespace, value);
    assert i.uid !in before;
    forall k | k != i.uid ensures k in after <==> k in before {
      assert k in t.states <==> k in s.states;
    }
    if CountsFor(c, namespace, i) && InDomain(s, cs, i.nodeName, c, value) {
      assert after == before + {i.uid};
    } else {
      assert after == before;
    }
  }

  lemma SameDomains(s: State, t: State, cs: Constraints, c: SpreadConstraint, value: string)
    requires forall n :: NodeOf(t, n) == NodeOf(s, n)
    ensures forall name :: InDomain(t, cs, name, c, value) <==> InDomain(s, cs, name, c, value)
  {
    hide NodeOf;
  }

  lemma FittingStaysBalanced(s: State, i: Instance, cs: Constraints, namespace: string)
    requires Inv(s) && BalancedCache(s, cs, namespace)
    requires FitsCache(s, cs, namespace, i, i.nodeName) || forall c | c in cs :: !CountsFor(c, namespace, i)
    ensures BalancedCache(Applied(s, Assume(i)), cs, namespace)
  {
    hide Inv, CountedIn, NodeOf, SelectorMatches, Applied;
    var t := Applied(s, Assume(i));
    if i.uid == "" || i.uid in s.states {
      assert t == s by { NothingAssumed(s, i); }
    } else {
      AssumedFields(s, i);
      forall c, a, b | c in cs && Candidate(t, cs, a) && Candidate(t, cs, b)
        ensures |CountedIn(t, cs, c, namespace, Domain(t, a, c))| - |CountedIn(t, cs, c, namespace, Domain(t, b, c))|
                <= c.maxSkew
      {
        CountedAfter(s, i, cs, c, namespace, Domain(t, a, c));
        CountedAfter(s, i, cs, c, namespace, Domain(t, b, c));
        assert Candidate(s, cs, a) && Candidate(s, cs, b);
        assert CountsFor(c, namespace, i) ==> SelfCount(i, c) == 1;
      }
    }
  }

  lemma NothingAssumed(s: State, i: Instance)
    requires i.uid == "" || i.uid in s.states
    ensures Applied(s, Assume(i)) == s
  {
  }

  // ---- Runs ------------------------------------------------------------------------------------

  /** What happens: a snapshot, an instance assumed on a node that passed the filter over it, or a
      cache operation. */
  datatype Move = Look | Place(inst: Instance, infos: seq<Info>, at: nat) | Do(op: Op)

  function NextMove(p: Progress, m: Move): Progress {
    match m
    case Look => p.(view := Some(p.cache))
    case Place(inst, infos, at) =>
      if at < |infos| then Progress(Applied(p.cache, Assume(inst.(nodeName := infos[at].node.name))), None) else p
    case Do(op) => p.(cache := Applied(p.cache, op))
  }

  /** Instances that are placed carry the constraints and fit over the snapshot, or are not counted;
      operations change neither nodes nor where counted instances are. */
  ghost predicate Allowed(p: Progress, m: Move, cs: Constraints, namespace: string) {
    match m
    case Look => true
    case Place(inst, infos, at) =>
      && p.view.Some? && Lists(infos, p.view.value) && at < |infos|
      && ((inst.spread == cs && inst.namespace == namespace && SpreadFits(inst, infos[at], infos))
          || forall c | c in cs :: !CountsFor(c, namespace, inst))
    case Do(op) => SameCounted(p.cache, Applied(p.cache, op), cs, namespace)
  }

  /** A decision for a suitable node is such a move, for the constraints of its instance. */
  lemma DecisionIsAllowed(p: Progress, inst: Instance, infos: seq<Info>, n: Info) returns (at: nat)
    requires p.view.Some? && Lists(infos, p.view.value) && Suits(inst, n, infos)
    ensures at < |infos| && infos[at] == n && Allowed(p, Place(inst, infos, at), inst.spread, inst.namespace)
    ensures NextMove(p, Place(inst, infos, at)) == Next(p, Scheduled(inst, infos, n))
  {
    hide Lists, NoConflict, SpreadFits, RequiredMatches, Applied;
    at :| 0 <= at < |infos| && infos[at] == n;
  }

  ghost predicate Settled(p: Progress, cs: Constraints, namespace: string) {
    && Inv(p.cache) && BalancedCache(p.cache, cs, namespace)
    && (p.view.Some? ==> Inv(p.view.value) && SameCounted(p.view.value, p.cache, cs, namespace))
  }

  lemma SameCountedStaysBalanced(s: State, t: State, cs: Constraints, namespace: string)
    requires BalancedCache(s, cs, namespace) && SameCounted(s, t, cs, namespace)
    ensures BalancedCache(t, cs, namespace)
  {
    hide CountedIn, NodeOf;
    forall c, a, b | c in cs && Candidate(t, cs, a) && Candidate(t, cs, b)
      ensures |CountedIn(t, cs, c, namespace, Domain(t, a, c))| - |CountedIn(t, cs, c, namespace, Domain(t, b, c))|
              <= c.maxSkew
    {
      assert Candidate(s, cs, a) && Candidate(s, cs, b);
      SameCountedIn(s, t, cs, c, namespace, Domain(t, a, c));
      SameCountedIn(s, t, cs, c, namespace, Domain(t, b, c));
    }
  }

  lemma SameCountedThroughout(s: State, t: State, u: State, cs: Constraints, namespace: string)
    requires SameCounted(s, t, cs, namespace) && SameCounted(t, u, cs, namespace)
    ensures SameCounted(s, u, cs, namespace)
  {
    hide CountedAt, NodeOf;
  }

  lemma PlacedStaysBalanced(p: Progress, inst: Instance, infos: seq<Info>, at: nat, cs: Constraints, namespace: string)
    requires Settled(p, cs, namespace) && Proper(cs) && Allowed(p, Place(inst, infos, at), cs, namespace)
    ensures BalancedCache(NextMove(p, Place(inst, infos, at)).cache, cs, namespace)
  {
    hide Inv, BalancedCache, SameCounted, Proper, Applied, Lists, SpreadFits, SelectorMatches, FitsCache;
    var i := inst.(nodeName := infos[at].node.name);
    if inst.spread == cs && inst.namespace == namespace && SpreadFits(inst, infos[at], infos) {
      FilterFitsCache(p.view.value, infos, at, inst);
      FitsStays(p.view.value, p.cache, cs, namespace, inst, i.nodeName);
      NameIsNotCounted(p.cache, inst, i, cs, namespace);
    } else {
      assert forall c | c in cs :: !CountsFor(c, namespace, i);
    }
    FittingStaysBalanced(p.cache, i, cs, namespace);
  }

  /** The node name an instance is given does not matter to whether it fits. */
  lemma NameIsNotCounted(s: State, a: Instance, b: Instance, cs: Constraints, namespace: string)
    requires b == a.(nodeName := b.nodeName) && FitsCache(s, cs, namespace, a, b.nodeName)
    ensures FitsCache(s, cs, namespace, b, b.nodeName)
  {
    hide SelectorMatches, CountedIn, Candidate;
    assert forall c :: SelfCount(a, c) == SelfCount(b, c);
  }

  lemma MoveKeepsSettled(p: Progress, m: Move, cs: Constraints, namespace: string)
    requires Settled(p, cs, namespace) && Proper(cs) && Allowed(p, m, cs, namespace)
    ensures Settled(NextMove(p, m), cs, namespace)
  {
    hide Inv, BalancedCache, SameCounted, Proper, Applied, Lists, SpreadFits, CountsFor;
    match m
    case Look => SameCountedAsItself(p.cache, cs, namespace);
    case Place(inst, infos, at) =>
      StepRefines(p.cache, Assume(inst.(nodeName := infos[at].node.name)));
      PlacedStaysBalanced(p, inst, infos, at, cs, namespace);
    case Do(op) =>
      StepRefines(p.cache, op);
      SameCountedStaysBalanced(p.cache, Applied(p.cache, op), cs, namespace);
      if p.view.Some? {
        SameCountedThroughout(p.view.value, p.cache, Applied(p.cache, op), cs, namespace);
      }
  }

  lemma SameCountedAsItself(s: State, cs: Constraints, namespace: string)
    ensures SameCounted(s, s, cs, namespace)
  {
  }

  ghost predicate AllAllowed(p: Progress, moves: seq<Move>, cs: Constraints, namespace: string)
    decreases |moves|
  {
    moves != [] ==> Allowed(p, moves[0], cs, namespace) && AllAllowed(NextMove(p, moves[0]), moves[1..], cs, namespace)
  }

  function AfterMoves(p: Progress, moves: seq<Move>): Progress
    decreases |moves|
  {
    if moves == [] then p else AfterMoves(NextMove(p, moves[0]), moves[1..])
  }

  /** Over every run the cache stays balanced for the constraints: snapshots, decisions over them for
      instances that carry the constraints or that they do not count, and, between these too,
      operations that leave the counted instances where they are. */
  lemma {:induction false} CacheStaysBalanced(p: Progress, moves: seq<Move>, cs: Constraints, namespace: string)
    requires Settled(p, cs, namespace) && Proper(cs) && AllAllowed(p, moves, cs, namespace)
    ensures Inv(AfterMoves(p, moves).cache) && BalancedCache(AfterMoves(p, moves).cache, cs, namespace)
    decreases |moves|
  {
    hide Inv, BalancedCache, Allowed, Proper, NextMove;
    if moves != [] {
      MoveKeepsSettled(p, moves[0], cs, namespace);
      CacheStaysBalanced(NextMove(p, moves[0]), moves[1..], cs, namespace);
    }
  }

  /** Alike in everything the constraints depend on. */
  predicate CountedAlike(a: Instance, b: Instance) {
    a.nodeName == b.nodeName && a.namespace == b.namespace && a.labels == b.labels && a.deleting == b.deleting
  }

  predicate NotCounted(s: State, k: UID, cs: Constraints, namespace: string) {
    k in s.states ==> forall c | c in cs :: !CountsFor(c, namespace, s.states[k].instance)
  }

  /** The operations that leave the counted instances where they are: finishing a binding, confirming
      or updating an instance where it is, and letting go of instances that are not counted. */
  lemma HarmlessOperations(s: State, op: Op, cs: Constraints, namespace: string)
    requires Inv(s)
    requires match op
             case FinishBinding(_) => true
             case Add(i) => i.uid in s.states && CountedAlike(i, s.states[i.uid].instance)
             case Update(o, i) => o.uid in s.states ==> CountedAlike(i, s.states[o.uid].instance)
             case Forget(i) => NotCounted(s, i.uid, cs, namespace)
             case Remove(i) => NotCounted(s, i.uid, cs, namespace)
             case Cleanup => forall k | k in Expired(s) :: NotCounted(s, k, cs, namespace)
             case _ => false
    ensures SameCounted(s, Applied(s, op), cs, namespace)
  {
    hide Inv, Applied, Abs, CountsFor, NodeOf;
    var t := Applied(s, op);
    StepRefines(s, op);
    AbsIs(s);
    AbsIs(t);
    assert Abs(t).nodes == Abs(s).nodes;
    forall n ensures NodeOf(t, n) == NodeOf(s, n) {
      assert NodeOf(t, n).Some? <==> n in Abs(t).nodes;
      assert NodeOf(s, n).Some? <==> n in Abs(s).nodes;
    }
    forall c, k, name | c in cs ensures CountedAt(t, c, namespace, k, name) <==> CountedAt(s, c, namespace, k, name) {
      KnownAfter(s, op, cs, namespace, c, k);
    }
  }

  lemma KnownAfter(s: State, op: Op, cs: Constraints, namespace: string, c: SpreadConstraint, k: UID)
    requires Inv(s) && c in cs
    requires match op
             case FinishBinding(_) => true
             case Add(i) => i.uid in s.states && CountedAlike(i, s.states[i.uid].instance)
             case Update(o, i) => o.uid in s.states ==> CountedAlike(i, s.states[o.uid].instance)
             case Forget(i) => NotCounted(s, i.uid, cs, namespace)
             case Remove(i) => NotCounted(s, i.uid, cs, namespace)
             case Cleanup => forall k | k in Expired(s) :: NotCounted(s, k, cs, namespace)
             case _ => false
    ensures var t := Applied(s, op);
            || (k in t.states && k in s.states && CountedAlike(t.states[k].instance, s.states[k].instance)
                && (CountsFor(c, namespace, t.states[k].instance) <==> CountsFor(c, namespace, s.states[k].instance)))
            || (k !in t.states && (k in s.states ==> !CountsFor(c, namespace, s.states[k].instance)))
  {
    hide Inv, SelectorMatches, Removed, Inserted, Purged;
    if op.Cleanup? {
      assert Applied(s, op).states == s.states - Expired(s) by { PurgedStates(s); }
    } else {
      OtherStates();
    }
  }

  lemma PurgedStates(s: State)
    ensures Purged(s, Expired(s)).states == s.states - Expired(s)
  {
  }

  lemma OtherStates()
    ensures forall r: State, key, container :: Removed(r, key, container).states == r.states - {key}
    ensures forall r: State, key, i, onTrust ::
              Inserted(r, key, i, onTrust).states == r.states[key := InstanceState(i, false)]
  {
  }
}
