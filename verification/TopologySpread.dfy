/** The scheduler's topology spread filter (internal/controllers/scheduler_controller.go) and the
    balance it keeps. */
module TopologySpread {
  import opened Wrappers
  import opened Api
  import opened Labels
  import opened SchedulerCache
  import opened AntiAffinity

  type Constraints = seq<SpreadConstraint>

  // ---- What is counted -------------------------------------------------------------------------

  predicate CountsFor(c: SpreadConstraint, namespace: string, i: Instance) {
    !i.deleting && i.namespace == namespace && SelectorMatches(c.selector, i.labels)
  }

  function Matching(n: Info, c: SpreadConstraint, namespace: string): set<UID> {
    set k | k in n.instances && CountsFor(c, namespace, n.instances[k])
  }

  /** countInstancesMatchSelector: for an empty selector nothing is counted. */
  function Counted(n: Info, c: SpreadConstraint, namespace: string): nat {
    if SelectorIsEmpty(c.selector) then 0 else |Matching(n, c, namespace)|
  }

  predicate Eligible(n: Info, cs: Constraints) {
    forall c | c in cs :: c.topologyKey in n.node.labels
  }

  function EligibleOnes(infos: seq<Info>, cs: Constraints): (r: seq<Info>)
    ensures forall n | n in r :: Eligible(n, cs)
  {
    if infos == [] then []
    else EligibleOnes(infos[..|infos| - 1], cs) + if Eligible(infos[|infos| - 1], cs) then [infos[|infos| - 1]] else []
  }

  lemma {:induction false} EligibleOnesAre(infos: seq<Info>, cs: Constraints)
    ensures forall n :: n in EligibleOnes(infos, cs) <==> n in infos && Eligible(n, cs)
  {
    if infos != [] {
      EligibleOnesAre(infos[..|infos| - 1], cs);
      assert infos == infos[..|infos| - 1] + [infos[|infos| - 1]];
    }
  }

  predicate InPair(n: Info, c: SpreadConstraint, p: Pair) {
    c.topologyKey == p.key && c.topologyKey in n.node.labels && n.node.labels[c.topologyKey] == p.value
  }

  /** What a node adds to the count of a pair: constraints of one topology key share it. */
  function Share(n: Info, cs: Constraints, namespace: string, p: Pair): nat {
    if cs == [] then 0
    else
      var c := cs[|cs| - 1];
      Share(n, cs[..|cs| - 1], namespace, p) + if InPair(n, c, p) then Counted(n, c, namespace) else 0
  }

  function PairCount(nodes: seq<Info>, cs: Constraints, namespace: string, p: Pair): nat {
    if nodes == [] then 0
    else PairCount(nodes[..|nodes| - 1], cs, namespace, p) + Share(nodes[|nodes| - 1], cs, namespace, p)
  }

  ghost predicate IsPairOf(n: Info, cs: Constraints, p: Pair) {
    exists c :: c in cs && InPair(n, c, p)
  }

  ghost predicate IsPair(nodes: seq<Info>, cs: Constraints, p: Pair) {
    exists n :: n in nodes && IsPairOf(n, cs, p)
  }

  function Get(counts: Counts, p: Pair): nat {
    if p in counts then counts[p] else 0
  }

  method CountMatching(n: Info, c: SpreadConstraint, namespace: string) returns (count: nat)
    ensures count == Counted(n, c, namespace)
  {
    hide SelectorMatches, MatchingIn;
    if SelectorIsEmpty(c.selector) {
      return 0;
    }
    NoKeys(n, c, namespace);
    count := 0;
    var rest := n.instances.Keys;
    ghost var seen: set<UID> := {};
    while rest != {}
      invariant rest <= n.instances.Keys && seen == n.instances.Keys - rest
      invariant count == |MatchingIn(n, c, namespace, seen)|
    {
      var key :| key in rest;
      rest := rest - {key};
      OneMoreKey(n, c, namespace, seen, key);
      seen := seen + {key};
      var inst := n.instances[key];
      if inst.deleting || inst.namespace != namespace {
        continue;
      }
      if SelectorMatches(c.selector, inst.labels) {
        count := count + 1;
      }
    }
    AllKeys(n, c, namespace, seen);
  }

  function MatchingIn(n: Info, c: SpreadConstraint, namespace: string, keys: set<UID>): set<UID> {
    set k | k in keys && k in n.instances && CountsFor(c, namespace, n.instances[k])
  }

  lemma NoKeys(n: Info, c: SpreadConstraint, namespace: string)
    ensures MatchingIn(n, c, namespace, {}) == {}
  {
  }

  lemma AllKeys(n: Info, c: SpreadConstraint, namespace: string, keys: set<UID>)
    requires keys == n.instances.Keys
    ensures MatchingIn(n, c, namespace, keys) == Matching(n, c, namespace)
  {
  }

  lemma OneMoreKey(n: Info, c: SpreadConstraint, namespace: string, keys: set<UID>, key: UID)
    requires key in n.instances && key !in keys
    ensures |MatchingIn(n, c, namespace, keys + {key})| ==
              |MatchingIn(n, c, namespace, keys)| + if CountsFor(c, namespace, n.instances[key]) then 1 else 0
  {
    hide CountsFor;
    var before := MatchingIn(n, c, namespace, keys);
    assert MatchingIn(n, c, namespace, keys + {key}) == if CountsFor(c, namespace, n.instances[key]) then
      before + {key} else before;
  }

  /** One node's part of the counts. */
  method CountNode(n: Info, cs: Constraints, namespace: string, before: Counts) returns (counts: Counts)
    requires Eligible(n, cs)
    ensures forall p :: p in counts <==> p in before || IsPairOf(n, cs, p)
    ensures forall p :: Get(counts, p) == Get(before, p) + Share(n, cs, namespace, p)
  {
    hide Counted, Share, IsPairOf, InPair;
    counts := before;
    NoConstraints(n, namespace);
    assert cs[..0] == [];
    for j := 0 to |cs|
      invariant forall p :: p in counts <==> p in before || IsPairOf(n, cs[..j], p)
      invariant forall p :: Get(counts, p) == Get(before, p) + Share(n, cs[..j], namespace, p)
    {
      var c := cs[j];
      assert cs[..j + 1] == cs[..j] + [c] && c in cs;
      var pair := Pair(c.topologyKey, n.node.labels[c.topologyKey]);
      var count := CountMatching(n, c, namespace);
      OnlyPair(n, c, pair);
      forall p
        ensures Share(n, cs[..j + 1], namespace, p) == Share(n, cs[..j], namespace, p) + if p == pair then count else 0
        ensures IsPairOf(n, cs[..j + 1], p) <==> IsPairOf(n, cs[..j], p) || p == pair
      {
        OneMoreConstraint(n, cs[..j], c, namespace, p);
      }
      counts := counts[pair := Get(counts, pair) + count];
    }
    assert cs[..|cs|] == cs;
  }

  lemma NoConstraints(n: Info, namespace: string)
    ensures forall p :: Share(n, [], namespace, p) == 0 && !IsPairOf(n, [], p)
  {
  }

  lemma OnlyPair(n: Info, c: SpreadConstraint, pair: Pair)
    requires c.topologyKey in n.node.labels && pair == PairOf(n, c)
    ensures forall p :: InPair(n, c, p) <==> p == pair
  {
  }

  lemma OneMoreConstraint(n: Info, cs: Constraints, c: SpreadConstraint, namespace: string, p: Pair)
    ensures Share(n, cs + [c], namespace, p) == Share(n, cs, namespace, p) + if InPair(n, c, p) then
      Counted(n, c, namespace) else 0
    ensures IsPairOf(n, cs + [c], p) <==> IsPairOf(n, cs, p) || InPair(n, c, p)
  {
    hide Counted, InPair;
    assert (cs + [c])[..|cs|] == cs;
    assert c in cs + [c] && forall d | d in cs :: d in cs + [c];
  }

  lemma OneMoreNode(nodes: seq<Info>, n: Info, cs: Constraints, namespace: string, p: Pair)
    ensures PairCount(nodes + [n], cs, namespace, p) == PairCount(nodes, cs, namespace, p) + Share(n, cs, namespace, p)
    ensures IsPair(nodes + [n], cs, p) <==> IsPair(nodes, cs, p) || IsPairOf(n, cs, p)
  {
    hide Share, IsPairOf;
    assert (nodes + [n])[..|nodes|] == nodes;
    assert n in nodes + [n] && forall m | m in nodes :: m in nodes + [n];
  }

  method CountPairs(infos: seq<Info>, cs: Constraints, namespace: string) returns (tpCounts: Counts, tpNodes: seq<Info>)
    ensures tpNodes == EligibleOnes(infos, cs)
    ensures forall p :: p in tpCounts <==> IsPair(tpNodes, cs, p)
    ensures forall p | p in tpCounts :: tpCounts[p] == PairCount(tpNodes, cs, namespace, p)
  {
    hide Share, IsPairOf;
    tpCounts, tpNodes := map[], [];
    for i := 0 to |infos|
      invariant tpNodes == EligibleOnes(infos[..i], cs)
      invariant forall p :: p in tpCounts <==> IsPair(tpNodes, cs, p)
      invariant forall p :: Get(tpCounts, p) == PairCount(tpNodes, cs, namespace, p)
    {
      assert infos[..i + 1][..i] == infos[..i];
      if !Eligible(infos[i], cs) {
        continue;
      }
      var counts := CountNode(infos[i], cs, namespace, tpCounts);
      forall p
        ensures PairCount(tpNodes + [infos[i]], cs, namespace, p) ==
                  PairCount(tpNodes, cs, namespace, p) + Share(infos[i], cs, namespace, p)
        ensures IsPair(tpNodes + [infos[i]], cs, p) <==> IsPair(tpNodes, cs, p) || IsPairOf(infos[i], cs, p)
      {
        OneMoreNode(tpNodes, infos[i], cs, namespace, p);
      }
      tpCounts := counts;
      tpNodes := tpNodes + [infos[i]];
    }
    assert infos[..|infos|] == infos;
    assert forall p | p in tpCounts :: tpCounts[p] == Get(tpCounts, p);
  }

  // ---- What the counts mean --------------------------------------------------------------------

  /** The elements of the sets, each with the places of the sets it is in. */
  ghost function Tagged<T(!new)>(sets: seq<set<T>>): set<(int, T)> {
    set i, x | 0 <= i < |sets| && x in sets[i] :: (i, x)
  }

  lemma {:induction false} TaggedOneCard<T(!new)>(s: set<T>, i: int)
    ensures |set x | x in s :: (i, x)| == |s|
  {
    if s == {} {
      assert (set x | x in s :: (i, x)) == {};
    } else {
      var y :| y in s;
      TaggedOneCard(s - {y}, i);
      assert (set x | x in s :: (i, x)) == (set x | x in s - {y} :: (i, x)) + {(i, y)};
    }
  }

  lemma TaggedMore<T(!new)>(sets: seq<set<T>>, s: set<T>)
    ensures |Tagged(sets + [s])| == |Tagged(sets)| + |s|
    ensures Tagged<T>([]) == {}
  {
    var last := set x | x in s :: (|sets|, x);
    TaggedOneCard(s, |sets|);
    assert Tagged(sets + [s]) == Tagged(sets) + last && Tagged(sets) !! last;
  }

  /** What each constraint counts on a node of the pair. */
  ghost function KeysOn(n: Info, cs: Constraints, namespace: string, p: Pair): seq<set<UID>> {
    seq(|cs|, j requires 0 <= j < |cs| =>
      if InPair(n, cs[j], p) && !SelectorIsEmpty(cs[j].selector) then Matching(n, cs[j], namespace) else {})
  }

  lemma {:induction false} ShareMeans(n: Info, cs: Constraints, namespace: string, p: Pair)
    ensures Share(n, cs, namespace, p) == |Tagged(KeysOn(n, cs, namespace, p))|
  {
    hide InPair, Matching, SelectorIsEmpty, Tagged;
    if cs == [] {
      TaggedMore<UID>([], {});
    } else {
      var l := |cs| - 1;
      ShareMeans(n, cs[..l], namespace, p);
      var s := KeysOn(n, cs, namespace, p)[l];
      assert KeysOn(n, cs, namespace, p) == KeysOn(n, cs[..l], namespace, p) + [s];
      TaggedMore(KeysOn(n, cs[..l], namespace, p), s);
    }
  }

  /** What each node adds, if it is eligible. */
  ghost function KeysOnAll(infos: seq<Info>, cs: Constraints, namespace: string, p: Pair): seq<set<(int, UID)>> {
    seq(|infos|, m requires 0 <= m < |infos| =>
      if Eligible(infos[m], cs) then Tagged(KeysOn(infos[m], cs, namespace, p)) else {})
  }

  lemma {:induction false} EligibleCountMeans(infos: seq<Info>, cs: Constraints, namespace: string, p: Pair)
    ensures PairCount(EligibleOnes(infos, cs), cs, namespace, p) == |Tagged(KeysOnAll(infos, cs, namespace, p))|
  {
    hide Eligible, KeysOn, Tagged, Share;
    if infos == [] {
      TaggedMore<(int, UID)>([], {});
    } else {
      hide PairCount, EligibleOnes;
      var l := |infos| - 1;
      EligibleCountMeans(infos[..l], cs, namespace, p);
      ShareMeans(infos[l], cs, namespace, p);
      var s := KeysOnAll(infos, cs, namespace, p)[l];
      assert KeysOnAll(infos, cs, namespace, p) == KeysOnAll(infos[..l], cs, namespace, p) + [s];
      TaggedMore(KeysOnAll(infos[..l], cs, namespace, p), s);
      LastEligible(infos, cs);
      OneMoreNode(EligibleOnes(infos[..l], cs), infos[l], cs, namespace, p);
      assert EligibleOnes(infos[..l], cs) + [] == EligibleOnes(infos[..l], cs);
    }
  }

  /** The count of a pair is the number of the instances on eligible nodes of that domain, each once for
      every constraint of the key that selects it: of the namespace, not being deleted, and matched by
      a selector that is not empty. */
  lemma PairCountMeans(infos: seq<Info>, cs: Constraints, namespace: string, p: Pair)
    ensures PairCount(EligibleOnes(infos, cs), cs, namespace, p) ==
              |set m, j, k | 0 <= m < |infos| && 0 <= j < |cs| && k in infos[m].instances
                          && (forall d | d in cs :: d.topologyKey in infos[m].node.labels)
                          && cs[j].topologyKey == p.key && infos[m].node.labels[p.key] == p.value
                          && infos[m].instances[k].namespace == namespace && !infos[m].instances[k].deleting
                          && SelectorMatches(cs[j].selector, infos[m].instances[k].labels) && cs[j].selector.Some?
                          && (cs[j].selector.value.matchLabels != map[] || cs[j].selector.value.matchExpressions != [])
                 :: (m, (j, k))|
  {
    hide SelectorMatches, PairCount, EligibleOnes, Tagged, KeysOnAll;
    EligibleCountMeans(infos, cs, namespace, p);
    var counted := set m, j, k | 0 <= m < |infos| && 0 <= j < |cs| && k in infos[m].instances
                              && (forall d | d in cs :: d.topologyKey in infos[m].node.labels)
                              && cs[j].topologyKey == p.key && infos[m].node.labels[p.key] == p.value
                              && infos[m].instances[k].namespace == namespace && !infos[m].instances[k].deleting
                              && SelectorMatches(cs[j].selector, infos[m].instances[k].labels) && cs[j].selector.Some?
                              && (cs[j].selector.value.matchLabels != map[]
                                  || cs[j].selector.value.matchExpressions != [])
                     :: (m, (j, k));
    forall x ensures x in counted <==> x in Tagged(KeysOnAll(infos, cs, namespace, p)) {
      AddedMeans(infos, cs, namespace, p, x.0, x.1.0, x.1.1);
      assert x == (x.0, (x.1.0, x.1.1));
    }
    assert counted == Tagged(KeysOnAll(infos, cs, namespace, p));
  }

  lemma AddedMeans(infos: seq<Info>, cs: Constraints, namespace: string, p: Pair, m: int, j: int, k: UID)
    ensures (m, (j, k)) in Tagged(KeysOnAll(infos, cs, namespace, p)) <==>
              && 0 <= m < |infos| && 0 <= j < |cs| && k in infos[m].instances
              && (forall d | d in cs :: d.topologyKey in infos[m].node.labels)
              && cs[j].topologyKey == p.key && infos[m].node.labels[p.key] == p.value
              && infos[m].instances[k].namespace == namespace && !infos[m].instances[k].deleting
              && SelectorMatches(cs[j].selector, infos[m].instances[k].labels) && cs[j].selector.Some?
              && (cs[j].selector.value.matchLabels != map[] || cs[j].selector.value.matchExpressions != [])
  {
  }

  // ---- The critical paths ----------------------------------------------------------------------

  datatype CriticalPath = CriticalPath(value: string, count: nat)

  /** Whatever the order of the pairs, the critical path of a key is a pair of it with the least
      count. */
  method CriticalPaths(tpCounts: Counts) returns (paths: map<string, CriticalPath>)
    ensures forall p | p in tpCounts :: p.key in paths && paths[p.key].count <= tpCounts[p]
    ensures forall key | key in paths ::
              Pair(key, paths[key].value) in tpCounts && tpCounts[Pair(key, paths[key].value)] == paths[key].count
  {
    paths := map[];
    var rest := tpCounts.Keys;
    while rest != {}
      invariant rest <= tpCounts.Keys
      invariant forall p | p in tpCounts && p !in rest :: p.key in paths && paths[p.key].count <= tpCounts[p]
      invariant forall key | key in paths ::
                  Pair(key, paths[key].value) in tpCounts && tpCounts[Pair(key, paths[key].value)] == paths[key].count
    {
      var pair :| pair in rest;
      rest := rest - {pair};
      var count := tpCounts[pair];
      if pair.key in paths && paths[pair.key].count < count {
        continue;
      }
      paths := paths[pair.key := CriticalPath(pair.value, count)];
    }
  }

  // ---- Filtering -------------------------------------------------------------------------------

  function PairOf(n: Info, c: SpreadConstraint): Pair
    requires c.topologyKey in n.node.labels
  {
    Pair(c.topologyKey, n.node.labels[c.topologyKey])
  }

  function SelfCount(inst: Instance, c: SpreadConstraint): nat {
    if SelectorMatches(c.selector, inst.labels) then 1 else 0
  }

  /** With the instance on the node, the node's domain would exceed no domain of the same key by
      more than the skew allowed. */
  ghost predicate FitsConstraint(inst: Instance, n: Info, c: SpreadConstraint, nodes: seq<Info>)
    requires c.topologyKey in n.node.labels
  {
    forall p | IsPair(nodes, inst.spread, p) && p.key == c.topologyKey ::
      PairCount(nodes, inst.spread, inst.namespace, PairOf(n, c)) + SelfCount(inst, c) -
          PairCount(nodes, inst.spread, inst.namespace, p) <= c.maxSkew
  }

  ghost predicate SpreadFits(inst: Instance, n: Info, infos: seq<Info>) {
    && Eligible(n, inst.spread)
    && forall c | c in inst.spread :: FitsConstraint(inst, n, c, EligibleOnes(infos, inst.spread))
  }

  /** What fits, over the nodes instead of their pairs: the node has all the topology keys, and with the
      instance its domain would hold at most the skew more than that of any node that has them too. */
  lemma SpreadFitsMeans(inst: Instance, n: Info, infos: seq<Info>)
    ensures SpreadFits(inst, n, infos) <==>
              && (forall c | c in inst.spread :: c.topologyKey in n.node.labels)
              && forall c, m | c in inst.spread && m in infos
                               && (forall d | d in inst.spread :: d.topologyKey in m.node.labels) ::
                   var nodes := EligibleOnes(infos, inst.spread);
                   PairCount(nodes, inst.spread, inst.namespace, Pair(c.topologyKey, n.node.labels[c.topologyKey]))
                   + (if SelectorMatches(c.selector, inst.labels) then 1 else 0)
                   - PairCount(nodes, inst.spread, inst.namespace, Pair(c.topologyKey, m.node.labels[c.topologyKey]))
                   <= c.maxSkew
  {
    hide PairCount, SelectorMatches, EligibleOnes;
    var nodes := EligibleOnes(infos, inst.spread);
    EligibleOnesAre(infos, inst.spread);
    forall c, m | c in inst.spread && m in nodes
      ensures IsPair(nodes, inst.spread, Pair(c.topologyKey, m.node.labels[c.topologyKey]))
    {
      assert InPair(m, c, Pair(c.topologyKey, m.node.labels[c.topologyKey]));
      assert IsPairOf(m, inst.spread, Pair(c.topologyKey, m.node.labels[c.topologyKey]));
    }
    forall c, p | c in inst.spread && IsPair(nodes, inst.spread, p) && p.key == c.topologyKey
      ensures exists m :: m in nodes && p == Pair(c.topologyKey, m.node.labels[c.topologyKey])
    {
      var m :| m in nodes && IsPairOf(m, inst.spread, p);
    }
  }

  /** The filter's comparison with the critical path is the comparison with every domain. */
  lemma LeastDecides(inst: Instance, n: Info, c: SpreadConstraint, nodes: seq<Info>, tpCounts: Counts,
                     paths: map<string, CriticalPath>)
    requires n in nodes && Eligible(n, inst.spread) && c in inst.spread
    requires forall p :: p in tpCounts <==> IsPair(nodes, inst.spread, p)
    requires forall p | p in tpCounts :: tpCounts[p] == PairCount(nodes, inst.spread, inst.namespace, p)
    requires forall p | p in tpCounts :: p.key in paths && paths[p.key].count <= tpCounts[p]
    requires forall key | key in paths ::
               Pair(key, paths[key].value) in tpCounts && tpCounts[Pair(key, paths[key].value)] == paths[key].count
    ensures PairOf(n, c) in tpCounts && c.topologyKey in paths
    ensures FitsConstraint(inst, n, c, nodes) <==>
              tpCounts[PairOf(n, c)] + SelfCount(inst, c) - paths[c.topologyKey].count <= c.maxSkew
  {
    hide PairCount, SelfCount;
    assert InPair(n, c, PairOf(n, c));
    assert IsPairOf(n, inst.spread, PairOf(n, c));
    assert PairOf(n, c) in tpCounts;
    var least := Pair(c.topologyKey, paths[c.topologyKey].value);
    assert IsPair(nodes, inst.spread, least);
  }

  /** filterNodesByTopology. A selector that does not parse is an error. */
  method FilterByTopology(inst: Instance, infos: seq<Info>) returns (r: Option<seq<Info>>)
    ensures r.Some? <==> forall c | c in inst.spread :: Parses(c.selector)
    ensures r.Some? ==> forall n :: n in r.value <==> n in infos && SpreadFits(inst, n, infos)
  {
    hide PairCount, SelfCount, FitsConstraint, IsPair, SelectorMatches, Parses;
    if exists c :: c in inst.spread && !Parses(c.selector) {
      return None;
    }
    var tpCounts, tpNodes := CountPairs(infos, inst.spread, inst.namespace);
    EligibleOnesAre(infos, inst.spread);
    var paths := CriticalPaths(tpCounts);
    var filtered := [];
    for i := 0 to |tpNodes|
      invariant forall n :: n in filtered <==> n in tpNodes[..i] && SpreadFits(inst, n, infos)
    {
      assert tpNodes[..i + 1] == tpNodes[..i] + [tpNodes[i]];
      var ok := SkewsAllow(inst, tpNodes[i], tpNodes, tpCounts, paths);
      if !ok {
        continue;
      }
      filtered := filtered + [tpNodes[i]];
    }
    assert tpNodes[..|tpNodes|] == tpNodes;
    r := Some(filtered);
  }

  method SkewsAllow(inst: Instance, n: Info, ghost nodes: seq<Info>, tpCounts: Counts,
                    paths: map<string, CriticalPath>) returns (ok: bool)
    requires n in nodes && Eligible(n, inst.spread)
    requires forall p :: p in tpCounts <==> IsPair(nodes, inst.spread, p)
    requires forall p | p in tpCounts :: tpCounts[p] == PairCount(nodes, inst.spread, inst.namespace, p)
    requires forall p | p in tpCounts :: p.key in paths && paths[p.key].count <= tpCounts[p]
    requires forall key | key in paths ::
               Pair(key, paths[key].value) in tpCounts && tpCounts[Pair(key, paths[key].value)] == paths[key].count
    ensures ok <==> forall c | c in inst.spread :: FitsConstraint(inst, n, c, nodes)
  {
    hide PairCount, FitsConstraint, IsPair, SelectorMatches;
    for j := 0 to |inst.spread|
      invariant forall c | c in inst.spread[..j] :: FitsConstraint(inst, n, c, nodes)
    {
      var c := inst.spread[j];
      LeastDecides(inst, n, c, nodes, tpCounts, paths);
      assert inst.spread[..j + 1] == inst.spread[..j] + [c];
      var selfCount := if SelectorMatches(c.selector, inst.labels) then 1 else 0;
      var skew := tpCounts[PairOf(n, c)] + selfCount - paths[c.topologyKey].count;
      if skew > c.maxSkew {
        return false;
      }
    }
    assert inst.spread[..|inst.spread|] == inst.spread;
    ok := true;
  }

  // ---- Balance ---------------------------------------------------------------------------------

  ghost predicate DistinctKeys(cs: Constraints) {
    forall i, j | 0 <= i < j < |cs| :: cs[i].topologyKey != cs[j].topologyKey
  }

  /** How many instances a domain really holds: over its nodes, those the constraint selects. */
  function DomainCount(nodes: seq<Info>, c: SpreadConstraint, namespace: string, value: string): nat {
    if nodes == [] then 0
    else
      var n := nodes[|nodes| - 1];
      DomainCount(nodes[..|nodes| - 1], c, namespace, value) +
      if InPair(n, c, Pair(c.topologyKey, value)) then |Matching(n, c, namespace)| else 0
  }

  /** With distinct topology keys and a selector that is not empty, the count of a pair is that of
      the domain. */
  lemma {:induction false} PairCountIsDomainCount(nodes: seq<Info>, cs: Constraints, namespace: string,
                                                  c: SpreadConstraint, value: string)
    requires DistinctKeys(cs) && c in cs && !SelectorIsEmpty(c.selector)
    ensures PairCount(nodes, cs, namespace, Pair(c.topologyKey, value)) == DomainCount(nodes, c, namespace, value)
  {
    if nodes != [] {
      PairCountIsDomainCount(nodes[..|nodes| - 1], cs, namespace, c, value);
      ShareIsOwn(nodes[|nodes| - 1], cs, namespace, c, value);
    }
  }

  lemma {:induction false} ShareIsOwn(n: Info, cs: Constraints, namespace: string, c: SpreadConstraint, value: string)
    requires DistinctKeys(cs)
    ensures c in cs ==>
              Share(n, cs, namespace, Pair(c.topologyKey, value)) == if InPair(n, c, Pair(c.topologyKey, value)) then
                Counted(n, c, namespace) else 0
    ensures (forall d | d in cs :: d.topologyKey != c.topologyKey) ==>
              Share(n, cs, namespace, Pair(c.topologyKey, value)) == 0
  {
    hide Counted;
    if cs != [] {
      var init, last := cs[..|cs| - 1], cs[|cs| - 1];
      assert cs == init + [last];
      ShareIsOwn(n, init, namespace, c, value);
      assert forall d | d in init :: d.topologyKey != last.topologyKey;
    }
  }

  /** For each constraint no domain holds more than the allowed skew above another. */
  ghost predicate Balanced(nodes: seq<Info>, cs: Constraints, namespace: string) {
    forall c, n, m | c in cs && n in nodes && m in nodes && Eligible(n, cs) && Eligible(m, cs) ::
      DomainCount(nodes, c, namespace, n.node.labels[c.topologyKey]) -
          DomainCount(nodes, c, namespace, m.node.labels[c.topologyKey]) <= c.maxSkew
  }

  ghost predicate Proper(cs: Constraints) {
    DistinctKeys(cs) && forall c | c in cs :: !SelectorIsEmpty(c.selector)
  }

  function WithInstance(infos: seq<Info>, at: nat, i: Instance): seq<Info>
    requires at < |infos|
  {
    infos[at := Info(infos[at].node, infos[at].instances[i.uid := i])]
  }

  /** Placing an instance adds one to the domain of its node if the constraint selects it, and
      changes no other count. */
  lemma {:induction false} DomainCountAfter(nodes: seq<Info>, at: nat, i: Instance, c: SpreadConstraint,
                                            namespace: string, value: string)
    requires at < |nodes| && i.uid !in nodes[at].instances
    ensures DomainCount(WithInstance(nodes, at, i), c, namespace, value) ==
              DomainCount(nodes, c, namespace, value) +
              if InPair(nodes[at], c, Pair(c.topologyKey, value)) && CountsFor(c, namespace, i) then 1 else 0
  {
    hide CountsFor;
    var after := WithInstance(nodes, at, i);
    var k := |nodes| - 1;
    if at < k {
      DomainCountAfter(nodes[..k], at, i, c, namespace, value);
      assert after[..k] == WithInstance(nodes[..k], at, i);
    } else {
      assert after[..k] == nodes[..k];
      MatchingAfter(nodes[at], i, c, namespace);
    }
  }

  lemma MatchingAfter(n: Info, i: Instance, c: SpreadConstraint, namespace: string)
    requires i.uid !in n.instances
    ensures var m := Info(n.node, n.instances[i.uid := i]);
            |Matching(m, c, namespace)| == |Matching(n, c, namespace)| + if CountsFor(c, namespace, i) then 1 else 0
  {
    hide CountsFor;
    var m := Info(n.node, n.instances[i.uid := i]);
    if CountsFor(c, namespace, i) {
      assert Matching(m, c, namespace) == Matching(n, c, namespace) + {i.uid};
    } else {
      assert Matching(m, c, namespace) == Matching(n, c, namespace);
    }
  }

  lemma EligibilityStays(n: Info, i: Instance, cs: Constraints)
    ensures Eligible(Info(n.node, n.instances[i.uid := i]), cs) <==> Eligible(n, cs)
  {
  }

  lemma {:induction false} EligibleAfter(infos: seq<Info>, at: nat, i: Instance, cs: Constraints) returns (k: nat)
    requires at < |infos|
    ensures !Eligible(infos[at], cs) ==> EligibleOnes(WithInstance(infos, at, i), cs) == EligibleOnes(infos, cs)
    ensures Eligible(infos[at], cs) ==>
              && k < |EligibleOnes(infos, cs)| && EligibleOnes(infos, cs)[k] == infos[at]
              && EligibleOnes(WithInstance(infos, at, i), cs) == WithInstance(EligibleOnes(infos, cs), k, i)
  {
    hide Eligible, EligibleOnes;
    EligibilityStays(infos[at], i, cs);
    var l := |infos| - 1;
    var after := WithInstance(infos, at, i);
    LastEligible(infos, cs);
    LastEligible(after, cs);
    var init := EligibleOnes(infos[..l], cs);
    if at < l {
      k := EligibleAfter(infos[..l], at, i, cs);
      assert after[..l] == WithInstance(infos[..l], at, i) && after[l] == infos[l];
      if Eligible(infos[at], cs) {
        assert WithInstance(init + [infos[l]], k, i) == WithInstance(init, k, i) + [infos[l]];
      }
    } else {
      assert after[..l] == infos[..l];
      k := |init|;
    }
  }

  lemma LastEligible(infos: seq<Info>, cs: Constraints)
    requires infos != []
    ensures var l := |infos| - 1;
            EligibleOnes(infos, cs) == EligibleOnes(infos[..l], cs) + if Eligible(infos[l], cs) then [infos[l]] else []
  {
  }

  datatype Placement = Placement(inst: Instance, at: nat)

  /** The instance is new where it goes, and either passes the filter for these constraints or is
      counted by none of them. */
  ghost predicate Admissible(infos: seq<Info>, p: Placement, cs: Constraints, namespace: string) {
    && p.at < |infos| && p.inst.uid !in infos[p.at].instances
    && ((p.inst.spread == cs && p.inst.namespace == namespace && SpreadFits(p.inst, infos[p.at], infos))
        || forall c | c in cs :: !CountsFor(c, namespace, p.inst))
  }

  lemma PlacementKeepsBalance(infos: seq<Info>, p: Placement, cs: Constraints, namespace: string)
    requires Proper(cs) && Admissible(infos, p, cs, namespace) && Balanced(EligibleOnes(infos, cs), cs, namespace)
    ensures Balanced(EligibleOnes(WithInstance(infos, p.at, p.inst), cs), cs, namespace)
  {
    hide DomainCount, CountsFor;
    var before := EligibleOnes(infos, cs);
    var k := EligibleAfter(infos, p.at, p.inst, cs);
    if Eligible(infos[p.at], cs) {
      var after := WithInstance(before, k, p.inst);
      forall c, n, m | c in cs && n in after && m in after && Eligible(n, cs) && Eligible(m, cs)
        ensures DomainCount(after, c, namespace, n.node.labels[c.topologyKey]) -
                  DomainCount(after, c, namespace, m.node.labels[c.topologyKey]) <= c.maxSkew
      {
        var x, y := Before(before, k, p.inst, n), Before(before, k, p.inst, m);
        SkewAfter(infos, p, cs, namespace, k, c, x, y);
      }
    }
  }

  function Before(nodes: seq<Info>, at: nat, i: Instance, n: Info): (m: Info)
    requires at < |nodes| && n in WithInstance(nodes, at, i)
    ensures m in nodes && m.node == n.node
  {
    if n in nodes then n else nodes[at]
  }

  lemma SkewAfter(infos: seq<Info>, p: Placement, cs: Constraints, namespace: string, k: nat, c: SpreadConstraint,
                  n: Info, m: Info)
    requires Proper(cs) && Admissible(infos, p, cs, namespace) && Balanced(EligibleOnes(infos, cs), cs, namespace)
    requires k < |EligibleOnes(infos, cs)| && EligibleOnes(infos, cs)[k] == infos[p.at]
    requires c in cs && n in EligibleOnes(infos, cs) && m in EligibleOnes(infos, cs)
    ensures var after := WithInstance(EligibleOnes(infos, cs), k, p.inst);
            DomainCount(after, c, namespace, n.node.labels[c.topologyKey]) -
                DomainCount(after, c, namespace, m.node.labels[c.topologyKey]) <= c.maxSkew
  {
    hide DomainCount, PairCount, Matching, EligibleOnes;
    var before := EligibleOnes(infos, cs);
    var here, v, w := infos[p.at], n.node.labels[c.topologyKey], m.node.labels[c.topologyKey];
    DomainCountAfter(before, k, p.inst, c, namespace, v);
    DomainCountAfter(before, k, p.inst, c, namespace, w);
    if InPair(here, c, Pair(c.topologyKey, v)) && CountsFor(c, namespace, p.inst) {
      assert FitsConstraint(p.inst, here, c, before);
      PairCountIsDomainCount(before, cs, namespace, c, v);
      PairCountIsDomainCount(before, cs, namespace, c, w);
      assert InPair(m, c, Pair(c.topologyKey, w));
      assert IsPairOf(m, cs, Pair(c.topologyKey, w));
      assert IsPair(before, cs, Pair(c.topologyKey, w));
    }
  }

  ghost predicate AllAdmissible(infos: seq<Info>, ps: seq<Placement>, cs: Constraints, namespace: string)
    decreases |ps|
  {
    ps != [] ==>
        Admissible(infos, ps[0], cs, namespace) &&
        AllAdmissible(WithInstance(infos, ps[0].at, ps[0].inst), ps[1..], cs, namespace)
  }

  function After(infos: seq<Info>, ps: seq<Placement>): seq<Info>
    decreases |ps|
  {
    if ps == [] then infos
    else if ps[0].at < |infos| then After(WithInstance(infos, ps[0].at, ps[0].inst), ps[1..])
    else infos
  }

  /** Any run of placements from a balanced snapshot, through the filter or of instances the
      constraints do not count, stays balanced. */
  lemma {:induction false} RunsStayBalanced(infos: seq<Info>, ps: seq<Placement>, cs: Constraints, namespace: string)
    requires Proper(cs) && Balanced(EligibleOnes(infos, cs), cs, namespace) && AllAdmissible(infos, ps, cs, namespace)
    ensures Balanced(EligibleOnes(After(infos, ps), cs), cs, namespace)
    decreases |ps|
  {
    hide Balanced, Proper, SpreadFits, CountsFor, EligibleOnes;
    if ps != [] {
      PlacementKeepsBalance(infos, ps[0], cs, namespace);
      RunsStayBalanced(WithInstance(infos, ps[0].at, ps[0].inst), ps[1..], cs, namespace);
    }
  }

  /** An empty selector selects every instance but counts none: its constraint, unless another
      shares its key, keeps no node with the labels out as soon as a skew of one is allowed. */
  lemma EmptySelectorIsNotSpread(inst: Instance, n: Info, c: SpreadConstraint, nodes: seq<Info>)
    requires DistinctKeys(inst.spread) && c in inst.spread && SelectorIsEmpty(c.selector) && Eligible(n, inst.spread)
    ensures nodes != [] && c.maxSkew >= 1 && (forall m | m in nodes :: Eligible(m, inst.spread)) ==>
              FitsConstraint(inst, n, c, nodes)
  {
    forall value ensures PairCount(nodes, inst.spread, inst.namespace, Pair(c.topologyKey, value)) == 0 {
      EmptyCountsNothing(nodes, inst.spread, inst.namespace, c, value);
    }
    forall p: Pair | p.key == c.topologyKey ensures PairCount(nodes, inst.spread, inst.namespace, p) == 0 {
      assert p == Pair(c.topologyKey, p.value);
    }
  }

  lemma {:induction false} EmptyCountsNothing(nodes: seq<Info>, cs: Constraints, namespace: string,
                                              c: SpreadConstraint, value: string)
    requires DistinctKeys(cs) && c in cs && SelectorIsEmpty(c.selector)
    ensures PairCount(nodes, cs, namespace, Pair(c.topologyKey, value)) == 0
  {
    if nodes != [] {
      EmptyCountsNothing(nodes[..|nodes| - 1], cs, namespace, c, value);
      ShareIsOwn(nodes[|nodes| - 1], cs, namespace, c, value);
    }
  }
}
