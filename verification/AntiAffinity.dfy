/** The scheduler's anti-affinity filter (internal/controllers/scheduler_controller.go): counts of
    topology pairs, compared with what it means for two placed instances to repel each other. */
module AntiAffinity {
  import opened Wrappers
  import opened Api
  import opened Labels
  import opened NodeAffinity
  import opened SchedulerCache

  /** A container of the snapshot: it has a node. */
  datatype Info = Info(node: Node, instances: map<UID, Instance>)

  datatype Pair = Pair(key: string, value: string)

  type Counts = map<Pair, nat>

  function Terms(i: Instance): seq<AntiAffinityTerm> {
    if i.affinity.Some? && i.affinity.value.instanceAntiAffinity.Some? then i.affinity.value.instanceAntiAffinity.value
    else []
  }

  // ---- What it means ---------------------------------------------------------------------------

  predicate SameDomain(key: string, a: Labels, b: Labels) {
    key in a && key in b && a[key] == b[key]
  }

  /** An anti-affinity term of a, on a node labelled la, selects b, in the same domain. */
  ghost predicate Repels(a: Instance, la: Labels, b: Instance, lb: Labels) {
    exists t :: t in Terms(a) && SelectorMatches(t.selector, b.labels) && SameDomain(t.topologyKey, la, lb)
  }

  ghost predicate Conflict(a: Instance, la: Labels, b: Instance, lb: Labels) {
    a.namespace == b.namespace && (Repels(a, la, b, lb) || Repels(b, lb, a, la))
  }

  /** On that node the instance would conflict with nothing in the snapshot. */
  ghost predicate NoConflict(inst: Instance, node: Node, infos: seq<Info>) {
    forall m, k | m in infos && k in m.instances :: !Conflict(inst, node.labels, m.instances[k], m.node.labels)
  }

  // ---- Counting --------------------------------------------------------------------------------

  ghost predicate Hit(t: AntiAffinityTerm, labels: Labels, nodeLabels: Labels, p: Pair) {
    SelectorMatches(t.selector, labels) && t.topologyKey in nodeLabels &&
        p == Pair(t.topologyKey, nodeLabels[t.topologyKey])
  }

  ghost predicate HitBy(terms: seq<AntiAffinityTerm>, labels: Labels, nodeLabels: Labels, p: Pair) {
    exists t :: t in terms && Hit(t, labels, nodeLabels, p)
  }

  /** The terms that count and the labels they select: those of the existing instance and the labels
      of the incoming one, or the other way round. */
  function TermsOf(inst: Instance, existing: Instance, incoming: bool): seq<AntiAffinityTerm> {
    Terms(if incoming then inst else existing)
  }

  function LabelsOf(inst: Instance, existing: Instance, incoming: bool): Labels {
    (if incoming then existing else inst).labels
  }

  ghost predicate EntryHit(inst: Instance, info: Info, existing: Instance, incoming: bool, p: Pair) {
    && existing.namespace == inst.namespace
    && HitBy(TermsOf(inst, existing, incoming), LabelsOf(inst, existing, incoming), info.node.labels, p)
  }

  ghost predicate InfoHit(inst: Instance, info: Info, incoming: bool, p: Pair) {
    exists k :: k in info.instances && EntryHit(inst, info, info.instances[k], incoming, p)
  }

  ghost predicate Hits(inst: Instance, infos: seq<Info>, incoming: bool, p: Pair) {
    exists m :: m in infos && InfoHit(inst, m, incoming, p)
  }

  predicate AllParse(terms: seq<AntiAffinityTerm>) {
    forall t | t in terms :: Parses(t.selector)
  }

  ghost predicate EntryParses(inst: Instance, existing: Instance, incoming: bool) {
    existing.namespace == inst.namespace ==> AllParse(TermsOf(inst, existing, incoming))
  }

  ghost predicate InfoParses(inst: Instance, info: Info, incoming: bool) {
    forall k | k in info.instances :: EntryParses(inst, info.instances[k], incoming)
  }

  predicate Positive(counts: Counts, p: Pair) {
    p in counts && counts[p] > 0
  }

  method CountTerms(terms: seq<AntiAffinityTerm>, labels: Labels, nodeLabels: Labels, before: Counts)
    returns (r: Option<Counts>)
    ensures r.Some? <==> AllParse(terms)
    ensures r.Some? ==> forall p :: Positive(r.value, p) <==> Positive(before, p) || HitBy(terms, labels, nodeLabels, p)
  {
    hide SelectorMatches, Parses;
    var counts := before;
    for i := 0 to |terms|
      invariant AllParse(terms[..i])
      invariant forall p :: Positive(counts, p) <==> Positive(before, p) || HitBy(terms[..i], labels, nodeLabels, p)
    {
      var t := terms[i];
      assert terms[..i + 1] == terms[..i] + [t];
      assert t in terms;
      if !Parses(t.selector) {
        return None;
      }
      forall p ensures HitBy(terms[..i + 1], labels, nodeLabels, p) <==>
          HitBy(terms[..i], labels, nodeLabels, p) || Hit(t, labels, nodeLabels, p) {
        OneMoreTerm(terms[..i], t, labels, nodeLabels, p);
      }
      if !SelectorMatches(t.selector, labels) || t.topologyKey !in nodeLabels {
        assert forall p :: !Hit(t, labels, nodeLabels, p);
        continue;
      }
      var pair := Pair(t.topologyKey, nodeLabels[t.topologyKey]);
      ghost var was := counts;
      counts := counts[pair := (if pair in counts then counts[pair] else 0) + 1];
      assert forall p :: Hit(t, labels, nodeLabels, p) <==> p == pair;
      assert forall p :: Positive(counts, p) <==> Positive(was, p) || p == pair;
    }
    assert terms[..|terms|] == terms;
    r := Some(counts);
  }

  lemma OneMoreTerm(terms: seq<AntiAffinityTerm>, t: AntiAffinityTerm, labels: Labels, nodeLabels: Labels, p: Pair)
    ensures HitBy(terms + [t], labels, nodeLabels, p) <==>
              HitBy(terms, labels, nodeLabels, p) || Hit(t, labels, nodeLabels, p)
  {
    hide Hit;
    assert forall u | u in terms :: u in terms + [t];
    assert t in terms + [t];
  }

  /** One container's part of the counts, over its instances in any order. */
  method CountInfo(inst: Instance, info: Info, incoming: bool, before: Counts) returns (r: Option<Counts>)
    ensures r.Some? <==> InfoParses(inst, info, incoming)
    ensures r.Some? ==> forall p :: Positive(r.value, p) <==> Positive(before, p) || InfoHit(inst, info, incoming, p)
  {
    hide Positive, HitBy, AllParse;
    var counts := before;
    var rest := info.instances.Keys;
    while rest != {}
      invariant rest <= info.instances.Keys
      invariant forall k | k in info.instances && k !in rest :: EntryParses(inst, info.instances[k], incoming)
      invariant forall p :: Positive(counts, p) <==>
                  Positive(before, p) ||
                      exists k ::
                        k in info.instances && k !in rest && EntryHit(inst, info, info.instances[k], incoming, p)
    {
      var key :| key in rest;
      rest := rest - {key};
      var existing := info.instances[key];
      if existing.namespace != inst.namespace {
        continue;
      }
      var c := CountTerms(TermsOf(inst, existing, incoming), LabelsOf(inst, existing, incoming), info.node.labels,
                          counts);
      if c.None? {
        assert !EntryParses(inst, existing, incoming);
        return None;
      }
      counts := c.value;
    }
    r := Some(counts);
  }

  /** getExistingAntiAffinityCounts and, for `incoming`, getIncomingAntiAffinityCounts: which pairs
      have a count, and that a selector that does not parse is an error. */
  method CountAll(inst: Instance, infos: seq<Info>, incoming: bool) returns (r: Option<Counts>)
    ensures r.Some? <==> forall m | m in infos :: InfoParses(inst, m, incoming)
    ensures r.Some? ==> forall p :: Positive(r.value, p) <==> Hits(inst, infos, incoming, p)
  {
    hide InfoParses, InfoHit;
    var counts: Counts := map[];
    for i := 0 to |infos|
      invariant forall m | m in infos[..i] :: InfoParses(inst, m, incoming)
      invariant forall p :: Positive(counts, p) <==> Hits(inst, infos[..i], incoming, p)
    {
      assert infos[..i + 1] == infos[..i] + [infos[i]];
      var c := CountInfo(inst, infos[i], incoming, counts);
      if c.None? {
        assert infos[i] in infos;
        return None;
      }
      counts := c.value;
      forall p ensures Hits(inst, infos[..i + 1], incoming, p) <==>
          Hits(inst, infos[..i], incoming, p) || InfoHit(inst, infos[i], incoming, p) {
        OneMoreInfo(inst, infos[..i], infos[i], incoming, p);
      }
    }
    assert infos[..|infos|] == infos;
    r := Some(counts);
  }

  lemma OneMoreInfo(inst: Instance, infos: seq<Info>, m: Info, incoming: bool, p: Pair)
    ensures Hits(inst, infos + [m], incoming, p) <==> Hits(inst, infos, incoming, p) || InfoHit(inst, m, incoming, p)
  {
    hide InfoHit;
    assert forall u | u in infos :: u in infos + [m];
    assert m in infos + [m];
  }

  // ---- Filtering -------------------------------------------------------------------------------

  predicate SatisfiesExisting(counts: Counts, info: Info) {
    counts == map[] || forall k | k in info.node.labels :: !Positive(counts, Pair(k, info.node.labels[k]))
  }

  predicate SatisfiesIncoming(inst: Instance, counts: Counts, info: Info) {
    || counts == map[]
    || forall t | t in Terms(inst) && t.topologyKey in info.node.labels ::
        !Positive(counts, Pair(t.topologyKey, info.node.labels[t.topologyKey]))
  }

  /** No pair of the node was counted for an existing instance's term exactly when none of them
      repels the incoming instance there. */
  lemma ExistingCountsMean(inst: Instance, infos: seq<Info>, counts: Counts, n: Info)
    requires forall p :: Positive(counts, p) <==> Hits(inst, infos, false, p)
    ensures SatisfiesExisting(counts, n) <==>
              forall m, k | m in infos && k in m.instances && m.instances[k].namespace == inst.namespace ::
                !Repels(m.instances[k], m.node.labels, inst, n.node.labels)
  {
    hide SelectorMatches;
    forall m, k | m in infos && k in m.instances && m.instances[k].namespace == inst.namespace &&
        Repels(m.instances[k], m.node.labels, inst, n.node.labels)
      ensures !SatisfiesExisting(counts, n)
    {
      var e := m.instances[k];
      var t :| t in Terms(e) && SelectorMatches(t.selector, inst.labels) &&
          SameDomain(t.topologyKey, m.node.labels, n.node.labels);
      var p := Pair(t.topologyKey, n.node.labels[t.topologyKey]);
      assert Hit(t, inst.labels, m.node.labels, p);
      assert EntryHit(inst, m, e, false, p);
      assert InfoHit(inst, m, false, p);
      assert Positive(counts, p);
    }
    if !SatisfiesExisting(counts, n) {
      var key :| key in n.node.labels && Positive(counts, Pair(key, n.node.labels[key]));
      var p := Pair(key, n.node.labels[key]);
      var m :| m in infos && InfoHit(inst, m, false, p);
      var k :| k in m.instances && EntryHit(inst, m, m.instances[k], false, p);
      var t :| t in Terms(m.instances[k]) && Hit(t, inst.labels, m.node.labels, p);
      assert Repels(m.instances[k], m.node.labels, inst, n.node.labels);
    }
  }

  /** The same for the incoming instance's own terms, although terms of one topology key share
      their counts. */
  lemma IncomingCountsMean(inst: Instance, infos: seq<Info>, counts: Counts, n: Info)
    requires forall p :: Positive(counts, p) <==> Hits(inst, infos, true, p)
    ensures SatisfiesIncoming(inst, counts, n) <==>
              forall m, k | m in infos && k in m.instances && m.instances[k].namespace == inst.namespace ::
                !Repels(inst, n.node.labels, m.instances[k], m.node.labels)
  {
    hide SelectorMatches;
    forall m, k | m in infos && k in m.instances && m.instances[k].namespace == inst.namespace &&
        Repels(inst, n.node.labels, m.instances[k], m.node.labels)
      ensures !SatisfiesIncoming(inst, counts, n)
    {
      var e := m.instances[k];
      var t :| t in Terms(inst) && SelectorMatches(t.selector, e.labels) &&
          SameDomain(t.topologyKey, n.node.labels, m.node.labels);
      var p := Pair(t.topologyKey, n.node.labels[t.topologyKey]);
      assert Hit(t, e.labels, m.node.labels, p);
      assert EntryHit(inst, m, e, true, p);
      assert InfoHit(inst, m, true, p);
      assert Positive(counts, p);
    }
    if !SatisfiesIncoming(inst, counts, n) {
      var u :| u in Terms(inst) && u.topologyKey in n.node.labels &&
          Positive(counts, Pair(u.topologyKey, n.node.labels[u.topologyKey]));
      var p := Pair(u.topologyKey, n.node.labels[u.topologyKey]);
      var m :| m in infos && InfoHit(inst, m, true, p);
      var k :| k in m.instances && EntryHit(inst, m, m.instances[k], true, p);
      var t :| t in Terms(inst) && Hit(t, m.instances[k].labels, m.node.labels, p);
      assert Repels(inst, n.node.labels, m.instances[k], m.node.labels);
    }
  }

  /** Every selector the counts look at parses. */
  ghost predicate SnapshotParses(inst: Instance, infos: seq<Info>) {
    forall m | m in infos :: InfoParses(inst, m, false) && InfoParses(inst, m, true)
  }

  /** One instance does not repel another exactly when, of all the terms in its spec, none selects
      the other's labels while the two nodes agree on its topology key. */
  lemma RepelsMeans(a: Instance, la: Labels, b: Instance, lb: Labels)
    ensures !Repels(a, la, b, lb) <==>
              (a.affinity.Some? && a.affinity.value.instanceAntiAffinity.Some? ==>
                forall j | 0 <= j < |a.affinity.value.instanceAntiAffinity.value| ::
                  var t := a.affinity.value.instanceAntiAffinity.value[j];
                  SelectorMatches(t.selector, b.labels) && t.topologyKey in la && t.topologyKey in lb ==>
                    la[t.topologyKey] != lb[t.topologyKey])
  {
    hide SelectorMatches;
    if a.affinity.Some? && a.affinity.value.instanceAntiAffinity.Some? {
      var terms := a.affinity.value.instanceAntiAffinity.value;
      assert Terms(a) == terms;
      assert forall j | 0 <= j < |terms| :: terms[j] in terms;
    }
  }

  /** The selectors looked at: all of the instance's terms, if there is another instance of its
      namespace, and all of the terms of those. */
  lemma SnapshotParsesMeans(inst: Instance, infos: seq<Info>)
    ensures SnapshotParses(inst, infos) <==>
              forall m, k | m in infos && k in m.instances && m.instances[k].namespace == inst.namespace ::
                var e := m.instances[k];
                && (inst.affinity.Some? && inst.affinity.value.instanceAntiAffinity.Some? ==>
                    forall j | 0 <= j < |inst.affinity.value.instanceAntiAffinity.value| ::
                      Parses(inst.affinity.value.instanceAntiAffinity.value[j].selector))
                && (e.affinity.Some? && e.affinity.value.instanceAntiAffinity.Some? ==>
                    forall j | 0 <= j < |e.affinity.value.instanceAntiAffinity.value| ::
                      Parses(e.affinity.value.instanceAntiAffinity.value[j].selector))
  {
    hide Parses;
    assert forall e: Instance | e.affinity.Some? && e.affinity.value.instanceAntiAffinity.Some? ::
        Terms(e) == e.affinity.value.instanceAntiAffinity.value;
  }

  /** Hence what conflicts with nothing, over the API's fields. */
  lemma NoConflictMeans(inst: Instance, infos: seq<Info>)
    ensures forall n: Info :: NoConflict(inst, n.node, infos) <==>
              forall m, k | m in infos && k in m.instances && m.instances[k].namespace == inst.namespace ::
                var e, la, lb := m.instances[k], n.node.labels, m.node.labels;
                && (inst.affinity.Some? && inst.affinity.value.instanceAntiAffinity.Some? ==>
                    forall j | 0 <= j < |inst.affinity.value.instanceAntiAffinity.value| ::
                      var t := inst.affinity.value.instanceAntiAffinity.value[j];
                      SelectorMatches(t.selector, e.labels) && t.topologyKey in la && t.topologyKey in lb ==>
                        la[t.topologyKey] != lb[t.topologyKey])
                && (e.affinity.Some? && e.affinity.value.instanceAntiAffinity.Some? ==>
                    forall j | 0 <= j < |e.affinity.value.instanceAntiAffinity.value| ::
                      var t := e.affinity.value.instanceAntiAffinity.value[j];
                      SelectorMatches(t.selector, inst.labels) && t.topologyKey in lb && t.topologyKey in la ==>
                        lb[t.topologyKey] != la[t.topologyKey])
  {
    hide Repels, SelectorMatches;
    forall n: Info, m: Info, k | m in infos && k in m.instances
      ensures Conflict(inst, n.node.labels, m.instances[k], m.node.labels) <==>
              m.instances[k].namespace == inst.namespace &&
              (Repels(inst, n.node.labels, m.instances[k], m.node.labels) ||
               Repels(m.instances[k], m.node.labels, inst, n.node.labels))
    {
    }
    forall a, la, b, lb {:trigger Repels(a, la, b, lb)}
      ensures !Repels(a, la, b, lb) <==>
              (a.affinity.Some? && a.affinity.value.instanceAntiAffinity.Some? ==>
                forall j | 0 <= j < |a.affinity.value.instanceAntiAffinity.value| ::
                  var t := a.affinity.value.instanceAntiAffinity.value[j];
                  SelectorMatches(t.selector, b.labels) && t.topologyKey in la && t.topologyKey in lb ==>
                    la[t.topologyKey] != lb[t.topologyKey])
    {
      RepelsMeans(a, la, b, lb);
    }
  }

  lemma CountsDecide(inst: Instance, infos: seq<Info>, existing: Counts, incoming: Counts, n: Info)
    requires forall p :: Positive(existing, p) <==> Hits(inst, infos, false, p)
    requires forall p :: Positive(incoming, p) <==> Hits(inst, infos, true, p)
    ensures NoConflict(inst, n.node, infos) <==>
              SatisfiesExisting(existing, n) && SatisfiesIncoming(inst, incoming, n)
  {
    hide Repels, Positive, Hits, SatisfiesExisting, SatisfiesIncoming;
    ExistingCountsMean(inst, infos, existing, n);
    IncomingCountsMean(inst, infos, incoming, n);
  }

  /** filterNodesByInstanceAntiAffinity: a node is admitted exactly when placing the instance there
      conflicts with no instance of its namespace in the snapshot: no term in the spec of either
      selects the other in the same domain. */
  method FilterByAntiAffinity(inst: Instance, infos: seq<Info>) returns (r: Option<seq<Info>>)
    ensures r.Some? <==> SnapshotParses(inst, infos)
    ensures r.Some? ==> forall n :: n in r.value <==> n in infos && NoConflict(inst, n.node, infos)
    ensures r.Some? ==> forall n | n in infos :: n in r.value <==>
              forall m, k | m in infos && k in m.instances && m.instances[k].namespace == inst.namespace ::
                var e, la, lb := m.instances[k], n.node.labels, m.node.labels;
                && (inst.affinity.Some? && inst.affinity.value.instanceAntiAffinity.Some? ==>
                    forall j | 0 <= j < |inst.affinity.value.instanceAntiAffinity.value| ::
                      var t := inst.affinity.value.instanceAntiAffinity.value[j];
                      SelectorMatches(t.selector, e.labels) && t.topologyKey in la && t.topologyKey in lb ==>
                        la[t.topologyKey] != lb[t.topologyKey])
                && (e.affinity.Some? && e.affinity.value.instanceAntiAffinity.Some? ==>
                    forall j | 0 <= j < |e.affinity.value.instanceAntiAffinity.value| ::
                      var t := e.affinity.value.instanceAntiAffinity.value[j];
                      SelectorMatches(t.selector, inst.labels) && t.topologyKey in lb && t.topologyKey in la ==>
                        lb[t.topologyKey] != la[t.topologyKey])
  {
    hide NoConflict, Repels, Positive, Hits, InfoParses, SatisfiesExisting, SatisfiesIncoming, SelectorMatches;
    var existing := CountAll(inst, infos, false);
    if existing.None? {
      return None;
    }
    var incoming := CountAll(inst, infos, true);
    if incoming.None? {
      return None;
    }
    var filtered := [];
    for i := 0 to |infos|
      invariant forall n :: n in filtered <==> n in infos[..i] && NoConflict(inst, n.node, infos)
    {
      var n := infos[i];
      assert infos[..i + 1] == infos[..i] + [n];
      CountsDecide(inst, infos, existing.value, incoming.value, n);
      if !SatisfiesIncoming(inst, incoming.value, n) {
        continue;
      }
      if !SatisfiesExisting(existing.value, n) {
        continue;
      }
      filtered := filtered + [n];
    }
    assert infos[..|infos|] == infos;
    NoConflictMeans(inst, infos);
    r := Some(filtered);
  }
}
