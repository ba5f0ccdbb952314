/** One scheduling decision over the cache (internal/controllers/scheduler_controller.go), and runs
    of them. */
module Scheduler {
  import opened Wrappers
  import opened Api
  import opened Labels
  import opened NodeAffinity
  import opened SchedulerCache
  import opened AntiAffinity
  import opened TopologySpread

  // ---- Choosing a node -------------------------------------------------------------------------

  /** filterNodesByAffinity: a term that does not parse only fails to match. */
  method FilterByNodeAffinity(inst: Instance, infos: seq<Info>) returns (filtered: seq<Info>)
    ensures forall n :: n in filtered <==> n in infos && RequiredMatches(inst.affinity, n.node)
  {
    hide RequiredMatches;
    if inst.affinity.None? || inst.affinity.value.nodeAffinity.None? {
      assert forall n: Info :: RequiredMatches(inst.affinity, n.node) by { NoAffinityMatches(inst.affinity); }
      return infos;
    }
    filtered := [];
    for i := 0 to |infos|
      invariant forall n :: n in filtered <==> n in infos[..i] && RequiredMatches(inst.affinity, n.node)
    {
      assert infos[..i + 1] == infos[..i] + [infos[i]];
      var ok, failed := Match(inst.affinity, infos[i].node);
      if !ok {
        continue;
      }
      filtered := filtered + [infos[i]];
    }
    assert infos[..|infos|] == infos;
  }

  lemma NoAffinityMatches(affinity: Option<Affinity>)
    requires affinity.None? || affinity.value.nodeAffinity.None?
    ensures forall node :: RequiredMatches(affinity, node)
  {
  }

  ghost predicate Affine(inst: Instance, n: Info, infos: seq<Info>) {
    n in infos && RequiredMatches(inst.affinity, n.node)
  }

  ghost predicate Peaceful(inst: Instance, n: Info, infos: seq<Info>) {
    Affine(inst, n, infos) && NoConflict(inst, n.node, infos)
  }

  /** The node passes all three filters. */
  ghost predicate Suits(inst: Instance, n: Info, infos: seq<Info>) {
    Peaceful(inst, n, infos) && SpreadFits(inst, n, infos)
  }

  predicate SpreadParses(inst: Instance) {
    forall c | c in inst.spread :: Parses(c.selector)
  }

  /** A selector that does not parse fails the decision, unless the filters before left no node. */
  ghost predicate Fails(inst: Instance, infos: seq<Info>) {
    || ((exists n :: Affine(inst, n, infos)) && !SnapshotParses(inst, infos))
    || ((exists n :: Peaceful(inst, n, infos)) && !SpreadParses(inst))
  }

  lemma FailsMeans(inst: Instance, infos: seq<Info>)
    ensures Fails(inst, infos) <==>
              || ((exists n :: n in infos && RequiredMatches(inst.affinity, n.node)) && !SnapshotParses(inst, infos))
              || ((exists n :: n in infos && RequiredMatches(inst.affinity, n.node) && NoConflict(inst, n.node, infos))
                  && exists c :: c in inst.spread && !Parses(c.selector))
  {
    hide RequiredMatches, NoConflict, SnapshotParses, Parses;
    assert forall n :: Affine(inst, n, infos) <==> n in infos && RequiredMatches(inst.affinity, n.node);
    assert forall n :: Peaceful(inst, n, infos) <==> Affine(inst, n, infos) && NoConflict(inst, n.node, infos);
  }

  /** getNodesForInstance: each filter sees all nodes and the results are intersected, stopping when
      nothing is left. */
  method GetNodesForInstance(inst: Instance, infos: seq<Info>) returns (r: Option<set<Info>>)
    ensures r.None? <==> Fails(inst, infos)
    ensures r.None? <==>
              || ((exists n :: n in infos && RequiredMatches(inst.affinity, n.node)) && !SnapshotParses(inst, infos))
              || ((exists n :: n in infos && RequiredMatches(inst.affinity, n.node) && NoConflict(inst, n.node, infos))
                  && exists c :: c in inst.spread && !Parses(c.selector))
    ensures r.Some? ==> forall n :: n in r.value <==> Suits(inst, n, infos)
    ensures r.Some? ==> forall n :: n in r.value <==>
              && n in infos && RequiredMatches(inst.affinity, n.node)
              && NoConflict(inst, n.node, infos) && SpreadFits(inst, n, infos)
  {
    hide RequiredMatches, NoConflict, SpreadFits, SnapshotParses, Parses;
    FailsMeans(inst, infos);
    var matching := set n | n in infos;
    var affine := FilterByNodeAffinity(inst, infos);
    matching := matching * set n | n in affine;
    assert forall n :: n in matching <==> Affine(inst, n, infos);
    if matching == {} {
      assert forall n :: !Affine(inst, n, infos) && !Peaceful(inst, n, infos);
      return Some({});
    }
    assert exists n :: n in matching && Affine(inst, n, infos);
    var peaceful := FilterByAntiAffinity(inst, infos);
    if peaceful.None? {
      return None;
    }
    matching := matching * set n | n in peaceful.value;
    assert forall n :: n in matching <==> Peaceful(inst, n, infos);
    if matching == {} {
      assert forall n :: !Peaceful(inst, n, infos);
      return Some({});
    }
    assert exists n :: n in matching && Peaceful(inst, n, infos);
    var fitting := FilterByTopology(inst, infos);
    if fitting.None? {
      return None;
    }
    matching := matching * set n | n in fitting.value;
    if matching == {} {
      return Some({});
    }
    r := Some(matching);
  }

  /** The least used, over the nodes in any order. */
  method LeastUsed(nodes: set<Info>) returns (minUsed: Info)
    requires nodes != {}
    ensures minUsed in nodes && forall n | n in nodes :: |minUsed.instances| <= |n.instances|
  {
    minUsed :| minUsed in nodes;
    var rest := nodes - {minUsed};
    while rest != {}
      invariant rest <= nodes && minUsed in nodes
      invariant forall n | n in nodes && n !in rest :: |minUsed.instances| <= |n.instances|
    {
      var n :| n in rest;
      rest := rest - {n};
      if |n.instances| < |minUsed.instances| {
        minUsed := n;
      }
    }
  }

  // ---- The snapshot ----------------------------------------------------------------------------

  /** The containers that have a node, each once, in any order. */
  ghost predicate Lists(infos: seq<Info>, s: State) {
    && (forall n :: n in infos <==>
          exists name ::
              name in s.nodes && s.nodes[name].node.Some? &&
              n == Info(s.nodes[name].node.value, s.nodes[name].instances))
    && DistinctNodes(infos)
  }

  ghost predicate DistinctNodes(infos: seq<Info>) {
    forall i, j | 0 <= i < j < |infos| :: infos[i].node.name != infos[j].node.name
  }

  method ListNodes(snapshot: map<string, Container>) returns (infos: seq<Info>)
    requires forall name | name in snapshot :: snapshot[name].node.Some? && snapshot[name].node.value.name == name
    ensures forall n :: n in infos <==> exists name ::
              name in snapshot && n == Info(snapshot[name].node.value, snapshot[name].instances)
    ensures DistinctNodes(infos)
  {
    infos := [];
    var rest := snapshot.Keys;
    while rest != {}
      invariant rest <= snapshot.Keys && DistinctNodes(infos)
      invariant forall n :: n in infos <==>
                  exists name ::
                      name in snapshot && name !in rest &&
                      n == Info(snapshot[name].node.value, snapshot[name].instances)
    {
      var name :| name in rest;
      assert forall n | n in infos :: n.node.name != name;
      rest := rest - {name};
      infos := infos + [Info(snapshot[name].node.value, snapshot[name].instances)];
    }
  }

  datatype Decision = Failed | NoNode | Assumes(node: string) | NotAssumable(error: Error)

  /** reconcileExists, up to starting the binding: the instance is assumed on a least used one of
      the nodes that suit it. */
  method ReconcileExists(cache: Cache, inst: Instance) returns (d: Decision, ghost infos: seq<Info>)
    requires cache.Valid()
    modifies cache
    ensures cache.Valid() && Lists(infos, old(cache.Fields()))
    ensures d.Failed? <==> Fails(inst, infos)
    ensures d.NoNode? ==> forall n :: !Suits(inst, n, infos)
    ensures d.Assumes? ==>
              && (exists n :: Suits(inst, n, infos) && n.node.name == d.node
                              && forall m | Suits(inst, m, infos) :: |n.instances| <= |m.instances|)
              && inst.uid != "" && inst.uid !in old(cache.states)
              && cache.Fields() == Applied(old(cache.Fields()), Assume(inst.(nodeName := d.node)))
              && cache.states == old(cache.states)[inst.uid := InstanceState(inst.(nodeName := d.node), false)]
              && cache.assumed == old(cache.assumed) + {inst.uid}
    ensures d.Assumes? ==>
              var before := Progress(old(cache.Fields()), Some(old(cache.Fields())));
              exists n :: Regular(before, Scheduled(inst, infos, n)) && SpreadFits(inst, n, infos)
                          && cache.Fields() == Next(before, Scheduled(inst, infos, n)).cache
    ensures !d.Assumes? ==> cache.Fields() == old(cache.Fields())
    ensures d.NotAssumable? ==> inst.uid == "" || inst.uid in old(cache.states)
    ensures !Fails(inst, infos) && (exists n :: Suits(inst, n, infos)) ==>
              (d.Assumes? <==> inst.uid != "" && inst.uid !in old(cache.states))
  {
    hide Suits, Fails, SnapshotParses, SpreadParses, Inv, Abs, Lists, Regular, SpreadFits;
    var snapshot := cache.Snapshot();
    ghost var before := cache.Fields();
    NodesFit(before, snapshot);
    var listed := ListNodes(snapshot);
    infos := listed;
    assert Lists(infos, before) by { SnapshotLists(infos, before, snapshot); }
    var nodes := GetNodesForInstance(inst, listed);
    if nodes.None? {
      return Failed, infos;
    }
    if nodes.value == {} {
      assert forall n :: n !in nodes.value;
      return NoNode, infos;
    }
    var minUsed := LeastUsed(nodes.value);
    var err := cache.AssumeInstance(inst.(nodeName := minUsed.node.name));
    assert Suits(inst, minUsed, infos) && forall m | Suits(inst, m, infos) :: |minUsed.instances| <= |m.instances|;
    SuitableIsRegular(Progress(before, Some(before)), inst, infos, minUsed);
    d := if err.Some? then NotAssumable(err.value) else Assumes(minUsed.node.name);
  }

  lemma NodesFit(s: State, snapshot: map<string, Container>)
    requires Inv(s) && snapshot == map n | n in s.nodes && s.nodes[n].node.Some? :: s.nodes[n]
    ensures forall name | name in snapshot :: snapshot[name].node.Some? && snapshot[name].node.value.name == name
  {
    forall name | name in snapshot ensures snapshot[name].node.Some? && snapshot[name].node.value.name == name {
      assert NodeOf(s, name).Some?;
    }
  }

  lemma SnapshotLists(infos: seq<Info>, s: State, snapshot: map<string, Container>)
    requires snapshot == map n | n in s.nodes && s.nodes[n].node.Some? :: s.nodes[n]
    requires forall n :: n in infos <==> exists name ::
              name in snapshot && n == Info(snapshot[name].node.value, snapshot[name].instances)
    requires DistinctNodes(infos)
    ensures Lists(infos, s)
  {
    assert forall name :: name in snapshot <==> name in s.nodes && s.nodes[name].node.Some?;
    forall n
      ensures n in infos <==>
                exists name ::
                  name in s.nodes && s.nodes[name].node.Some? &&
                  n == Info(s.nodes[name].node.value, s.nodes[name].instances)
    {
      if name :|
         name in s.nodes && s.nodes[name].node.Some? &&
         n == Info(s.nodes[name].node.value, s.nodes[name].instances) {
        assert name in snapshot;
      }
      if n in infos {
        var name :| name in snapshot && n == Info(snapshot[name].node.value, snapshot[name].instances);
        assert name in s.nodes;
      }
    }
  }

  // ---- Conflicts in the cache ------------------------------------------------------------------

  /** Two instances are both placed on nodes that exist, and repel each other there. */
  ghost predicate Clash(nodes: map<string, Node>, a: Instance, b: Instance) {
    && a.nodeName in nodes && b.nodeName in nodes
    && Conflict(a, nodes[a.nodeName].labels, b, nodes[b.nodeName].labels)
  }

  ghost predicate ConflictFree(c: Cached) {
    forall j, k | j in c.known && k in c.known && j != k :: !Clash(c.nodes, c.known[j].instance, c.known[k].instance)
  }

  ghost predicate ClashesWithNone(c: Cached, i: Instance) {
    forall k | k in c.known && k != i.uid :: !Clash(c.nodes, i, c.known[k].instance)
  }

  lemma ClashIsSymmetric(nodes: map<string, Node>, a: Instance, b: Instance)
    ensures Clash(nodes, a, b) <==> Clash(nodes, b, a)
  {
    hide Repels;
  }

  /** Putting an instance in, or in another place, keeps the cache free of conflicts exactly when it
      clashes with none of the others. */
  lemma PlacingKeepsConflictFree(c: Cached, i: Instance, status: Status)
    requires ConflictFree(c)
    ensures ConflictFree(c.(known := c.known[i.uid := Entry(i, status)])) <==> ClashesWithNone(c, i)
  {
    hide Clash;
    var after := c.(known := c.known[i.uid := Entry(i, status)]);
    if ConflictFree(after) {
      forall k | k in c.known && k != i.uid ensures !Clash(c.nodes, i, c.known[k].instance) {
        assert !Clash(after.nodes, after.known[i.uid].instance, after.known[k].instance);
      }
    }
    if ClashesWithNone(c, i) {
      forall j, k | j in after.known && k in after.known && j != k
        ensures !Clash(after.nodes, after.known[j].instance, after.known[k].instance) {
        if k == i.uid {
          ClashIsSymmetric(c.nodes, c.known[j].instance, i);
        }
      }
    }
  }

  /** What passes the filter over the snapshot clashes with nothing in the cache. */
  lemma NoConflictMeansNoClash(s: State, infos: seq<Info>, inst: Instance, n: Info)
    requires Inv(s) && Lists(infos, s) && n in infos && NoConflict(inst, n.node, infos)
    ensures ClashesWithNone(Abs(s), inst.(nodeName := n.node.name))
  {
    hide Abs, Conflict, Filed, FiledOnce, InUse, NamesFit, Lists;
    AbsIs(s);
    var i := inst.(nodeName := n.node.name);
    var c := Abs(s);
    forall k | k in c.known && k != i.uid ensures !Clash(c.nodes, i, c.known[k].instance) {
      if Clash(c.nodes, i, c.known[k].instance) {
        var m := ListedIn(s, infos, k);
        assert !Conflict(inst, n.node.labels, m.instances[k], m.node.labels);
        ListedClash(s, infos, inst, n, m, k);
      }
    }
  }

  /** What the filter checks over the snapshot is what there is to check in the cache. */
  lemma NoConflictIsClashFree(s: State, infos: seq<Info>, inst: Instance, n: Info)
    requires Inv(s) && Lists(infos, s) && n in infos && inst.uid !in s.states
    ensures NoConflict(inst, n.node, infos) <==> ClashesWithNone(Abs(s), inst.(nodeName := n.node.name))
  {
    hide Abs, Conflict, Filed, FiledOnce, InUse, NamesFit, Lists;
    AbsIs(s);
    var i := inst.(nodeName := n.node.name);
    var c := Abs(s);
    if ClashesWithNone(c, i) {
      forall m, k | m in infos && k in m.instances
        ensures !Conflict(inst, n.node.labels, m.instances[k], m.node.labels)
      {
        assert !Clash(c.nodes, i, c.known[k].instance) by { ListedInstance(s, infos, m, k); }
        ListedClash(s, infos, inst, n, m, k);
      }
    }
    if NoConflict(inst, n.node, infos) {
      NoConflictMeansNoClash(s, infos, inst, n);
    }
  }

  lemma ListedClash(s: State, infos: seq<Info>, inst: Instance, n: Info, m: Info, k: UID)
    requires Inv(s) && Lists(infos, s) && n in infos && m in infos && k in m.instances
    ensures k in Abs(s).known
    ensures Clash(Abs(s).nodes, inst.(nodeName := n.node.name), Abs(s).known[k].instance) <==>
              Conflict(inst, n.node.labels, m.instances[k], m.node.labels)
  {
    hide Abs, Conflict, Filed, FiledOnce, InUse, NamesFit, Lists;
    AbsIs(s);
    ListedNode(s, infos, n);
    ListedInstance(s, infos, m, k);
    SameConflict(inst, inst.(nodeName := n.node.name), n.node.labels, m.instances[k], m.node.labels);
  }

  /** Where an instance is does not matter to what it repels, given the node. */
  lemma SameConflict(a: Instance, b: Instance, l: Labels, e: Instance, le: Labels)
    requires b == a.(nodeName := b.nodeName)
    ensures Conflict(a, l, e, le) <==> Conflict(b, l, e, le)
  {
    hide SelectorMatches;
    assert Terms(a) == Terms(b);
  }

  lemma ListedNode(s: State, infos: seq<Info>, n: Info)
    requires NamesFit(s) && Lists(infos, s) && n in infos
    ensures NodeOf(s, n.node.name) == Some(n.node) && Instances(s, n.node.name) == n.instances
  {
    var name :| name in s.nodes && s.nodes[name].node.Some? &&
        n == Info(s.nodes[name].node.value, s.nodes[name].instances);
    assert NodeOf(s, name).Some?;
  }

  lemma ListedInstance(s: State, infos: seq<Info>, m: Info, k: UID)
    requires Inv(s) && Lists(infos, s) && m in infos && k in m.instances
    ensures k in s.states && s.states[k].instance == m.instances[k] && m.instances[k].nodeName == m.node.name
    ensures NodeOf(s, m.node.name) == Some(m.node)
  {
    hide Lists, Instances, NodeOf;
    ListedNode(s, infos, m);
    assert InIts(s, k);
  }

  lemma ListedIn(s: State, infos: seq<Info>, k: UID) returns (m: Info)
    requires Inv(s) && Lists(infos, s) && k in s.states && NodeOf(s, s.states[k].instance.nodeName).Some?
    ensures m in infos && k in m.instances
  {
    var name := s.states[k].instance.nodeName;
    assert InIts(s, k);
    m := Info(s.nodes[name].node.value, s.nodes[name].instances);
  }

  // ---- Runs ------------------------------------------------------------------------------------

  /** Alike in everything anti-affinity depends on. */
  predicate Alike(a: Instance, b: Instance) {
    a.uid == b.uid && a.nodeName == b.nodeName && a.namespace == b.namespace && a.labels == b.labels &&
        a.affinity == b.affinity
  }

  /** What happens while nodes and labels stay as they are: the scheduler takes a snapshot; it
      assumes an instance on a node that passed the filter over its snapshot, which it takes anew for
      the next one; the watch confirms an assumed instance where it was assumed, or one of the other
      cache operations happens, between snapshot and assumption too. */
  datatype Event = Looked | Scheduled(inst: Instance, infos: seq<Info>, on: Info) | Happened(op: Op)

  /** The cache, and what it was at the snapshot of the decision under way. */
  datatype Progress = Progress(cache: State, view: Option<State>)

  function Next(p: Progress, e: Event): Progress {
    match e
    case Looked => p.(view := Some(p.cache))
    case Scheduled(inst, _, on) => Progress(Applied(p.cache, Assume(inst.(nodeName := on.node.name))), None)
    case Happened(op) => p.(cache := Applied(p.cache, op))
  }

  ghost predicate RegularOp(s: State, op: Op) {
    match op
    case Add(i) => i.uid in s.states && Alike(i, s.states[i.uid].instance)
    case Update(o, i) => o.uid in s.states ==> i.uid == o.uid && Alike(i, s.states[o.uid].instance)
    case Assume(_) => false
    case AddContainer(_) => false
    case UpdateContainer(_) => false
    case RemoveContainer(_) => false
    case _ => true
  }

  ghost predicate Regular(p: Progress, e: Event) {
    match e
    case Looked => true
    case Scheduled(inst, infos, on) =>
      p.view.Some? && Lists(infos, p.view.value) && on in infos && NoConflict(inst, on.node, infos)
    case Happened(op) => RegularOp(p.cache, op)
  }

  /** A decision for a suitable node is one of the events of the runs below. */
  lemma SuitableIsRegular(p: Progress, inst: Instance, infos: seq<Info>, n: Info)
    requires p.view.Some? && Lists(infos, p.view.value) && Suits(inst, n, infos)
    ensures Regular(p, Scheduled(inst, infos, n)) && SpreadFits(inst, n, infos)
  {
    hide Lists, NoConflict, SpreadFits, RequiredMatches;
  }

  /** Everything known now was known then, alike. */
  ghost predicate Covers(past: Cached, now: Cached) {
    && past.nodes == now.nodes
    && forall k | k in now.known :: k in past.known && Alike(now.known[k].instance, past.known[k].instance)
  }

  /** What clashed with nothing then clashes with nothing now. */
  lemma CoveredClashes(past: Cached, now: Cached, i: Instance)
    requires Covers(past, now) && ClashesWithNone(past, i)
    ensures ClashesWithNone(now, i)
  {
    hide Conflict;
    forall k | k in now.known && k != i.uid ensures !Clash(now.nodes, i, now.known[k].instance) {
      var a, b := now.known[k].instance, past.known[k].instance;
      assert !Clash(past.nodes, i, b);
      ClashIsSymmetric(now.nodes, i, a);
      ClashIsSymmetric(now.nodes, i, b);
      AlikeClash(now.nodes, a, b, i);
    }
  }

  lemma FewerStayConflictFree(c: Cached, d: Cached)
    requires ConflictFree(c) && d.nodes == c.nodes
    requires forall k | k in d.known :: k in c.known && d.known[k].instance == c.known[k].instance
    ensures ConflictFree(d)
  {
    hide Clash;
  }

  /** An instance replaced by one like it clashes no more than it did. */
  lemma ReplacingStaysConflictFree(c: Cached, i: Instance, status: Status)
    requires ConflictFree(c) && i.uid in c.known && Alike(i, c.known[i.uid].instance)
    ensures ConflictFree(c.(known := c.known[i.uid := Entry(i, status)]))
  {
    hide Conflict;
    forall k | k in c.known && k != i.uid ensures !Clash(c.nodes, i, c.known[k].instance) {
      assert !Clash(c.nodes, c.known[i.uid].instance, c.known[k].instance);
      AlikeClash(c.nodes, i, c.known[i.uid].instance, c.known[k].instance);
    }
    PlacingKeepsConflictFree(c, i, status);
  }

  lemma AlikeClash(nodes: map<string, Node>, a: Instance, b: Instance, other: Instance)
    requires Alike(a, b)
    ensures Clash(nodes, a, other) <==> Clash(nodes, b, other)
  {
    hide SelectorMatches;
    assert Terms(a) == Terms(b);
  }

  lemma OperationKeepsConflictFree(s: State, op: Op)
    requires Inv(s) && ConflictFree(Abs(s)) && RegularOp(s, op)
    ensures Inv(Applied(s, op)) && ConflictFree(Abs(Applied(s, op)))
  {
    hide Inv, Applied, ConflictFree, Abs;
    AbsIs(s);
    StepRefines(s, op);
    var c, d := Abs(s), Meant(Abs(s), op);
    match op
    case Add(i) =>
      if d != c {
        ReplacingStaysConflictFree(c, i, Confirmed);
      }
    case Update(o, i) =>
      if d != c {
        ReplacingStaysConflictFree(c, i, Confirmed);
      }
    case _ =>
      FewerStayConflictFree(c, d);
  }

  lemma OperationStaysCovered(past: Cached, s: State, op: Op)
    requires Inv(s) && Covers(past, Abs(s)) && RegularOp(s, op)
    ensures Covers(past, Abs(Applied(s, op)))
  {
    hide Inv, Applied, Abs;
    AbsIs(s);
    StepRefines(s, op);
  }

  /** The cache is free of conflicts, and what is in it was there at the snapshot. */
  ghost predicate Steady(p: Progress) {
    && Inv(p.cache) && ConflictFree(Abs(p.cache))
    && (p.view.Some? ==> Inv(p.view.value) && Covers(Abs(p.view.value), Abs(p.cache)))
  }

  lemma EventKeepsSteady(p: Progress, e: Event)
    requires Steady(p) && Regular(p, e)
    ensures Steady(Next(p, e))
  {
    hide Inv, Applied, ConflictFree, Abs, Lists, NoConflict, RegularOp, Covers;
    match e
    case Looked => CoversItself(Abs(p.cache));
    case Happened(op) =>
      OperationKeepsConflictFree(p.cache, op);
      if p.view.Some? {
        OperationStaysCovered(Abs(p.view.value), p.cache, op);
      }
    case Scheduled(inst, infos, on) =>
      var i := inst.(nodeName := on.node.name);
      NoConflictMeansNoClash(p.view.value, infos, inst, on);
      CoveredClashes(Abs(p.view.value), Abs(p.cache), i);
      AssumingStaysConflictFree(p.cache, i);
  }

  lemma CoversItself(c: Cached)
    ensures Covers(c, c)
  {
  }

  lemma AssumingStaysConflictFree(s: State, i: Instance)
    requires Inv(s) && ConflictFree(Abs(s)) && ClashesWithNone(Abs(s), i)
    ensures Inv(Applied(s, Assume(i))) && ConflictFree(Abs(Applied(s, Assume(i))))
  {
    hide Inv, Applied, ConflictFree, ClashesWithNone, Abs;
    AbsIs(s);
    StepRefines(s, Assume(i));
    PlacingKeepsConflictFree(Abs(s), i, Assumed(false));
  }

  ghost predicate AllRegular(p: Progress, events: seq<Event>)
    decreases |events|
  {
    events != [] ==> Regular(p, events[0]) && AllRegular(Next(p, events[0]), events[1..])
  }

  function AfterEvents(p: Progress, events: seq<Event>): Progress
    decreases |events|
  {
    if events == [] then p else AfterEvents(Next(p, events[0]), events[1..])
  }

  /** Every run of decisions, confirmations, forgets, expiries and removals, whatever comes between a
      snapshot and the assumption it leads to, keeps the cached placement free of anti-affinity
      conflicts, in both directions. */
  lemma {:induction false} RunsStayConflictFree(p: Progress, events: seq<Event>)
    requires Steady(p) && AllRegular(p, events)
    ensures Inv(AfterEvents(p, events).cache) && ConflictFree(Abs(AfterEvents(p, events).cache))
    decreases |events|
  {
    hide Inv, Next, ConflictFree, Abs, Regular;
    if events != [] {
      EventKeepsSteady(p, events[0]);
      RunsStayConflictFree(Next(p, events[0]), events[1..]);
    }
  }

  /** A confirmation that comes after the assumption expired is taken on trust: it keeps the cache
      free of conflicts exactly when nothing scheduled meanwhile clashes with it. */
  lemma LateConfirmation(s: State, i: Instance)
    requires Inv(s) && ConflictFree(Abs(s)) && i.uid != "" && i.uid !in s.states
    ensures ConflictFree(Abs(Applied(s, Add(i)))) <==> ClashesWithNone(Abs(s), i)
  {
    hide Inv, Applied, ConflictFree, ClashesWithNone, Abs;
    AbsIs(s);
    StepRefines(s, Add(i));
    PlacingKeepsConflictFree(Abs(s), i, Confirmed);
  }

  // ---- A late confirmation -----------------------------------------------------------------------

  const ZONED := Node("n", map["zone" := "z"])

  /** An instance that wants to be alone in its zone. */
  function Loner(uid: UID): Instance {
    var term := AntiAffinityTerm(Some(LabelSelector(map[], [])), "zone");
    Instance(uid, "ns", map[], Some(Affinity(None, Some([term]))), [], false, "n")
  }

  const EXPIRY := [AddContainer(ZONED), Assume(Loner("a")), FinishBinding(Loner("a")), Cleanup]

  const EXPIRED_STATE := State({}, map[], map["n" := Container(Some(ZONED), map[])])

  lemma ExpiryLeavesTheNode()
    ensures Ran(EMPTY, EXPIRY) == EXPIRED_STATE && Inv(EXPIRED_STATE)
  {
    hide Inv, Applied, Abs;
    var s0 := EMPTY;
    var s1 := Applied(s0, EXPIRY[0]);
    var s2 := Applied(s1, EXPIRY[1]);
    var s3 := Applied(s2, EXPIRY[2]);
    var s4 := Applied(s3, EXPIRY[3]);
    RunsKeepInv([]);
    RunsKeepInv([AddContainer(ZONED)]);
    StepRefines(s0, EXPIRY[0]);
    StepRefines(s1, EXPIRY[1]);
    StepRefines(s2, EXPIRY[2]);
    StepRefines(s3, EXPIRY[3]);
    assert Abs(s0) == Cached(map[], map[]) by { EmptyMeans(); }
    assert Abs(s4) == Cached(map[], map["n" := ZONED]);
    ExpiredMeans();
    StateIsDetermined(s4, EXPIRED_STATE);
    RanFour(s0, EXPIRY);
  }

  lemma EmptyMeans()
    ensures Abs(EMPTY) == Cached(map[], map[])
  {
  }

  lemma ExpiredMeans()
    ensures Inv(EXPIRED_STATE) && Abs(EXPIRED_STATE) == Cached(map[], map["n" := ZONED])
  {
    assert Abs(EXPIRED_STATE).nodes == map["n" := ZONED];
  }

  lemma RanFour(s: State, ops: seq<Op>)
    requires |ops| == 4
    ensures Ran(s, ops) == Applied(Applied(Applied(Applied(s, ops[0]), ops[1]), ops[2]), ops[3])
  {
    hide Applied;
    assert ops[..3][..2] == ops[..2] && ops[..2][..1] == ops[..1] && ops[..1][..0] == [];
    assert Ran(s, ops[..1]) == Applied(s, ops[0]);
    assert Ran(s, ops[..2]) == Applied(Ran(s, ops[..1]), ops[1]);
    assert Ran(s, ops[..3]) == Applied(Ran(s, ops[..2]), ops[2]);
  }

  /** One loner is assumed and bound, and expires before the watch shows it; the zone being empty for
      all the cache knows, another one is scheduled there; then the first is confirmed, and the two
      are in conflict. */
  lemma LateConfirmationConflicts()
    ensures var s, n := Ran(EMPTY, EXPIRY), Info(ZONED, map[]);
            && Lists([n], s) && Suits(Loner("b"), n, [n])
            && ConflictFree(Abs(Applied(s, Assume(Loner("b")))))
            && !ConflictFree(Abs(Applied(Applied(s, Assume(Loner("b"))), Add(Loner("a")))))
  {
    hide Applied, Abs, Inv, Clash;
    ExpiryLeavesTheNode();
    ExpiredMeans();
    var s := EXPIRED_STATE;
    var t := Applied(s, Assume(Loner("b")));
    EmptyZoneSuits();
    StepRefines(s, Assume(Loner("b")));
    assert Abs(t).known == map["b" := Entry(Loner("b"), Assumed(false))];
    StepRefines(t, Add(Loner("a")));
    LonersClash("a", "b");
    var d := Abs(Applied(t, Add(Loner("a"))));
    assert "a"[0] != "b"[0];
    assert d.known["a"].instance == Loner("a") && d.known["b"].instance == Loner("b");
    assert Clash(d.nodes, d.known["a"].instance, d.known["b"].instance);
  }

  lemma EmptyZoneSuits()
    ensures var n := Info(ZONED, map[]); Lists([n], EXPIRED_STATE) && Suits(Loner("b"), n, [n])
  {
    var n := Info(ZONED, map[]);
    assert n in [n];
    assert "n" in EXPIRED_STATE.nodes;
  }

  lemma LonersClash(a: UID, b: UID)
    ensures Clash(map["n" := ZONED], Loner(a), Loner(b))
  {
    assert Terms(Loner(a))[0] in Terms(Loner(a));
  }
}
