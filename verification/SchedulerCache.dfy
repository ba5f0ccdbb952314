/** The scheduler's optimistic cache (internal/controllers/scheduler/cache.go): what it knows about
    placed instances, indexed by container, with instances placed on trust until confirmed. */
module SchedulerCache {
  import opened Wrappers
  import opened Api
  import opened Labels
  import opened NodeAffinity

  datatype SpreadConstraint = SpreadConstraint(maxSkew: int, topologyKey: string, selector: Option<LabelSelector>)

  /** An instance reaches the cache only with a node; before it has one the name means nothing. */
  datatype Instance = Instance(uid: UID, namespace: string, labels: Labels, affinity: Option<Affinity>,
                               spread: seq<SpreadConstraint>, deleting: bool, nodeName: string)

  datatype InstanceState = InstanceState(instance: Instance, bindingFinished: bool)

  datatype Container = Container(node: Option<Node>, instances: map<UID, Instance>)

  /** The fields of the cache. */
  datatype State = State(assumed: set<UID>, states: map<UID, InstanceState>, nodes: map<string, Container>)

  const EMPTY := State({}, map[], map[])

  datatype Op =
    | Assume(inst: Instance)
    | Forget(inst: Instance)
    | FinishBinding(inst: Instance)
    | AddContainer(node: Node)
    | UpdateContainer(node: Node)
    | RemoveContainer(node: Node)
    | Add(inst: Instance)
    | Update(was: Instance, inst: Instance)
    | Remove(inst: Instance)
    | Cleanup

  // ---- What the operations do to the fields ----------------------------------------------------

  function Inserted(s: State, key: UID, i: Instance, onTrust: bool): State {
    var n := if i.nodeName in s.nodes then s.nodes[i.nodeName] else Container(None, map[]);
    State(if onTrust then s.assumed + {key} else s.assumed,
          s.states[key := InstanceState(i, false)],
          s.nodes[i.nodeName := n.(instances := n.instances[key := i])])
  }

  /** A container that holds nothing and has no node is dropped. */
  function Removed(s: State, key: UID, container: string): State {
    var nodes :=
      if container !in s.nodes then s.nodes
      else
        var n := s.nodes[container].(instances := s.nodes[container].instances - {key});
        if n.instances == map[] && n.node.None? then s.nodes - {container} else s.nodes[container := n];
    State(s.assumed - {key}, s.states - {key}, nodes)
  }

  function WithNode(s: State, node: Node): State {
    var n := if node.name in s.nodes then s.nodes[node.name] else Container(None, map[]);
    s.(nodes := s.nodes[node.name := n.(node := Some(node))])
  }

  function WithoutNode(s: State, name: string): State {
    if name !in s.nodes then s
    else if s.nodes[name].instances == map[] then s.(nodes := s.nodes - {name})
    else s.(nodes := s.nodes[name := s.nodes[name].(node := None)])
  }

  /** All of the keys gone, with the containers nothing is left in. */
  function Purged(s: State, keys: set<UID>): State {
    State(s.assumed - keys, s.states - keys,
          map n | n in s.nodes && (s.nodes[n].node.Some? || s.nodes[n].instances - keys != map[])
            :: Container(s.nodes[n].node, s.nodes[n].instances - keys))
  }

  /** Assumed, with the binding over. */
  function Expired(s: State): set<UID> {
    set k | k in s.assumed && k in s.states && s.states[k].bindingFinished
  }

  /** The fields after an operation, whether it succeeded or not. */
  function Applied(s: State, op: Op): State {
    match op
    case Assume(i) => if i.uid == "" || i.uid in s.states then s else Inserted(s, i.uid, i, true)
    case Forget(i) =>
      if i.uid != "" && i.uid in s.states && s.states[i.uid].instance.nodeName == i.nodeName && i.uid in s.assumed
      then Removed(s, i.uid, i.nodeName) else s
    case FinishBinding(i) =>
      if i.uid != "" && i.uid in s.states && i.uid in s.assumed
      then s.(states := s.states[i.uid := s.states[i.uid].(bindingFinished := true)]) else s
    case AddContainer(node) => WithNode(s, node)
    case UpdateContainer(node) => WithNode(s, node)
    case RemoveContainer(node) => WithoutNode(s, node.name)
    case Add(i) =>
      if i.uid == "" then s
      else if i.uid in s.states && i.uid in s.assumed then
        Inserted(Removed(s, i.uid, s.states[i.uid].instance.nodeName), i.uid, i, false)
      else if i.uid !in s.states then Inserted(s, i.uid, i, false)
      else s
    case Update(o, i) =>
      if o.uid == "" || o.uid !in s.states || o.uid in s.assumed ||
        s.states[o.uid].instance.nodeName != i.nodeName
      then s
      else Inserted(Removed(s, o.uid, o.nodeName), o.uid, i, false)
    case Remove(i) =>
      if i.uid == "" || i.uid !in s.states || s.states[i.uid].instance.nodeName != i.nodeName then s
      else Removed(s, i.uid, i.nodeName)
    case Cleanup => Purged(s, Expired(s))
  }

  function Ran(s: State, ops: seq<Op>): State {
    if ops == [] then s else Applied(Ran(s, ops[..|ops| - 1]), ops[|ops| - 1])
  }

  // ---- The invariant ---------------------------------------------------------------------------

  function Instances(s: State, n: string): map<UID, Instance> {
    if n in s.nodes then s.nodes[n].instances else map[]
  }

  function NodeOf(s: State, n: string): Option<Node> {
    if n in s.nodes then s.nodes[n].node else None
  }

  /** Each known instance is in the container its state names. */
  ghost predicate Filed(s: State) {
    forall k | k in s.states :: InIts(s, k)
  }

  ghost predicate InIts(s: State, k: UID)
    requires k in s.states
  {
    var i := s.states[k].instance;
    k in Instances(s, i.nodeName) && Instances(s, i.nodeName)[k] == i
  }

  /** And in no other, and nothing else is in any. */
  ghost predicate FiledOnce(s: State) {
    forall n, k | k in Instances(s, n) :: k in s.states && s.states[k].instance.nodeName == n
  }

  ghost predicate InUse(s: State) {
    forall n | n in s.nodes :: NodeOf(s, n).Some? || Instances(s, n) != map[]
  }

  ghost predicate NamesFit(s: State) {
    forall n | NodeOf(s, n).Some? :: NodeOf(s, n).value.name == n
  }

  ghost predicate Inv(s: State) {
    && Filed(s) && FiledOnce(s) && InUse(s) && NamesFit(s)
    && s.assumed <= s.states.Keys
    && (forall k | k in s.states && s.states[k].bindingFinished :: k in s.assumed)
  }

  // ---- What the cache stands for ---------------------------------------------------------------

  datatype Status = Confirmed | Assumed(bound: bool)

  datatype Entry = Entry(instance: Instance, status: Status)

  /** Just who is where and which nodes there are; the containers are an index of it. */
  datatype Cached = Cached(known: map<UID, Entry>, nodes: map<string, Node>)

  function Abs(s: State): Cached {
    Cached(map k | k in s.states ::
           Entry(s.states[k].instance, if k in s.assumed then Assumed(s.states[k].bindingFinished) else Confirmed),
           map n | n in s.nodes && s.nodes[n].node.Some? :: s.nodes[n].node.value)
  }

  /** The operations on what the cache stands for. */
  function Meant(c: Cached, op: Op): Cached {
    match op
    case Assume(i) =>
      if i.uid == "" || i.uid in c.known then c else c.(known := c.known[i.uid := Entry(i, Assumed(false))])
    case Forget(i) =>
      if i.uid != "" && i.uid in c.known && c.known[i.uid].status.Assumed? &&
          c.known[i.uid].instance.nodeName == i.nodeName
      then c.(known := c.known - {i.uid}) else c
    case FinishBinding(i) =>
      if i.uid != "" && i.uid in c.known && c.known[i.uid].status.Assumed?
      then c.(known := c.known[i.uid := c.known[i.uid].(status := Assumed(true))]) else c
    case AddContainer(node) => c.(nodes := c.nodes[node.name := node])
    case UpdateContainer(node) => c.(nodes := c.nodes[node.name := node])
    case RemoveContainer(node) => c.(nodes := c.nodes - {node.name})
    case Add(i) =>
      if i.uid == "" || (i.uid in c.known && c.known[i.uid].status.Confirmed?) then c
      else c.(known := c.known[i.uid := Entry(i, Confirmed)])
    case Update(o, i) =>
      if o.uid != "" && o.uid in c.known && c.known[o.uid].status.Confirmed? &&
          c.known[o.uid].instance.nodeName == i.nodeName
      then c.(known := c.known[o.uid := Entry(i, Confirmed)]) else c
    case Remove(i) =>
      if i.uid != "" && i.uid in c.known && c.known[i.uid].instance.nodeName == i.nodeName
      then c.(known := c.known - {i.uid}) else c
    case Cleanup => c.(known := map k | k in c.known && c.known[k].status != Assumed(true) :: c.known[k])
  }

  /** Abs, entry by entry. */
  lemma AbsIs(s: State)
    ensures Abs(s).known.Keys == s.states.Keys
    ensures forall k | k in s.states ::
              Abs(s).known[k] == Entry(s.states[k].instance, if k in s.assumed then
                                       Assumed(s.states[k].bindingFinished) else Confirmed)
    ensures forall n :: n in Abs(s).nodes <==> NodeOf(s, n).Some?
    ensures forall n | NodeOf(s, n).Some? :: Abs(s).nodes[n] == NodeOf(s, n).value
  {
  }

  /** The index holds nothing the entries do not say: states that stand for the same are the same. */
  lemma StateIsDetermined(s: State, t: State)
    requires Inv(s) && Inv(t) && Abs(s) == Abs(t)
    ensures s == t
  {
    hide Abs, Filed, FiledOnce, InUse, NamesFit;
    AbsIs(s);
    AbsIs(t);
    forall k | k in s.states ensures s.states[k] == t.states[k] && (k in s.assumed <==> k in t.assumed) {
      assert Abs(s).known[k] == Abs(t).known[k];
    }
    assert s.states == t.states && s.assumed == t.assumed;
    forall n | n in s.nodes || n in t.nodes ensures n in s.nodes && n in t.nodes && s.nodes[n] == t.nodes[n] {
      SameInstances(s, t, n);
      SameInstances(t, s, n);
      assert Instances(s, n) == Instances(t, n);
      assert NodeOf(s, n) == NodeOf(t, n) by { assert NodeOf(s, n).Some? <==> n in Abs(s).nodes; }
      KeptForSomething(s, n);
      KeptForSomething(t, n);
    }
    assert s.nodes == t.nodes;
  }

  lemma SameInstances(s: State, t: State, n: string)
    requires Filed(s) && FiledOnce(s) && Filed(t) && FiledOnce(t) && s.states == t.states
    ensures forall k | k in Instances(s, n) :: k in Instances(t, n) && Instances(t, n)[k] == Instances(s, n)[k]
  {
    forall k | k in Instances(s, n) ensures k in Instances(t, n) && Instances(t, n)[k] == Instances(s, n)[k] {
      assert InIts(s, k) && InIts(t, k);
    }
  }

  lemma KeptForSomething(s: State, n: string)
    requires InUse(s)
    ensures n in s.nodes <==> NodeOf(s, n).Some? || Instances(s, n) != map[]
  {
  }

  // ---- The operations keep the invariant and do what they are meant to -------------------------

  /** Only one container differs. */
  ghost predicate OthersSame(s: State, t: State, container: string) {
    && (forall n | n != container :: Instances(t, n) == Instances(s, n))
    && (forall n | n != container :: NodeOf(t, n) == NodeOf(s, n))
  }

  lemma InsertedShape(s: State, key: UID, i: Instance, onTrust: bool)
    ensures var t := Inserted(s, key, i, onTrust);
            && t.states == s.states[key := InstanceState(i, false)]
            && t.assumed == (if onTrust then s.assumed + {key} else s.assumed)
            && OthersSame(s, t, i.nodeName)
            && Instances(t, i.nodeName) == Instances(s, i.nodeName)[key := i] &&
                NodeOf(t, i.nodeName) == NodeOf(s, i.nodeName)
    ensures InUse(s) ==> InUse(Inserted(s, key, i, onTrust))
  {
    var t := Inserted(s, key, i, onTrust);
    assert key in Instances(t, i.nodeName);
    assert forall n | n != i.nodeName && n in t.nodes :: n in s.nodes;
  }

  lemma RemovedShape(s: State, key: UID, container: string)
    ensures var t := Removed(s, key, container);
            && t.states == s.states - {key} && t.assumed == s.assumed - {key}
            && OthersSame(s, t, container)
            && Instances(t, container) == Instances(s, container) - {key} &&
                NodeOf(t, container) == NodeOf(s, container)
    ensures InUse(s) ==> InUse(Removed(s, key, container))
  {
    var t := Removed(s, key, container);
    assert forall n | n != container && n in t.nodes :: n in s.nodes;
  }

  lemma SameNodesMeant(s: State, t: State)
    requires forall n :: NodeOf(t, n) == NodeOf(s, n)
    ensures Abs(t).nodes == Abs(s).nodes
  {
    hide Abs, NodeOf;
    AbsIs(s);
    AbsIs(t);
    assert forall n :: n in Abs(t).nodes <==> n in Abs(s).nodes;
  }

  lemma SameEntriesMeant(s: State, t: State)
    requires s.states == t.states && s.assumed == t.assumed
    ensures Abs(t).known == Abs(s).known
  {
    hide Abs;
    AbsIs(s);
    AbsIs(t);
  }

  lemma EntryInserted(s: State, t: State, key: UID, i: Instance, finished: bool)
    requires t.states == s.states[key := InstanceState(i, finished)]
    requires forall k | k != key && k in s.states :: k in t.assumed <==> k in s.assumed
    ensures Abs(t).known == Abs(s).known[key := Entry(i, if key in t.assumed then Assumed(finished) else Confirmed)]
  {
    hide Abs;
    AbsIs(s);
    AbsIs(t);
  }

  lemma EntriesRemoved(s: State, t: State, keys: set<UID>)
    requires t.states == s.states - keys
    requires forall k | k !in keys && k in s.states :: k in t.assumed <==> k in s.assumed
    ensures Abs(t).known == Abs(s).known - keys
  {
    hide Abs;
    AbsIs(s);
    AbsIs(t);
  }

  /** Everything but what there is to know of one key is filed as before. */
  lemma StaysFiled(s: State, t: State, key: UID)
    requires Filed(s) &&
              (forall k | k != key && k in t.states :: k in s.states && t.states[k].instance == s.states[k].instance)
    requires forall n, k | k != key && k in Instances(s, n) ::
              k in Instances(t, n) && Instances(t, n)[k] == Instances(s, n)[k]
    requires key in t.states ==> InIts(t, key)
    ensures Filed(t)
  {
    hide Instances;
    forall k | k in t.states ensures InIts(t, k) {
      assert k != key ==> InIts(s, k);
    }
  }

  lemma StaysFiledOnce(s: State, t: State, key: UID)
    requires FiledOnce(s) &&
              (forall k | k != key && k in s.states :: k in t.states && t.states[k].instance == s.states[k].instance)
    requires forall n, k | k != key && k in Instances(t, n) :: k in Instances(s, n)
    requires forall n | key in Instances(t, n) :: key in t.states && t.states[key].instance.nodeName == n
    ensures FiledOnce(t)
  {
    hide Instances;
  }

  lemma FiledOnlyAt(s: State, key: UID)
    requires FiledOnce(s)
    ensures forall n | key in Instances(s, n) :: key in s.states && s.states[key].instance.nodeName == n
  {
    hide Instances;
  }

  lemma InsertedIs(s: State, key: UID, i: Instance, onTrust: bool)
    requires Inv(s) && key !in s.states
    ensures Inv(Inserted(s, key, i, onTrust))
    ensures Abs(Inserted(s, key, i, onTrust)) ==
              Abs(s).(known := Abs(s).known[key := Entry(i, if onTrust then Assumed(false) else Confirmed)])
  {
    hide Inserted, Abs, Instances, NodeOf, InUse, Filed, FiledOnce;
    var t := Inserted(s, key, i, onTrust);
    InsertedShape(s, key, i, onTrust);
    SameNodesMeant(s, t);
    EntryInserted(s, t, key, i, false);
    StaysFiled(s, t, key);
    FiledOnlyAt(s, key);
    StaysFiledOnce(s, t, key);
  }

  lemma RemovedIs(s: State, key: UID)
    requires Inv(s) && key in s.states
    ensures Inv(Removed(s, key, s.states[key].instance.nodeName))
    ensures Abs(Removed(s, key, s.states[key].instance.nodeName)) == Abs(s).(known := Abs(s).known - {key})
  {
    hide Removed, Abs, Instances, NodeOf, InUse, Filed, FiledOnce;
    var t := Removed(s, key, s.states[key].instance.nodeName);
    RemovedShape(s, key, s.states[key].instance.nodeName);
    SameNodesMeant(s, t);
    EntriesRemoved(s, t, {key});
    StaysFiled(s, t, key);
    FiledOnlyAt(s, key);
    StaysFiledOnce(s, t, key);
  }

  /** Replacing a confirmed instance works out whatever container the old object names, as long as
      the new one names the recorded container: the entry missed by the removal is overwritten. */
  lemma ReplacedIs(s: State, key: UID, container: string, i: Instance)
    requires Inv(s) && key in s.states && s.states[key].instance.nodeName == i.nodeName
    ensures var t := Inserted(Removed(s, key, container), key, i, false);
            Inv(t) && Abs(t) == Abs(s).(known := Abs(s).known[key := Entry(i, Confirmed)])
  {
    hide Inserted, Removed, Abs, Instances, NodeOf, InUse, Filed, FiledOnce;
    var t := Inserted(Removed(s, key, container), key, i, false);
    ReplacedShape(s, key, container, i);
    SameNodesMeant(s, t);
    EntryInserted(s, t, key, i, false);
    StaysFiled(s, t, key);
    FiledOnlyAt(s, key);
    StaysFiledOnce(s, t, key);
  }

  lemma ReplacedShape(s: State, key: UID, container: string, i: Instance)
    requires FiledOnce(s) && key in s.states && s.states[key].instance.nodeName == i.nodeName
    ensures var t := Inserted(Removed(s, key, container), key, i, false);
            && t.states == s.states[key := InstanceState(i, false)] && t.assumed == s.assumed - {key}
            && OthersSame(s, t, i.nodeName)
            && Instances(t, i.nodeName) == Instances(s, i.nodeName)[key := i] &&
                NodeOf(t, i.nodeName) == NodeOf(s, i.nodeName)
            && (InUse(s) ==> InUse(t))
  {
    hide Inserted, Removed, Instances, NodeOf, InUse;
    RemovedShape(s, key, container);
    InsertedShape(Removed(s, key, container), key, i, false);
    if container != i.nodeName {
      assert key !in Instances(s, container);
      assert Instances(s, container) - {key} == Instances(s, container);
    }
  }

  lemma WithNodeShape(s: State, node: Node)
    ensures var t := WithNode(s, node);
            && (forall n :: Instances(t, n) == Instances(s, n))
            && (forall n :: NodeOf(t, n) == if n == node.name then Some(node) else NodeOf(s, n))
    ensures InUse(s) ==> InUse(WithNode(s, node))
  {
    var t := WithNode(s, node);
    assert forall n | n != node.name && n in t.nodes :: n in s.nodes;
  }

  lemma WithoutNodeShape(s: State, name: string)
    ensures var t := WithoutNode(s, name);
            && (forall n :: Instances(t, n) == Instances(s, n))
            && (forall n :: NodeOf(t, n) == if n == name then None else NodeOf(s, n))
    ensures InUse(s) ==> InUse(WithoutNode(s, name))
  {
    var t := WithoutNode(s, name);
    assert forall n | n != name && n in t.nodes :: n in s.nodes;
  }

  /** The same instances in the same containers. */
  lemma SameFiling(s: State, t: State)
    requires Filed(s) && FiledOnce(s) && t.states == s.states && forall n :: Instances(t, n) == Instances(s, n)
    ensures Filed(t) && FiledOnce(t)
  {
    hide Instances;
    forall k | k in t.states ensures InIts(t, k) {
      assert InIts(s, k);
    }
  }

  lemma NodeAddedMeans(s: State, t: State, node: Node)
    requires forall n :: NodeOf(t, n) == if n == node.name then Some(node) else NodeOf(s, n)
    ensures Abs(t).nodes == Abs(s).nodes[node.name := node] && (NamesFit(s) ==> NamesFit(t))
  {
    hide Abs, NodeOf;
    AbsIs(s);
    AbsIs(t);
  }

  lemma NodeRemovedMeans(s: State, t: State, name: string)
    requires forall n :: NodeOf(t, n) == if n == name then None else NodeOf(s, n)
    ensures Abs(t).nodes == Abs(s).nodes - {name} && (NamesFit(s) ==> NamesFit(t))
  {
    hide Abs, NodeOf;
    AbsIs(s);
    AbsIs(t);
  }

  lemma WithNodeKeeps(s: State, node: Node)
    ensures WithNode(s, node).states == s.states && WithNode(s, node).assumed == s.assumed
    ensures WithoutNode(s, node.name).states == s.states && WithoutNode(s, node.name).assumed == s.assumed
  {
  }

  lemma WithNodeIs(s: State, node: Node)
    requires Inv(s)
    ensures Inv(WithNode(s, node))
    ensures Abs(WithNode(s, node)) == Abs(s).(nodes := Abs(s).nodes[node.name := node])
  {
    hide WithNode, Abs, Instances, NodeOf, InUse, Filed, FiledOnce, NamesFit;
    var t := WithNode(s, node);
    WithNodeKeeps(s, node);
    WithNodeShape(s, node);
    SameEntriesMeant(s, t);
    SameFiling(s, t);
    NodeAddedMeans(s, t, node);
  }

  lemma WithoutNodeIs(s: State, node: Node)
    requires Inv(s)
    ensures Inv(WithoutNode(s, node.name))
    ensures Abs(WithoutNode(s, node.name)) == Abs(s).(nodes := Abs(s).nodes - {node.name})
  {
    hide WithoutNode, Abs, Instances, NodeOf, InUse, Filed, FiledOnce, NamesFit;
    var t := WithoutNode(s, node.name);
    WithNodeKeeps(s, node);
    WithoutNodeShape(s, node.name);
    SameEntriesMeant(s, t);
    SameFiling(s, t);
    NodeRemovedMeans(s, t, node.name);
  }

  lemma PurgedShape(s: State, keys: set<UID>)
    requires InUse(s)
    ensures var t := Purged(s, keys);
            && t.states == s.states - keys && t.assumed == s.assumed - keys
            && (forall n :: Instances(t, n) == Instances(s, n) - keys)
            && (forall n :: NodeOf(t, n) == NodeOf(s, n))
            && InUse(t)
  {
  }

  lemma PurgedIs(s: State, keys: set<UID>)
    requires Inv(s)
    ensures Inv(Purged(s, keys)) && Abs(Purged(s, keys)) == Abs(s).(known := Abs(s).known - keys)
  {
    hide Purged, Abs, Instances, NodeOf, InUse;
    var t := Purged(s, keys);
    PurgedShape(s, keys);
    SameNodesMeant(s, t);
    EntriesRemoved(s, t, keys);
    forall k | k in t.states ensures InIts(t, k) {
      assert InIts(s, k);
    }
  }

  lemma BindingFinishedIs(s: State, key: UID)
    requires Inv(s) && key in s.assumed && key in s.states
    ensures var t := s.(states := s.states[key := s.states[key].(bindingFinished := true)]);
            Inv(t) && Abs(t) == Abs(s).(known := Abs(s).known[key := Abs(s).known[key].(status := Assumed(true))])
  {
    hide Abs, Instances, NodeOf, InUse, Filed, FiledOnce;
    var t := s.(states := s.states[key := s.states[key].(bindingFinished := true)]);
    AbsIs(s);
    ContentsSame(s, t);
    SameNodesMeant(s, t);
    EntryInserted(s, t, key, s.states[key].instance, true);
    assert InIts(t, key) by { FiledAt(s, key); }
    StaysFiled(s, t, key);
    FiledOnlyAt(s, key);
    StaysFiledOnce(s, t, key);
  }

  lemma FiledAt(s: State, key: UID)
    requires Filed(s) && key in s.states
    ensures InIts(s, key)
  {
  }

  lemma ContentsSame(s: State, t: State)
    requires s.nodes == t.nodes
    ensures forall n :: Instances(t, n) == Instances(s, n)
    ensures forall n :: NodeOf(t, n) == NodeOf(s, n)
    ensures InUse(s) ==> InUse(t)
  {
  }

  /** Every operation keeps the invariant and does to the index what it means for the entries. */
  lemma StepRefines(s: State, op: Op)
    requires Inv(s)
    ensures Inv(Applied(s, op)) && Abs(Applied(s, op)) == Meant(Abs(s), op)
  {
    hide Filed, FiledOnce, InUse, NamesFit, Inserted, Removed, WithNode, WithoutNode, Purged, Abs;
    AbsIs(s);
    match op
    case Assume(i) => if i.uid != "" && i.uid !in s.states { InsertedIs(s, i.uid, i, true); }
    case Forget(i) => if i.uid in s.states { RemovedIs(s, i.uid); }
    case FinishBinding(i) => if i.uid in s.states && i.uid in s.assumed { BindingFinishedIs(s, i.uid); }
    case AddContainer(node) => WithNodeIs(s, node);
    case UpdateContainer(node) => WithNodeIs(s, node);
    case RemoveContainer(node) => WithoutNodeIs(s, node);
    case Add(i) =>
      if i.uid !in s.states {
        InsertedIs(s, i.uid, i, false);
      } else {
        MovedIs(s, i.uid, i);
      }
    case Update(o, i) =>
      if o.uid in s.states && s.states[o.uid].instance.nodeName == i.nodeName {
        ReplacedIs(s, o.uid, o.nodeName, i);
      }
    case Remove(i) => if i.uid in s.states { RemovedIs(s, i.uid); }
    case Cleanup => CleanupIs(s);
  }

  lemma CleanupIs(s: State)
    requires Inv(s)
    ensures Inv(Purged(s, Expired(s))) && Abs(Purged(s, Expired(s))) == Meant(Abs(s), Cleanup)
  {
    hide Purged, Abs, Filed, FiledOnce, InUse, NamesFit;
    PurgedIs(s, Expired(s));
    AbsIs(s);
    var known := Abs(s).known;
    assert known - Expired(s) == map k | k in known && known[k].status != Assumed(true) :: known[k];
  }

  lemma MovedIs(s: State, key: UID, i: Instance)
    requires Inv(s) && key in s.states
    ensures var t := Inserted(Removed(s, key, s.states[key].instance.nodeName), key, i, false);
            Inv(t) && Abs(t) == Abs(s).(known := Abs(s).known[key := Entry(i, Confirmed)])
  {
    hide Inv, Inserted, Abs;
    var m := Removed(s, key, s.states[key].instance.nodeName);
    RemovedIs(s, key);
    InsertedIs(m, key, i, false);
    assert (Abs(s).known - {key})[key := Entry(i, Confirmed)] == Abs(s).known[key := Entry(i, Confirmed)];
  }

  /** Every sequence of operations on a new cache, including failed ones, keeps the invariant: each
      known instance is in exactly one container, the one its state names, assumed instances are
      known, and a container stays only for a node or an instance. */
  lemma {:induction false} RunsKeepInv(ops: seq<Op>)
    ensures Inv(Ran(EMPTY, ops))
  {
    if ops != [] {
      RunsKeepInv(ops[..|ops| - 1]);
      StepRefines(Ran(EMPTY, ops[..|ops| - 1]), ops[|ops| - 1]);
    }
  }

  // ---- Undoing and overriding ------------------------------------------------------------------

  /** Forgetting what was assumed restores every field, containers included. */
  lemma AssumeForgetRestores(s: State, i: Instance)
    requires Inv(s) && i.uid != "" && i.uid !in s.states
    ensures Applied(Applied(s, Assume(i)), Forget(i)) == s
  {
    hide Inv, Applied;
    var t := Applied(s, Assume(i));
    StepRefines(s, Assume(i));
    StepRefines(t, Forget(i));
    var known := Abs(s).known;
    assert known[i.uid := Entry(i, Assumed(false))] - {i.uid} == known;
    StateIsDetermined(Applied(t, Forget(i)), s);
  }

  /** Confirmation overrides an assumption, wherever the instance was assumed to be. */
  lemma AddOverridesAssume(s: State, assumed: Instance, actual: Instance)
    requires Inv(s) && actual.uid == assumed.uid && actual.uid !in s.states
    ensures Applied(Applied(s, Assume(assumed)), Add(actual)) == Applied(s, Add(actual))
  {
    hide Inv, Applied;
    var t := Applied(s, Assume(assumed));
    StepRefines(s, Assume(assumed));
    StepRefines(t, Add(actual));
    StepRefines(s, Add(actual));
    var known := Abs(s).known;
    assert known[actual.uid := Entry(assumed, Assumed(false))][actual.uid := Entry(actual, Confirmed)] ==
        known[actual.uid := Entry(actual, Confirmed)];
    StateIsDetermined(Applied(t, Add(actual)), Applied(s, Add(actual)));
  }

  /** Cleaning up removes exactly the assumed instances whose binding is over, never a confirmed one. */
  lemma CleanupExpiresExactly(s: State, k: UID)
    requires Inv(s)
    ensures k in Applied(s, Cleanup).states <==> k in s.states && !(k in s.assumed && s.states[k].bindingFinished)
    ensures k in Applied(s, Cleanup).states ==> Applied(s, Cleanup).states[k] == s.states[k]
    ensures k in s.states && k !in s.assumed ==> k in Applied(s, Cleanup).states && k !in Applied(s, Cleanup).assumed
  {
  }

  // ---- The cache -------------------------------------------------------------------------------

  datatype Error = NoUID | InCache | Misplaced | NotAssumed | NotFound | StillAssumed | AlreadyAdded | Panics

  /** What the methods promise of the fields is Applied; StepRefines and RunsKeepInv are about that. */
  class Cache {
    var assumed: set<UID>
    var states: map<UID, InstanceState>
    var nodes: map<string, Container>

    ghost function Fields(): State
      reads this
    {
      State(assumed, states, nodes)
    }

    ghost predicate Valid()
      reads this
    {
      Inv(Fields())
    }

    constructor ()
      ensures Valid() && Fields() == EMPTY
    {
      assumed, states, nodes := {}, map[], map[];
    }

    /** The containers that have a node, as they are now. */
    method Snapshot() returns (nodes: map<string, Container>)
      ensures nodes == map n | n in this.nodes && this.nodes[n].node.Some? :: this.nodes[n]
    {
      nodes := map[];
      var rest := this.nodes.Keys;
      while rest != {}
        invariant rest <= this.nodes.Keys
        invariant nodes == map n | n in this.nodes && n !in rest && this.nodes[n].node.Some? :: this.nodes[n]
      {
        var key :| key in rest;
        rest := rest - {key};
        var n := this.nodes[key];
        if n.node.None? {
          continue;
        }
        nodes := nodes[key := Container(n.node, n.instances)];
      }
    }

    method IsAssumedInstance(inst: Instance) returns (r: Result<bool, Error>)
      ensures r == if inst.uid == "" then Err(NoUID) else Ok(inst.uid in assumed)
    {
      if inst.uid == "" {
        return Err(NoUID);
      }
      r := Ok(inst.uid in assumed);
    }

    method AddInstanceEntry(key: UID, inst: Instance, onTrust: bool)
      modifies this
      ensures Fields() == Inserted(old(Fields()), key, inst, onTrust)
    {
      var containerKey := inst.nodeName;
      var n;
      if containerKey in nodes {
        n := nodes[containerKey];
      } else {
        n := Container(None, map[]);
        nodes := nodes[containerKey := n];
      }
      nodes := nodes[containerKey := n.(instances := n.instances[key := inst])];
      states := states[key := InstanceState(inst, false)];
      if onTrust {
        assumed := assumed + {key};
      }
    }

    method RemoveInstanceEntry(key: UID, inst: Instance)
      modifies this
      ensures Fields() == Removed(old(Fields()), key, inst.nodeName)
    {
      var containerKey := inst.nodeName;
      if containerKey in nodes {
        var n := nodes[containerKey];
        n := n.(instances := n.instances - {key});
        if n.instances == map[] && n.node.None? {
          nodes := nodes - {containerKey};
        } else {
          nodes := nodes[containerKey := n];
        }
      }
      assumed := assumed - {key};
      states := states - {key};
    }

    method AssumeInstance(inst: Instance) returns (err: Option<Error>)
      requires Valid()
      modifies this
      ensures Valid() && Fields() == Applied(old(Fields()), Op.Assume(inst))
      ensures err == if inst.uid == "" then Some(NoUID) else if inst.uid in old(states) then Some(InCache) else None
      ensures states == if err.None? then old(states)[inst.uid := InstanceState(inst, false)] else old(states)
      ensures assumed == if err.None? then old(assumed) + {inst.uid} else old(assumed)
    {
      hide Filed, FiledOnce, InUse, NamesFit, Abs, Meant;
      StepRefines(Fields(), Op.Assume(inst));
      if inst.uid == "" {
        return Some(NoUID);
      }
      if inst.uid in states {
        return Some(InCache);
      }
      AddInstanceEntry(inst.uid, inst, true);
      err := None;
    }

    /** Fails even when the instance was forgotten. */
    method ForgetInstance(inst: Instance) returns (err: Error)
      requires Valid()
      modifies this
      ensures Valid() && Fields() == Applied(old(Fields()), Op.Forget(inst))
      ensures err == if inst.uid == "" then NoUID
                     else if inst.uid in old(states) && old(states)[inst.uid].instance.nodeName != inst.nodeName
                     then Misplaced else NotAssumed
      ensures var gone := if err == NotAssumed && inst.uid in old(assumed) then {inst.uid} else {};
              states == old(states) - gone && assumed == old(assumed) - gone
    {
      hide Filed, FiledOnce, InUse, NamesFit, Abs, Meant;
      StepRefines(Fields(), Op.Forget(inst));
      if inst.uid == "" {
        return NoUID;
      }
      if inst.uid in states && states[inst.uid].instance.nodeName != inst.nodeName {
        return Misplaced;
      }
      if inst.uid in states && inst.uid in assumed {
        RemoveInstanceEntry(inst.uid, inst);
      }
      err := NotAssumed;
    }

    method FinishBinding(inst: Instance) returns (err: Option<Error>)
      requires Valid()
      modifies this
      ensures Valid() && Fields() == Applied(old(Fields()), Op.FinishBinding(inst))
      ensures assumed == old(assumed)
      ensures states == if inst.uid != "" && inst.uid in old(assumed) && inst.uid in old(states) then
                          old(states)[inst.uid := old(states)[inst.uid].(bindingFinished := true)]
                        else old(states)
      ensures err == if inst.uid == "" then Some(NoUID) else None
    {
      hide Filed, FiledOnce, InUse, NamesFit, Abs, Meant;
      StepRefines(Fields(), Op.FinishBinding(inst));
      if inst.uid == "" {
        return Some(NoUID);
      }
      if inst.uid in states && inst.uid in assumed {
        states := states[inst.uid := states[inst.uid].(bindingFinished := true)];
      }
      err := None;
    }

    method AddContainer(node: Node)
      requires Valid()
      modifies this
      ensures Valid() && Fields() == Applied(old(Fields()), Op.AddContainer(node))
      ensures states == old(states) && assumed == old(assumed)
      ensures nodes == old(nodes)[node.name := Container(Some(node),
                if node.name in old(nodes) then old(nodes)[node.name].instances else map[])]
    {
      hide Filed, FiledOnce, InUse, NamesFit, Abs, Meant;
      StepRefines(Fields(), Op.AddContainer(node));
      var n := if node.name in nodes then nodes[node.name] else Container(None, map[]);
      nodes := nodes[node.name := n.(node := Some(node))];
    }

    method UpdateContainer(oldNode: Node, newNode: Node)
      requires Valid()
      modifies this
      ensures Valid() && Fields() == Applied(old(Fields()), Op.UpdateContainer(newNode))
      ensures states == old(states) && assumed == old(assumed)
      ensures nodes == old(nodes)[newNode.name := Container(Some(newNode),
                if newNode.name in old(nodes) then old(nodes)[newNode.name].instances else map[])]
    {
      hide Filed, FiledOnce, InUse, NamesFit, Abs, Meant;
      StepRefines(Fields(), Op.UpdateContainer(newNode));
      var n := if newNode.name in nodes then nodes[newNode.name] else Container(None, map[]);
      nodes := nodes[newNode.name := n.(node := Some(newNode))];
    }

    method RemoveContainer(node: Node) returns (err: Option<Error>)
      requires Valid()
      modifies this
      ensures Valid() && Fields() == Applied(old(Fields()), Op.RemoveContainer(node))
      ensures err == if node.name in old(nodes) then None else Some(NotFound)
      ensures states == old(states) && assumed == old(assumed)
      ensures node.name in old(nodes) && old(nodes)[node.name].instances != map[] ==>
                nodes == old(nodes)[node.name := Container(None, old(nodes)[node.name].instances)]
      ensures node.name in old(nodes) && old(nodes)[node.name].instances == map[] ==>
                nodes == old(nodes) - {node.name}
      ensures node.name !in old(nodes) ==> nodes == old(nodes)
    {
      hide Filed, FiledOnce, InUse, NamesFit, Abs, Meant;
      StepRefines(Fields(), Op.RemoveContainer(node));
      if node.name !in nodes {
        return Some(NotFound);
      }
      if nodes[node.name].instances == map[] {
        nodes := nodes - {node.name};
      } else {
        nodes := nodes[node.name := nodes[node.name].(node := None)];
      }
      err := None;
    }

    method AddInstance(inst: Instance) returns (err: Option<Error>)
      requires Valid()
      modifies this
      ensures Valid() && Fields() == Applied(old(Fields()), Op.Add(inst))
      ensures err == if inst.uid == "" then Some(NoUID)
                     else if inst.uid in old(states) && inst.uid !in old(assumed) then Some(AlreadyAdded)
                     else None
      ensures states == if err.None? then old(states)[inst.uid := InstanceState(inst, false)] else old(states)
      ensures assumed == if err.None? then old(assumed) - {inst.uid} else old(assumed)
    {
      hide Filed, FiledOnce, InUse, NamesFit, Abs, Meant;
      StepRefines(Fields(), Op.Add(inst));
      if inst.uid == "" {
        return Some(NoUID);
      }
      if inst.uid in states && inst.uid in assumed {
        RemoveInstanceEntry(inst.uid, states[inst.uid].instance);
        AddInstanceEntry(inst.uid, inst, false);
        return None;
      }
      if inst.uid !in states {
        AddInstanceEntry(inst.uid, inst, false);
        return None;
      }
      err := Some(AlreadyAdded);
    }

    method UpdateInstance(oldInst: Instance, newInst: Instance) returns (err: Option<Error>)
      requires Valid()
      modifies this
      ensures Valid() && Fields() == Applied(old(Fields()), Op.Update(oldInst, newInst))
      ensures err == if oldInst.uid == "" then Some(NoUID)
                     else if oldInst.uid !in old(states) then Some(NotFound)
                     else if oldInst.uid in old(assumed) then Some(StillAssumed)
                     else if old(states)[oldInst.uid].instance.nodeName != newInst.nodeName then Some(Panics)
                     else None
      ensures states == if err.None? then old(states)[oldInst.uid := InstanceState(newInst, false)] else old(states)
      ensures assumed == old(assumed)
    {
      hide Filed, FiledOnce, InUse, NamesFit, Abs, Meant;
      StepRefines(Fields(), Op.Update(oldInst, newInst));
      if oldInst.uid == "" {
        return Some(NoUID);
      }
      if oldInst.uid !in states {
        return Some(NotFound);
      }
      if oldInst.uid in assumed {
        return Some(StillAssumed);
      }
      if states[oldInst.uid].instance.nodeName != newInst.nodeName {
        return Some(Panics);
      }
      RemoveInstanceEntry(oldInst.uid, oldInst);
      AddInstanceEntry(oldInst.uid, newInst, false);
      err := None;
    }

    method RemoveInstance(inst: Instance) returns (err: Option<Error>)
      requires Valid()
      modifies this
      ensures Valid() && Fields() == Applied(old(Fields()), Op.Remove(inst))
      ensures err == if inst.uid == "" then Some(NoUID)
                     else if inst.uid !in old(states) then Some(NotFound)
                     else if old(states)[inst.uid].instance.nodeName != inst.nodeName then Some(Panics)
                     else None
      ensures states == if err.None? then old(states) - {inst.uid} else old(states)
      ensures assumed == if err.None? then old(assumed) - {inst.uid} else old(assumed)
    {
      hide Filed, FiledOnce, InUse, NamesFit, Abs, Meant;
      StepRefines(Fields(), Op.Remove(inst));
      if inst.uid == "" {
        return Some(NoUID);
      }
      if inst.uid !in states {
        return Some(NotFound);
      }
      if states[inst.uid].instance.nodeName != inst.nodeName {
        return Some(Panics);
      }
      RemoveInstanceEntry(inst.uid, inst);
      err := None;
    }

    /** One round of expiry, over the assumed instances in any order. */
    method CleanupAssumedInstances()
      requires Valid()
      modifies this
      ensures Valid() && Fields() == Applied(old(Fields()), Op.Cleanup)
      ensures states == map k | k in old(states) && !(k in old(assumed) && old(states)[k].bindingFinished)
                          :: old(states)[k]
      ensures assumed == set k | k in old(assumed) && !old(states)[k].bindingFinished
    {
      hide Purged, Removed, Filed, FiledOnce, InUse, NamesFit, Abs;
      ghost var s0 := Fields();
      ghost var gone: set<UID> := {};
      var rest := assumed;
      PurgeNothing(s0);
      while rest != {}
        invariant rest <= s0.assumed && gone == Expired(s0) - rest
        invariant Fields() == Purged(s0, gone)
      {
        var key :| key in rest;
        rest := rest - {key};
        PurgedShape(s0, gone);
        if states[key].bindingFinished {
          PurgeOneMore(s0, gone, key);
          RemoveInstanceEntry(key, states[key].instance);
          gone := gone + {key};
        }
        assert gone == Expired(s0) - rest;
      }
      assert gone == Expired(s0);
      StepRefines(s0, Op.Cleanup);
      PurgedExpired(s0);
    }
  }

  lemma PurgedExpired(s: State)
    requires s.assumed <= s.states.Keys
    ensures Purged(s, Expired(s)).states ==
              map k | k in s.states && !(k in s.assumed && s.states[k].bindingFinished) :: s.states[k]
    ensures Purged(s, Expired(s)).assumed == set k | k in s.assumed && !s.states[k].bindingFinished
  {
  }

  lemma PurgeNothing(s: State)
    requires Inv(s)
    ensures Purged(s, {}) == s
  {
    hide Inv, Purged, Abs;
    PurgedIs(s, {});
    assert Abs(s).known - {} == Abs(s).known;
    StateIsDetermined(Purged(s, {}), s);
  }

  lemma PurgeOneMore(s: State, keys: set<UID>, key: UID)
    requires Inv(s) && key in s.states && key !in keys
    ensures Removed(Purged(s, keys), key, s.states[key].instance.nodeName) == Purged(s, keys + {key})
  {
    hide Inv, Abs, Removed;
    var t := Purged(s, keys);
    PurgedIs(s, keys);
    PurgedIs(s, keys + {key});
    assert key in t.states && t.states[key] == s.states[key];
    hide Purged;
    RemovedIs(t, key);
    assert Abs(s).known - keys - {key} == Abs(s).known - (keys + {key});
    StateIsDetermined(Removed(t, key, s.states[key].instance.nodeName), Purged(s, keys + {key}));
  }
}
