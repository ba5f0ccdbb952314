/** Applying a daemon set's plan leaves exactly one instance on each node that should run one, and
    nothing further to plan. */
module DaemonSetConverges {
  import opened NodeAffinity
  import opened DaemonSet

  ghost predicate AllLive(insts: seq<Instance>) {
    forall i | i in insts :: Live(i)
  }

  lemma HasMember(s: seq<string>)
    ensures s != [] ==> exists x :: x in s
  {
    if s != [] {
      assert s[0] in s;
    }
  }

  lemma SameName(insts: seq<Instance>, a: Instance, b: Instance)
    requires DistinctNames(insts) && a in insts && b in insts && a.name == b.name
    ensures a == b
  {
  }

  lemma SameNode(nodes: seq<Node>, k: int, l: int)
    requires DistinctNodes(nodes) && 0 <= k < |nodes| && 0 <= l < |nodes| && nodes[k].name == nodes[l].name
    ensures k == l
  {
  }

  /** Which instances of a node the plan deletes. */
  lemma DeletedOnNode(ds: Daemons, nodes: seq<Node>, insts: seq<Instance>, plans: seq<NodePlan>, creates: seq<string>,
                      deletes: seq<string>,
                      k: int, i: Instance)
    requires Planned(ds, nodes, insts, plans, creates, deletes)
    requires DistinctNames(insts) && DistinctNodes(nodes) && 0 <= k < |nodes|
    requires i in insts && On(i, nodes[k].name)
    ensures i.name in deletes <==> i.name in plans[k].delete
  {
    assert Known(nodes, nodes[k].name);
    forall j | j in insts && j.name == i.name ensures j == i {
      SameName(insts, i, j);
    }
    forall l | 0 <= l < |plans| && i.name in plans[l].delete ensures l == k {
      DeletesOnlyHere(ShouldRun(ds, nodes[l]), OnNode(insts, nodes[l].name), plans[l], i.name);
      OnNodeIs(insts, nodes[l].name);
      SameTarget(nodes, k, l, i);
    }
  }

  lemma DeletesOnlyHere(shouldRun: bool, here: seq<Instance>, p: NodePlan, name: string)
    requires PlanFits(shouldRun, here, p) && name in p.delete
    ensures NameIn(here, name)
  {
  }

  lemma SameTarget(nodes: seq<Node>, k: int, l: int, i: Instance)
    requires DistinctNodes(nodes) && 0 <= k < |nodes| && 0 <= l < |nodes|
    requires On(i, nodes[k].name) && On(i, nodes[l].name)
    ensures k == l
  {
  }

  /** A known node that should run an instance. */
  ghost predicate Wanted(ds: Daemons, nodes: seq<Node>, name: string) {
    exists l :: 0 <= l < |nodes| && nodes[l].name == name && ShouldRun(ds, nodes[l])
  }

  /** A new instance is planned for a node exactly when its own plan says so. */
  lemma CreatedOnNode(ds: Daemons, nodes: seq<Node>, insts: seq<Instance>, plans: seq<NodePlan>, creates: seq<string>,
                      deletes: seq<string>, k: int)
    requires Planned(ds, nodes, insts, plans, creates, deletes) && DistinctNodes(nodes) && 0 <= k < |nodes|
    ensures nodes[k].name in creates <==> plans[k].create
    ensures forall c, d | 0 <= c < |creates| && 0 <= d < |creates| && creates[c] == creates[d] :: c == d
    ensures forall c | 0 <= c < |creates| :: Wanted(ds, nodes, creates[c])
  {
    hide OnNode;
    CreatesIs(nodes, plans);
    if nodes[k].name in creates {
      var l :| 0 <= l < |nodes| && plans[l].create && nodes[l].name == nodes[k].name;
      SameNode(nodes, k, l);
    }
    forall c | 0 <= c < |creates| ensures Wanted(ds, nodes, creates[c]) {
      var l := CreatedFor(ds, nodes, insts, plans, creates, deletes, creates[c]);
    }
  }

  lemma CreatedFor(ds: Daemons, nodes: seq<Node>, insts: seq<Instance>, plans: seq<NodePlan>, creates: seq<string>,
                   deletes: seq<string>, x: string)
    returns (l: int)
    requires Planned(ds, nodes, insts, plans, creates, deletes) && x in creates
    ensures 0 <= l < |nodes| && nodes[l].name == x && ShouldRun(ds, nodes[l])
    ensures forall i | i in OnNode(insts, x) :: i.deleting
  {
    hide OnNode;
    CreatesIs(nodes, plans);
    l :| 0 <= l < |nodes| && plans[l].create && nodes[l].name == x;
    assert PlanFits(ShouldRun(ds, nodes[l]), OnNode(insts, nodes[l].name), plans[l]);
  }

  /** The instances of a node afterwards are the old ones its plan does not delete and, if its plan
      says so, one new one. */
  lemma AfterOnNode(ds: Daemons, nodes: seq<Node>, insts: seq<Instance>, plans: seq<NodePlan>, creates: seq<string>,
                    deletes: seq<string>,
                    names: seq<string>, hash: string, now: int, after: seq<Instance>, k: int)
    requires Planned(ds, nodes, insts, plans, creates, deletes) &&
              Applied(ds, insts, creates, deletes, names, hash, now, after)
    requires DistinctNames(insts) && DistinctNodes(nodes) && 0 <= k < |nodes|
    ensures forall i | i in insts && On(i, nodes[k].name) :: i in after <==> i.name !in plans[k].delete
    ensures forall i | i in after && On(i, nodes[k].name) && i !in insts :: plans[k].create
    ensures forall i, j | i in after && j in after && On(i, nodes[k].name) && On(j, nodes[k].name) && i !in insts &&
              j !in insts :: i == j
    ensures plans[k].create ==> exists i :: i in after && On(i, nodes[k].name)
  {
    hide OnNode, PlanFits, Target, DistinctNodes, DistinctNames;
    CreatedOnNode(ds, nodes, insts, plans, creates, deletes, k);
    NewOnes(ds, nodes, creates, names, hash, now);
    forall i | i in insts && On(i, nodes[k].name) ensures i in after <==> i.name !in plans[k].delete {
      DeletedOnNode(ds, nodes, insts, plans, creates, deletes, k, i);
    }
    forall i | i in after && On(i, nodes[k].name) && i !in insts
      ensures exists c ::
                0 <= c < |creates| && creates[c] == nodes[k].name &&
                i == NewInstance(ds, creates[c], names[c], hash, now)
    {
      var c :| 0 <= c < |creates| && i == NewInstance(ds, creates[c], names[c], hash, now);
      OneTarget(i, creates[c], nodes[k].name);
    }
    if plans[k].create {
      var c :| 0 <= c < |creates| && creates[c] == nodes[k].name;
      assert NewInstance(ds, creates[c], names[c], hash, now) in after;
    }
  }

  lemma OneTarget(i: Instance, a: string, b: string)
    requires On(i, a) && On(i, b)
    ensures a == b
  {
  }

  lemma NewOnes(ds: Daemons, nodes: seq<Node>, creates: seq<string>, names: seq<string>, hash: string, now: int)
    requires |names| == |creates|
    requires forall c | 0 <= c < |creates| :: Wanted(ds, nodes, creates[c])
    ensures forall c | 0 <= c < |creates| :: On(NewInstance(ds, creates[c], names[c], hash, now), creates[c])
  {
    forall c | 0 <= c < |creates| ensures On(NewInstance(ds, creates[c], names[c], hash, now), creates[c]) {
      assert Wanted(ds, nodes, creates[c]);
      var l :| 0 <= l < |nodes| && nodes[l].name == creates[c] && ShouldRun(ds, nodes[l]);
      NewInstanceIsOnItsNode(ds, nodes[l], names[c], hash, now);
    }
  }

  // ---- The theorem ------------------------------------------------------------------------------

  /** What the plan is for: a node that should run an instance has exactly one, none of those it
      had being older than the one it keeps; a node that should not has none. */
  ghost predicate OnePerNode(ds: Daemons, node: Node, before: seq<Instance>, after: seq<Instance>) {
    if ShouldRun(ds, node) then
      exists i :: i in after && On(i, node.name)
        && (forall j | j in after && On(j, node.name) :: j == i)
        && (forall j | j in before && On(j, node.name) :: i in before && i.created <= j.created)
    else
      forall i | i in after :: !On(i, node.name)
  }

  lemma PlanGivesOnePerNode(ds: Daemons, nodes: seq<Node>, insts: seq<Instance>, plans: seq<NodePlan>,
                            creates: seq<string>, deletes: seq<string>,
                            names: seq<string>, hash: string, now: int, after: seq<Instance>, k: int)
    requires Planned(ds, nodes, insts, plans, creates, deletes) &&
              Applied(ds, insts, creates, deletes, names, hash, now, after)
    requires DistinctNames(insts) && DistinctNodes(nodes) && AllLive(insts) && 0 <= k < |nodes|
    ensures OnePerNode(ds, nodes[k], insts, after)
  {
    AfterOnNode(ds, nodes, insts, plans, creates, deletes, names, hash, now, after, k);
    assert PlanFits(ShouldRun(ds, nodes[k]), OnNode(insts, nodes[k].name), plans[k]);
    OnNodeIs(insts, nodes[k].name);
    OneIsLeft(ShouldRun(ds, nodes[k]), nodes[k].name, insts, OnNode(insts, nodes[k].name), plans[k], after);
  }

  lemma OneIsLeft(shouldRun: bool, node: string, insts: seq<Instance>, here: seq<Instance>, p: NodePlan,
                  after: seq<Instance>)
    requires PlanFits(shouldRun, here, p) && DistinctNames(insts) && AllLive(insts)
    requires forall i :: i in here <==> i in insts && On(i, node)
    requires forall i | i in insts && On(i, node) :: i in after <==> i.name !in p.delete
    requires forall i | i in after && On(i, node) && i !in insts :: p.create
    requires forall i, j | i in after && j in after && On(i, node) && On(j, node) && i !in insts && j !in insts ::
              i == j
    requires p.create ==> exists i :: i in after && On(i, node)
    ensures shouldRun ==> (exists i :: i in after && On(i, node)
                             && (forall j | j in after && On(j, node) :: j == i)
                             && (forall j | j in insts && On(j, node) :: i in insts && i.created <= j.created))
    ensures !shouldRun ==> forall i | i in after :: !On(i, node)
  {
    hide Target;
    if p.create {
      assert forall i | i in here :: false;
      var i :| i in after && On(i, node);
      assert forall j | j in after && On(j, node) :: j == i;
    } else if shouldRun {
      var keep :| keep in here && Live(keep)
        && (forall i | i in here && Live(i) :: keep.created <= i.created)
        && forall x :: x in p.delete <==> exists i :: i in here && Live(i) && i != keep && i.name == x;
      forall i | i in here && i != keep ensures i.name != keep.name {
        if i.name == keep.name {
          SameName(insts, i, keep);
        }
      }
      assert keep in after;
      forall j | j in after && On(j, node) ensures j == keep {
        assert j in here;
      }
    } else {
      assert forall i | i in insts && On(i, node) :: NameIn(here, i.name);
    }
  }

  /** With one instance on each node there is nothing to create or delete there. */
  lemma NothingLeftOnNode(ds: Daemons, node: Node, before: seq<Instance>, after: seq<Instance>, p: NodePlan)
    requires OnePerNode(ds, node, before, after) && AllLive(after)
    requires PlanFits(ShouldRun(ds, node), OnNode(after, node.name), p)
    ensures !p.create && p.delete == []
  {
    hide ShouldRun, Target;
    var here := OnNode(after, node.name);
    OnNodeIs(after, node.name);
    HasMember(p.delete);
    if ShouldRun(ds, node) {
      var i :| i in after && On(i, node.name) && forall j | j in after && On(j, node.name) :: j == i;
      assert i in here;
    }
  }

  /** Applying the plan for an up-to-date view without terminating instances leaves exactly one
      instance, the oldest if there was a choice, on each node that should run one and none on the
      other nodes; planning again over the result plans nothing. */
  lemma PlanConverges(ds: Daemons, nodes: seq<Node>, insts: seq<Instance>, plans: seq<NodePlan>, creates: seq<string>,
                      deletes: seq<string>,
                      names: seq<string>, hash: string, now: int, after: seq<Instance>,
                      plans': seq<NodePlan>, creates': seq<string>, deletes': seq<string>)
    requires DistinctNames(insts) && DistinctNodes(nodes) && AllLive(insts)
    requires Planned(ds, nodes, insts, plans, creates, deletes) &&
              Applied(ds, insts, creates, deletes, names, hash, now, after)
    requires Planned(ds, nodes, after, plans', creates', deletes')
    ensures forall k | 0 <= k < |nodes| :: OnePerNode(ds, nodes[k], insts, after)
    ensures creates' == [] && deletes' == []
  {
    hide OnePerNode, PlanFits, ShouldRun;
    assert AllLive(after);
    forall k | 0 <= k < |nodes|
      ensures OnePerNode(ds, nodes[k], insts, after) && !plans'[k].create && plans'[k].delete == [] {
      PlanGivesOnePerNode(ds, nodes, insts, plans, creates, deletes, names, hash, now, after, k);
      NothingLeftOnNode(ds, nodes[k], insts, after, plans'[k]);
    }
    CreatesIs(nodes, plans');
    HasMember(creates');
    forall i | i in after ensures !Stray(nodes, i) {
      NoStrays(ds, nodes, insts, plans, creates, deletes, names, hash, now, after, i);
    }
    HasMember(deletes');
  }

  lemma NoStrays(ds: Daemons, nodes: seq<Node>, insts: seq<Instance>, plans: seq<NodePlan>, creates: seq<string>,
                 deletes: seq<string>,
                 names: seq<string>, hash: string, now: int, after: seq<Instance>, i: Instance)
    requires Planned(ds, nodes, insts, plans, creates, deletes) &&
              Applied(ds, insts, creates, deletes, names, hash, now, after)
    requires DistinctNodes(nodes) && i in after
    ensures !Stray(nodes, i)
  {
    hide OnNode, PlanFits;
    if i !in insts || i.name in deletes {
      var c :| 0 <= c < |creates| && i == NewInstance(ds, creates[c], names[c], hash, now);
      CreatesIs(nodes, plans);
      assert creates[c] in creates;
      var l :| 0 <= l < |nodes| && plans[l].create && nodes[l].name == creates[c];
      CreatedOnNode(ds, nodes, insts, plans, creates, deletes, l);
      NewOnes(ds, nodes, creates, names, hash, now);
      assert On(i, nodes[l].name) && Known(nodes, nodes[l].name);
    }
  }
}
