/** Planning of a daemon set (internal/controllers/daemonset_controller.go): which instances belong
    to it, on which nodes one has to be created, and which are to be deleted. */
module DaemonSet {
  import opened Wrappers
  import opened Api
  import opened Labels
  import opened NodeAffinity
  import opened Sequences

  /** The part of the spec that is copied from the template whenever it differs. */
  datatype Payload = Payload(ips: seq<string>, loadBalancerPorts: seq<string>)

  datatype Instance = Instance(name: string, controller: Option<UID>, labels: Labels, nodeRef: Option<string>,
                               affinity: Option<Affinity>, payload: Payload, created: int, deleting: bool)

  datatype Template = Template(labels: Labels, nodeRef: Option<string>, affinity: Option<Affinity>, payload: Payload)

  datatype Daemons = Daemons(name: string, uid: UID, selector: Option<LabelSelector>, template: Template)

  ghost predicate DistinctNames(insts: seq<Instance>) {
    forall i, j | 0 <= i < j < |insts| :: insts[i].name != insts[j].name
  }

  ghost predicate DistinctNodes(nodes: seq<Node>) {
    forall i, j | 0 <= i < j < |nodes| :: nodes[i].name != nodes[j].name
  }

  function Target(inst: Instance): Result<string, TargetError> {
    TargetNodeName(inst.nodeRef, inst.affinity)
  }

  predicate On(inst: Instance, node: string) {
    Target(inst) == Ok(node)
  }

  ghost predicate NameIn(insts: seq<Instance>, name: string) {
    exists i :: i in insts && i.name == name
  }

  // ---- Claiming (RefManager.ClaimObject, getDaemonInstances) ------------------------------------

  /** Whose it is without asking the server: controlled by the daemon set and matching. */
  predicate Owned(ds: Daemons, inst: Instance) {
    inst.controller == Some(ds.uid) && SelectorMatches(ds.selector, inst.labels)
  }

  /** Nobody's, matching and not being deleted: will be adopted. */
  predicate Adoptable(ds: Daemons, inst: Instance) {
    inst.controller.None? && SelectorMatches(ds.selector, inst.labels) && !inst.deleting
  }

  function UpToDate(ds: Daemons, inst: Instance): Instance {
    inst.(payload := ds.template.payload)
  }

  /** What a patch of an object can come to. */
  datatype PatchResult = Patched | Gone | Failed

  /** The instance as it is counted, if it is. */
  function Counted(ds: Daemons, inst: Instance, adopted: bool): Instance {
    UpToDate(ds, if adopted then inst.(controller := Some(ds.uid)) else inst)
  }

  /** What a listed instance contributes. */
  ghost function ClaimedOf(ds: Daemons, inst: Instance, adopt: map<string, PatchResult>): seq<Instance> {
    if Owned(ds, inst) then [Counted(ds, inst, false)]
    else if Adoptable(ds, inst) && inst.name in adopt && adopt[inst.name] == Patched then [Counted(ds, inst, true)]
    else []
  }

  /** The claimed instances are exactly those owned and those adopted, in list order, brought up
      to date. */
  ghost function Claimed(ds: Daemons, listed: seq<Instance>, adopt: map<string, PatchResult>): seq<Instance> {
    if listed == [] then []
    else
      var n := |listed| - 1;
      Claimed(ds, listed[..n], adopt) + ClaimedOf(ds, listed[n], adopt)
  }

  lemma ClaimedOfMeans(ds: Daemons, inst: Instance, adopt: map<string, PatchResult>)
    ensures ClaimedOf(ds, inst, adopt) ==
              if SelectorMatches(ds.selector, inst.labels)
                 && (inst.controller == Some(ds.uid)
                     || (inst.controller.None? && !inst.deleting && inst.name in adopt && adopt[inst.name] == Patched))
              then [inst.(controller := Some(ds.uid), payload := ds.template.payload)] else []
  {
    hide SelectorMatches;
  }

  lemma ClaimedMore(ds: Daemons, listed: seq<Instance>, n: nat, adopt: map<string, PatchResult>)
    requires n < |listed|
    ensures Claimed(ds, listed[..n + 1], adopt) == Claimed(ds, listed[..n], adopt) + ClaimedOf(ds, listed[n], adopt)
  {
    assert listed[..n + 1][..n] == listed[..n];
  }

  lemma {:induction false} ClaimedIsJoined(ds: Daemons, listed: seq<Instance>, adopt: map<string, PatchResult>)
    ensures Claimed(ds, listed, adopt) ==
              Joined(seq(|listed|, i requires 0 <= i < |listed| => ClaimedOf(ds, listed[i], adopt)))
  {
    hide ClaimedOf;
    var parts := seq(|listed|, i requires 0 <= i < |listed| => ClaimedOf(ds, listed[i], adopt));
    if listed != [] {
      var n := |listed| - 1;
      ClaimedIsJoined(ds, listed[..n], adopt);
      assert parts[..n] == seq(n, i requires 0 <= i < n => ClaimedOf(ds, listed[..n][i], adopt));
    }
  }

  /** The claimed instances are, in list order, those that match and either are controlled by the
      daemon set or have no controller, are not being deleted and were adopted; each once, controlled
      by the daemon set, with the template's payload, and otherwise as it was listed. */
  lemma ClaimedAre(ds: Daemons, listed: seq<Instance>, adopt: map<string, PatchResult>) returns (from: seq<nat>)
    ensures |from| == |Claimed(ds, listed, adopt)|
    ensures forall k, l | 0 <= k < l < |from| :: from[k] < from[l]
    ensures forall p: nat :: p in from <==>
              && p < |listed| && SelectorMatches(ds.selector, listed[p].labels)
              && (listed[p].controller == Some(ds.uid)
                  || (listed[p].controller.None? && !listed[p].deleting
                      && listed[p].name in adopt && adopt[listed[p].name] == Patched))
    ensures forall k | 0 <= k < |from| ::
              && from[k] < |listed|
              && Claimed(ds, listed, adopt)[k] ==
                 listed[from[k]].(controller := Some(ds.uid), payload := ds.template.payload)
  {
    hide SelectorMatches, ClaimedOf, Claimed;
    var parts := seq(|listed|, i requires 0 <= i < |listed| => ClaimedOf(ds, listed[i], adopt));
    ClaimedIsJoined(ds, listed, adopt);
    forall i | 0 <= i < |listed| ensures |parts[i]| <= 1 {
      ClaimedOfIs(ds, listed[i], adopt);
    }
    from := PlacesOf(parts);
    forall p: nat | p < |listed|
      ensures parts[p] == ClaimedOf(ds, listed[p], adopt)
      ensures ClaimedOf(ds, listed[p], adopt) ==
                if SelectorMatches(ds.selector, listed[p].labels)
                   && (listed[p].controller == Some(ds.uid)
                       || (listed[p].controller.None? && !listed[p].deleting
                           && listed[p].name in adopt && adopt[listed[p].name] == Patched))
                then [listed[p].(controller := Some(ds.uid), payload := ds.template.payload)] else []
    {
      ClaimedOfMeans(ds, listed[p], adopt);
    }
  }

  /** RefManager.ClaimObject: what is controlled and matches is claimed, what is controlled and does not
      match is released, and what nobody controls and matches is adopted, unless it is being deleted.
      Of a release or an adoption it does no harm to find the instance gone. */
  method ClaimObject(ds: Daemons, inst: Instance, adopt: map<string, PatchResult>, release: map<string, PatchResult>)
    returns (claimed: Option<Instance>, failed: bool)
    ensures failed <==>
              || (inst.controller == Some(ds.uid) && !SelectorMatches(ds.selector, inst.labels)
                  && (inst.name in release ==> release[inst.name] == Failed))
              || (inst.controller.None? && SelectorMatches(ds.selector, inst.labels) && !inst.deleting
                  && (inst.name in adopt ==> adopt[inst.name] == Failed))
    ensures claimed == if SelectorMatches(ds.selector, inst.labels)
                          && (inst.controller == Some(ds.uid)
                              || (inst.controller.None? && !inst.deleting && inst.name in adopt &&
                                  adopt[inst.name] == Patched))
                       then Some(inst.(controller := Some(ds.uid))) else None
  {
    hide SelectorMatches;
    var matches := SelectorMatches(ds.selector, inst.labels);
    if inst.controller.Some? {
      if inst.controller.value != ds.uid {
        return None, false;
      }
      if matches {
        return Some(inst), false;
      }
      // Released, unless it is gone already.
      return None, inst.name !in release || release[inst.name] == Failed;
    }
    if !matches || inst.deleting {
      return None, false;
    }
    if inst.name !in adopt || adopt[inst.name] == Failed {
      return None, true;
    }
    if adopt[inst.name] == Gone {
      return None, false;
    }
    claimed, failed := Some(inst.(controller := Some(ds.uid))), false;
  }

  /** getDaemonInstances. `adopt`, `release` and `update` say what the patches of the named
      instances come to; without an entry a patch fails. The call succeeds exactly when the selector
      parses and every patch needed goes through; `from` are the places of the instances answered. */
  method GetDaemonInstances(ds: Daemons, listed: seq<Instance>, adopt: map<string, PatchResult>,
                            release: map<string, PatchResult>, update: map<string, PatchResult>)
    returns (insts: Option<seq<Instance>>, ghost from: seq<nat>)
    ensures insts.Some? ==> insts.value == Claimed(ds, listed, adopt)
    ensures insts.Some? <==> Parses(ds.selector) && forall p | 0 <= p < |listed| ::
              var i, matches := listed[p], SelectorMatches(ds.selector, listed[p].labels);
              && (i.controller == Some(ds.uid) && !matches ==> i.name in release && release[i.name] != Failed)
              && (i.controller.None? && matches && !i.deleting ==> i.name in adopt && adopt[i.name] != Failed)
              && (p in from && i.payload != ds.template.payload ==> i.name in update && update[i.name] == Patched)
    ensures forall k, l | 0 <= k < l < |from| :: from[k] < from[l]
    ensures forall p: nat :: p in from <==>
              && p < |listed| && SelectorMatches(ds.selector, listed[p].labels)
              && (listed[p].controller == Some(ds.uid)
                  || (listed[p].controller.None? && !listed[p].deleting
                      && listed[p].name in adopt && adopt[listed[p].name] == Patched))
    ensures insts.Some? ==> |from| == |insts.value| && forall k | 0 <= k < |from| ::
              && from[k] < |listed|
              && insts.value[k] == listed[from[k]].(controller := Some(ds.uid), payload := ds.template.payload)
  {
    hide SelectorMatches, Parses, Claimed, ClaimedOf;
    assert listed[..|listed|] == listed;
    from := ClaimedAre(ds, listed, adopt);
    if !Parses(ds.selector) {
      return None, from;
    }
    var claimed := [];
    var failed := false;
    assert Claimed(ds, listed[..0], adopt) == [] by { NothingClaimed(ds, adopt); }
    for n := 0 to |listed|
      invariant !failed ==> claimed == Claimed(ds, listed[..n], adopt)
      invariant !failed <==> forall p | 0 <= p < n ::
                  var i, matches := listed[p], SelectorMatches(ds.selector, listed[p].labels);
                  && (i.controller == Some(ds.uid) && !matches ==> i.name in release && release[i.name] != Failed)
                  && (i.controller.None? && matches && !i.deleting ==> i.name in adopt && adopt[i.name] != Failed)
                  && (p in from && i.payload != ds.template.payload ==> i.name in update && update[i.name] == Patched)
    {
      ClaimedOfMeans(ds, listed[n], adopt);
      ClaimedMore(ds, listed, n, adopt);
      var inst, err := ClaimObject(ds, listed[n], adopt, release);
      if err {
        failed := true;
        continue;
      }
      if inst.None? {
        continue;
      }
      var updated := inst.value;
      if updated.payload != ds.template.payload {
        if updated.name !in update || update[updated.name] != Patched {
          failed := true;
          continue;
        }
        updated := UpToDate(ds, updated);
      }
      claimed := claimed + [updated];
    }
    insts := if failed then None else Some(claimed);
  }

  lemma NothingClaimed(ds: Daemons, adopt: map<string, PatchResult>)
    ensures Claimed(ds, [], adopt) == []
  {
  }

  ghost predicate CountedFrom(ds: Daemons, listed: seq<Instance>, c: Instance) {
    exists inst :: inst in listed && (c == Counted(ds, inst, false) || c == Counted(ds, inst, true))
  }

  lemma CountedFromMore(ds: Daemons, listed: seq<Instance>, more: Instance, c: Instance)
    ensures CountedFrom(ds, listed, c) ==> CountedFrom(ds, listed + [more], c)
    ensures c == Counted(ds, more, false) || c == Counted(ds, more, true) ==> CountedFrom(ds, listed + [more], c)
  {
    hide Counted;
    assert more in listed + [more] && forall i | i in listed :: i in listed + [more];
  }

  /** Every owned instance is counted, and what is counted comes from a listed instance. */
  lemma {:induction false} ClaimedIs(ds: Daemons, listed: seq<Instance>, adopt: map<string, PatchResult>)
    ensures forall inst | inst in listed && Owned(ds, inst) :: Counted(ds, inst, false) in Claimed(ds, listed, adopt)
    ensures forall c | c in Claimed(ds, listed, adopt) :: CountedFrom(ds, listed, c)
    ensures DistinctNames(listed) ==> DistinctNames(Claimed(ds, listed, adopt))
  {
    hide Owned, Adoptable, Counted, CountedFrom, DistinctNames;
    ClaimedNames(ds, listed, adopt);
    if listed != [] {
      var init, last := listed[..|listed| - 1], listed[|listed| - 1];
      ClaimedIs(ds, init, adopt);
      assert listed == init + [last];
      forall c | c in Claimed(ds, listed, adopt) ensures CountedFrom(ds, listed, c) {
        CountedFromMore(ds, init, last, c);
      }
    }
  }

  /** The names of the counted instances are names of listed ones, no more often. */
  lemma {:induction false} ClaimedNames(ds: Daemons, listed: seq<Instance>, adopt: map<string, PatchResult>)
    ensures forall name | NameIn(Claimed(ds, listed, adopt), name) :: NameIn(listed, name)
    ensures DistinctNames(listed) ==> DistinctNames(Claimed(ds, listed, adopt))
  {
    hide Owned, Adoptable, Counted, DistinctNames, NameIn, ClaimedOf;
    if listed == [] {
      NoNames();
    } else {
      var init, last := listed[..|listed| - 1], listed[|listed| - 1];
      var claimed := Claimed(ds, init, adopt);
      ClaimedNames(ds, init, adopt);
      assert listed == init + [last];
      ClaimedOfIs(ds, last, adopt);
      forall name
        ensures NameIn(listed, name) <==> NameIn(init, name) || NameIn([last], name)
        ensures NameIn(claimed + ClaimedOf(ds, last, adopt), name) ==> NameIn(claimed, name) || name == last.name
        ensures NameIn([last], name) <==> name == last.name
      {
        NamesMore(init, [last], name);
        NamesMore(claimed, ClaimedOf(ds, last, adopt), name);
      }
      assert last in [last];
      DistinctMore(init, [last]);
      DistinctMore(claimed, ClaimedOf(ds, last, adopt));
    }
  }

  lemma NoNames()
    ensures DistinctNames([]) && forall name :: !NameIn([], name)
  {
  }

  lemma NamesMore(insts: seq<Instance>, more: seq<Instance>, name: string)
    ensures NameIn(insts + more, name) <==> NameIn(insts, name) || NameIn(more, name)
    ensures |more| == 1 ==> (NameIn(more, name) <==> name == more[0].name)
  {
    assert forall i | i in insts || i in more :: i in insts + more;
    if |more| == 1 {
      assert more[0] in more;
    }
  }

  lemma DistinctMore(insts: seq<Instance>, more: seq<Instance>)
    requires |more| <= 1
    ensures DistinctNames(insts + more) <==> DistinctNames(insts) && forall m | m in more :: !NameIn(insts, m.name)
  {
    var all := insts + more;
    assert forall i | 0 <= i < |insts| :: all[i] == insts[i] && insts[i] in insts;
    if |more| == 1 {
      assert all[|insts|] == more[0] && more[0] in more;
      if DistinctNames(all) {
        forall i | 0 <= i < |insts| ensures insts[i].name != more[0].name {
          assert all[i].name != all[|insts|].name;
        }
      }
    }
    if DistinctNames(all) {
      assert forall i, j | 0 <= i < j < |insts| :: all[i].name != all[j].name;
    }
  }

  lemma ClaimedOfIs(ds: Daemons, inst: Instance, adopt: map<string, PatchResult>)
    ensures |ClaimedOf(ds, inst, adopt)| <= 1 && forall c | c in ClaimedOf(ds, inst, adopt) :: c.name == inst.name
    ensures forall name | NameIn(ClaimedOf(ds, inst, adopt), name) :: name == inst.name
  {
    hide Owned, Adoptable;
  }

  // ---- Planning ---------------------------------------------------------------------------------

  /** nodeShouldRunDaemonInstance. */
  predicate ShouldRun(ds: Daemons, node: Node) {
    && (ds.template.nodeRef.None? || ds.template.nodeRef.value == node.name)
    && RequiredMatches(ds.template.affinity, node)
  }

  /** The instances that target a node, in list order. */
  function OnNode(insts: seq<Instance>, node: string): seq<Instance> {
    if insts == [] then []
    else OnNode(insts[..|insts| - 1], node) + if On(insts[|insts| - 1], node) then [insts[|insts| - 1]] else []
  }

  lemma {:induction false} OnNodeIs(insts: seq<Instance>, node: string)
    ensures forall i :: i in OnNode(insts, node) <==> i in insts && On(i, node)
    ensures DistinctNames(insts) ==> DistinctNames(OnNode(insts, node))
  {
    if insts != [] {
      var init, last := insts[..|insts| - 1], insts[|insts| - 1];
      OnNodeIs(init, node);
      assert insts == init + [last];
      if DistinctNames(insts) {
        assert forall i | i in init :: i.name != last.name;
      }
    }
  }

  type NodeMap = map<string, seq<Instance>>

  /** The instances with a target, by target. */
  ghost predicate Grouped(m: NodeMap, insts: seq<Instance>) {
    && (forall node | node in m :: m[node] == OnNode(insts, node) != [])
    && (forall node :: OnNode(insts, node) != [] ==> node in m)
  }

  /** getNodesToDaemonInstances, after the listing: instances without a target node are skipped. */
  method GetNodesToDaemonInstances(insts: seq<Instance>) returns (m: NodeMap)
    ensures Grouped(m, insts)
    ensures forall node, i :: node in m && i in m[node] <==> i in insts && Target(i) == Ok(node)
  {
    m := map[];
    for i := 0 to |insts|
      invariant Grouped(m, insts[..i])
    {
      assert insts[..i + 1][..i] == insts[..i];
      var target := Target(insts[i]);
      if target.Err? {
        continue;
      }
      var node := target.value;
      m := m[node := (if node in m then m[node] else []) + [insts[i]]];
    }
    assert insts[..|insts|] == insts;
    GroupedMeans(m, insts);
  }

  lemma GroupedMeans(m: NodeMap, insts: seq<Instance>)
    requires Grouped(m, insts)
    ensures forall node, i :: node in m && i in m[node] <==> i in insts && Target(i) == Ok(node)
  {
    hide Target, OnNode;
    forall node, i ensures node in m && i in m[node] <==> i in insts && Target(i) == Ok(node) {
      OnNodeIs(insts, node);
      assert On(i, node) <==> Target(i) == Ok(node);
      assert i in OnNode(insts, node) ==> OnNode(insts, node) != [];
    }
  }

  /** What is to happen on one node: create one instance, or not; delete the named ones. */
  datatype NodePlan = NodePlan(create: bool, delete: seq<string>)

  predicate Live(inst: Instance) {
    !inst.deleting
  }

  /** On a node that should run an instance one is created if no live one targets it, and of the
      live ones all but one, none older than it, are deleted; on another node all are deleted. */
  ghost predicate PlanFits(shouldRun: bool, here: seq<Instance>, p: NodePlan) {
    && (p.create <==> shouldRun && forall i | i in here :: i.deleting)
    && (!shouldRun ==> forall x :: x in p.delete <==> NameIn(here, x))
    && (shouldRun && p.create ==> p.delete == [])
    && (shouldRun && !p.create ==>
          exists keep :: keep in here && Live(keep)
            && (forall i | i in here && Live(i) :: keep.created <= i.created)
            && forall x :: x in p.delete <==> exists i :: i in here && Live(i) && i != keep && i.name == x)
  }

  ghost predicate ByAge(insts: seq<Instance>) {
    forall j, k | 0 <= j < k < |insts| :: insts[j].created <= insts[k].created
  }

  /** Puts the oldest first; the library's sort leaves equally old ones in any order. */
  method SortByAge(insts: seq<Instance>) returns (sorted: seq<Instance>)
    requires DistinctNames(insts)
    ensures |sorted| == |insts| && ByAge(sorted) && DistinctNames(sorted)
    ensures forall i :: i in sorted <==> i in insts
  {
    sorted := [];
    for n := 0 to |insts|
      invariant |sorted| == n && ByAge(sorted) && DistinctNames(sorted)
      invariant forall i :: i in sorted <==> i in insts[..n]
    {
      var x := insts[n];
      var at := |sorted|;
      while at > 0 && sorted[at - 1].created > x.created
        invariant 0 <= at <= |sorted|
        invariant forall k | at <= k < |sorted| :: x.created < sorted[k].created
      {
        at := at - 1;
      }
      assert insts[..n + 1] == insts[..n] + [x];
      assert forall i | i in insts[..n] :: i.name != x.name;
      InsertByAge(sorted, at, x);
      sorted := sorted[..at] + [x] + sorted[at..];
    }
    assert insts[..|insts|] == insts;
  }

  lemma InsertByAge(sorted: seq<Instance>, at: nat, x: Instance)
    requires at <= |sorted| && ByAge(sorted) && DistinctNames(sorted)
    requires forall k | at <= k < |sorted| :: x.created < sorted[k].created
    requires at > 0 ==> sorted[at - 1].created <= x.created
    requires forall i | i in sorted :: i.name != x.name
    ensures var r := sorted[..at] + [x] + sorted[at..];
            && ByAge(r) && DistinctNames(r)
            && forall i :: i in r <==> i in sorted || i == x
  {
    assert forall i | 0 <= i < |sorted| :: sorted[i] in sorted;
    InsertedInPlace(sorted, at, x, (a: Instance, b: Instance) => a.created <= b.created);
    InsertedInPlace(sorted, at, x, (a: Instance, b: Instance) => a.name != b.name);
  }

  /** instancesShouldBeOnNode. */
  method InstancesShouldBeOnNode(ds: Daemons, node: Node, m: NodeMap, ghost insts: seq<Instance>) returns (p: NodePlan)
    requires Grouped(m, insts) && DistinctNames(insts)
    ensures PlanFits(ShouldRun(ds, node), OnNode(insts, node.name), p)
  {
    hide PlanFits, OnNode, RequiredMatches, On;
    ghost var here := OnNode(insts, node.name);
    OnNodeIs(insts, node.name);
    var shouldRun, failed := Match(ds.template.affinity, node);
    shouldRun := shouldRun && (ds.template.nodeRef.None? || ds.template.nodeRef.value == node.name);
    assert shouldRun == ShouldRun(ds, node);
    if node.name !in m {
      assert here == [];
      if shouldRun {
        LacksOne(here);
      } else {
        DeletesAll(here, []);
      }
      return NodePlan(shouldRun, []);
    }
    var found := m[node.name];
    if shouldRun {
      var filtered := LiveOnes(found);
      if filtered == [] {
        LacksOne(here);
        return NodePlan(true, []);
      }
      if |filtered| == 1 {
        KeepsTheOnly(here, filtered);
        return NodePlan(false, []);
      }
      var sorted := SortByAge(filtered);
      var delete := NamesOf(sorted[1..]);
      p := NodePlan(false, delete);
      KeepsTheOldest(here, sorted, delete);
    } else {
      var delete := NamesOf(found);
      p := NodePlan(false, delete);
      DeletesAll(here, delete);
    }
  }

  lemma LacksOne(here: seq<Instance>)
    requires forall i | i in here :: i.deleting
    ensures PlanFits(true, here, NodePlan(true, []))
  {
  }

  lemma KeepsTheOnly(here: seq<Instance>, live: seq<Instance>)
    requires |live| == 1 && forall i :: i in live <==> i in here && Live(i)
    ensures PlanFits(true, here, NodePlan(false, []))
  {
    var keep := live[0];
    assert keep in live && forall i | i in here && Live(i) :: i == keep;
  }

  lemma DeletesAll(here: seq<Instance>, delete: seq<string>)
    requires forall x :: x in delete <==> NameIn(here, x)
    ensures PlanFits(false, here, NodePlan(false, delete))
  {
  }

  method LiveOnes(insts: seq<Instance>) returns (filtered: seq<Instance>)
    ensures forall i :: i in filtered <==> i in insts && Live(i)
    ensures DistinctNames(insts) ==> DistinctNames(filtered)
  {
    filtered := [];
    for n := 0 to |insts|
      invariant forall i :: i in filtered <==> i in insts[..n] && Live(i)
      invariant DistinctNames(insts) ==> DistinctNames(filtered)
    {
      assert insts[..n + 1] == insts[..n] + [insts[n]];
      assert DistinctNames(insts) ==> forall i | i in insts[..n] :: i.name != insts[n].name;
      if insts[n].deleting {
        continue;
      }
      filtered := filtered + [insts[n]];
    }
    assert insts[..|insts|] == insts;
  }

  method NamesOf(insts: seq<Instance>) returns (names: seq<string>)
    ensures |names| == |insts| && forall x :: x in names <==> NameIn(insts, x)
  {
    names := [];
    for n := 0 to |insts|
      invariant |names| == n && forall x :: x in names <==> NameIn(insts[..n], x)
    {
      assert insts[..n + 1] == insts[..n] + [insts[n]];
      assert insts[n] in insts[..n + 1];
      names := names + [insts[n].name];
    }
    assert insts[..|insts|] == insts;
  }

  lemma KeepsTheOldest(here: seq<Instance>, sorted: seq<Instance>, delete: seq<string>)
    requires sorted != [] && ByAge(sorted) && DistinctNames(sorted)
    requires forall i :: i in sorted <==> i in here && Live(i)
    requires forall x :: x in delete <==> NameIn(sorted[1..], x)
    ensures PlanFits(true, here, NodePlan(false, delete))
  {
    hide Live;
    var keep := sorted[0];
    RestOf(sorted);
    assert keep in sorted;
    assert !keep.deleting by { LiveMeans(keep); }
    forall x ensures x in delete <==> exists i :: i in here && Live(i) && i != keep && i.name == x {
      if i :| i in here && Live(i) && i != keep && i.name == x {
        assert i in sorted[1..];
      }
    }
  }

  lemma LiveMeans(i: Instance)
    ensures Live(i) <==> !i.deleting
  {
  }

  /** The others of a sorted list: younger ones, under other names. */
  lemma RestOf(sorted: seq<Instance>)
    requires sorted != [] && ByAge(sorted) && DistinctNames(sorted)
    ensures forall i :: i in sorted[1..] <==> i in sorted && i != sorted[0]
    ensures forall i | i in sorted :: sorted[0].created <= i.created
  {
    assert sorted == [sorted[0]] + sorted[1..];
    assert forall i | i in sorted[1..] :: i.name != sorted[0].name;
  }

  /** A node's plan over the claimed instances. The node should run one if the template is not bound to
      another node and its affinity matches; one is created if so and no live one targets the node, and
      of several live ones an oldest stays. From a node that should not run one all are deleted. */
  lemma PlanFitsMeans(ds: Daemons, node: Node, insts: seq<Instance>, p: NodePlan) returns (keep: Option<Instance>)
    requires PlanFits(ShouldRun(ds, node), OnNode(insts, node.name), p)
    ensures var ref := ds.template.nodeRef;
            var run := RequiredMatches(ds.template.affinity, node) && (ref.Some? ==> ref.value == node.name);
            && (p.create <==> run && forall i | i in insts && Target(i) == Ok(node.name) :: i.deleting)
            && (forall x | x in p.delete ::
                  exists i :: i in insts && Target(i) == Ok(node.name) && i.name == x
                    && (run ==> !i.deleting && keep.Some? && i != keep.value))
            && (forall i | i in insts && Target(i) == Ok(node.name) ::
                  && (!run ==> i.name in p.delete)
                  && (run && !i.deleting ==>
                        && keep.Some? && keep.value in insts && Target(keep.value) == Ok(node.name)
                        && !keep.value.deleting && keep.value.created <= i.created
                        && (i == keep.value || i.name in p.delete)))
  {
    hide RequiredMatches, Target, OnNode, PlanFits;
    OnNodeIs(insts, node.name);
    var here := OnNode(insts, node.name);
    assert forall i :: i in here <==> i in insts && Target(i) == Ok(node.name);
    keep := KeepOf(ShouldRun(ds, node), here, p);
  }

  lemma KeepOf(run: bool, here: seq<Instance>, p: NodePlan) returns (keep: Option<Instance>)
    requires PlanFits(run, here, p)
    ensures p.create <==> run && forall i | i in here :: i.deleting
    ensures forall x | x in p.delete ::
              exists i :: i in here && i.name == x && (run ==> !i.deleting && keep.Some? && i != keep.value)
    ensures !run ==> forall i | i in here :: i.name in p.delete
    ensures run ==> forall i | i in here && !i.deleting ::
              && keep.Some? && keep.value in here && !keep.value.deleting && keep.value.created <= i.created
              && (i == keep.value || i.name in p.delete)
  {
    keep := None;
    if run && !p.create {
      var k :| k in here && Live(k)
        && (forall i | i in here && Live(i) :: k.created <= i.created)
        && forall x :: x in p.delete <==> exists i :: i in here && Live(i) && i != k && i.name == x;
      keep := Some(k);
    } else if !run {
      assert forall i | i in here :: NameIn(here, i.name);
    }
  }

  // ---- The whole plan ---------------------------------------------------------------------------

  function Creates(nodes: seq<Node>, plans: seq<NodePlan>): seq<string>
    requires |nodes| == |plans|
  {
    if nodes == [] then []
    else
      var n := |nodes| - 1;
      Creates(nodes[..n], plans[..n]) + if plans[n].create then [nodes[n].name] else []
  }

  lemma CreatesMore(nodes: seq<Node>, plans: seq<NodePlan>, node: Node, p: NodePlan)
    requires |nodes| == |plans|
    ensures Creates(nodes + [node], plans + [p]) == Creates(nodes, plans) + if p.create then [node.name] else []
    ensures Creates([], []) == []
  {
    assert (nodes + [node])[..|nodes|] == nodes && (plans + [p])[..|plans|] == plans;
  }

  predicate Known(nodes: seq<Node>, name: string) {
    exists k :: 0 <= k < |nodes| && nodes[k].name == name
  }

  /** Not scheduled yet, and meant for a node that does not exist. */
  predicate Stray(nodes: seq<Node>, inst: Instance) {
    Target(inst).Ok? && !Known(nodes, Target(inst).value) && inst.nodeRef.None?
  }

  ghost predicate DeletedBy(plans: seq<NodePlan>, name: string) {
    exists k :: 0 <= k < |plans| && name in plans[k].delete
  }

  lemma NothingDeleted()
    ensures forall x :: !DeletedBy([], x)
  {
  }

  lemma OneMorePlan(plans: seq<NodePlan>, p: NodePlan, name: string)
    ensures DeletedBy(plans + [p], name) <==> DeletedBy(plans, name) || name in p.delete
  {
    var more := plans + [p];
    assert more[|plans|] == p && forall k | 0 <= k < |plans| :: more[k] == plans[k];
  }

  /** What manage decides: for each node what fits it, and besides to delete the strays. */
  ghost predicate Planned(ds: Daemons, nodes: seq<Node>, insts: seq<Instance>, plans: seq<NodePlan>,
                          creates: seq<string>, deletes: seq<string>) {
    && |plans| == |nodes|
    && (forall k | 0 <= k < |nodes| :: PlanFits(ShouldRun(ds, nodes[k]), OnNode(insts, nodes[k].name), plans[k]))
    && creates == Creates(nodes, plans)
    && (forall x :: x in deletes <==>
          || DeletedBy(plans, x)
          || (exists i :: i in insts && Stray(nodes, i) && i.name == x))
  }

  /** getUnscheduledInstancesWithoutNode. */
  method GetUnscheduledWithoutNode(nodes: seq<Node>, m: NodeMap, ghost insts: seq<Instance>) returns (res: seq<string>)
    requires Grouped(m, insts)
    ensures forall x :: x in res <==> exists i :: i in insts && Stray(nodes, i) && i.name == x
    ensures forall x :: x in res <==>
              exists i :: i in insts && i.name == x && i.nodeRef.None? && Target(i).Ok?
                && forall n | n in nodes :: n.name != Target(i).value
  {
    res := [];
    forall i | i in insts && Target(i).Ok? ensures Target(i).value in m {
      OnNodeIs(insts, Target(i).value);
      assert i in OnNode(insts, Target(i).value);
    }
    var rest := m.Keys;
    while rest != {}
      invariant rest <= m.Keys
      invariant forall x :: x in res <==> exists i ::
                i in insts && Stray(nodes, i) && i.name == x && Target(i).value !in rest
    {
      var nodeName :| nodeName in rest;
      OnNodeIs(insts, nodeName);
      ghost var before := rest;
      rest := rest - {nodeName};
      if Known(nodes, nodeName) {
        continue;
      }
      var found := UnscheduledNames(m[nodeName]);
      assert forall i | i in insts && Stray(nodes, i) && Target(i).value == nodeName ::
          i in m[nodeName] && i.nodeRef.None?;
      assert forall i | i in m[nodeName] && i.nodeRef.None? :: i in insts && Stray(nodes, i);
      res := res + found;
    }
  }

  method UnscheduledNames(insts: seq<Instance>) returns (names: seq<string>)
    ensures forall x :: x in names <==> exists i :: i in insts && i.nodeRef.None? && i.name == x
  {
    names := [];
    for n := 0 to |insts|
      invariant forall x :: x in names <==> exists i :: i in insts[..n] && i.nodeRef.None? && i.name == x
    {
      assert insts[..n + 1] == insts[..n] + [insts[n]];
      assert insts[n] in insts[..n + 1];
      if insts[n].nodeRef.None? {
        names := names + [insts[n].name];
      }
    }
    assert insts[..|insts|] == insts;
  }

  /** manage, up to the writes: plans over the claimed instances. */
  method Manage(ds: Daemons, nodes: seq<Node>, insts: seq<Instance>)
    returns (creates: seq<string>, deletes: seq<string>)
    requires DistinctNames(insts)
    ensures exists plans :: Planned(ds, nodes, insts, plans, creates, deletes)
  {
    hide PlanFits, Grouped, ShouldRun, DistinctNames, OnNode, DeletedBy, Stray, Creates;
    assert Creates([], []) == [] by { CreatesMore([], [], Node("", map[]), NodePlan(false, [])); }
    assert nodes[..0] == [];
    assert forall x :: !DeletedBy([], x) by { NothingDeleted(); }
    var m := GetNodesToDaemonInstances(insts);
    creates, deletes := [], [];
    ghost var plans: seq<NodePlan> := [];
    for k := 0 to |nodes|
      invariant |plans| == k
      invariant forall l | 0 <= l < k :: PlanFits(ShouldRun(ds, nodes[l]), OnNode(insts, nodes[l].name), plans[l])
      invariant creates == Creates(nodes[..k], plans)
      invariant forall x :: x in deletes <==> DeletedBy(plans, x)
    {
      var p := InstancesShouldBeOnNode(ds, nodes[k], m, insts);
      if p.create {
        creates := creates + [nodes[k].name];
      }
      ghost var before := plans;
      plans := plans + [p];
      CreatesMore(nodes[..k], before, nodes[k], p);
      assert nodes[..k + 1] == nodes[..k] + [nodes[k]];
      assert plans[k] == p && forall l | 0 <= l < k :: plans[l] == before[l];
      forall x ensures DeletedBy(plans, x) <==> DeletedBy(before, x) || x in p.delete {
        OneMorePlan(before, p, x);
      }
      deletes := deletes + p.delete;
    }
    assert nodes[..|nodes|] == nodes;
    var strays := GetUnscheduledWithoutNode(nodes, m, insts);
    deletes := deletes + strays;
    assert Planned(ds, nodes, insts, plans, creates, deletes);
  }

  // ---- Applying the plan ------------------------------------------------------------------------

  const HASH_LABEL := "controller-revision-hash"

  /** createInstance: the object sent to the server for a node. */
  function NewInstance(ds: Daemons, node: string, name: string, hash: string, now: int): Instance {
    Instance(name, Some(ds.uid), ds.template.labels[HASH_LABEL := hash], ds.template.nodeRef,
             Some(PinToNode(ds.template.affinity, node)), ds.template.payload, now, false)
  }

  lemma NewInstanceIsOnItsNode(ds: Daemons, node: Node, name: string, hash: string, now: int)
    requires ShouldRun(ds, node)
    ensures On(NewInstance(ds, node.name, name, hash, now), node.name)
  {
    PinnedInstanceTargetsItsNode(ds.template.affinity, node.name, node);
  }

  /** What is created belongs to the daemon set, has the template's payload and the anti-affinity, and is
      live; so the next reconcile claims it as it is, if it selects the template's labels and the hash. */
  lemma NewInstanceIsClaimed(ds: Daemons, node: string, name: string, hash: string, now: int,
                             adopt: map<string, PatchResult>)
    requires SelectorMatches(ds.selector, ds.template.labels[HASH_LABEL := hash])
    ensures var i := NewInstance(ds, node, name, hash, now);
            && Claimed(ds, [i], adopt) == [i] && i.name == name && i.created == now && !i.deleting
            && i.nodeRef == ds.template.nodeRef
            && (ds.template.affinity.Some? ==>
                i.affinity.value.instanceAntiAffinity == ds.template.affinity.value.instanceAntiAffinity)
  {
    hide SelectorMatches;
    var i := NewInstance(ds, node, name, hash, now);
    assert [i][..0] == [] && Claimed(ds, [], adopt) == [];
    ClaimedOfMeans(ds, i, adopt);
    PinnedInstanceTargetsItsNode(ds.template.affinity, node, Node(node, map[]));
  }

  lemma {:induction false} CreatesIs(nodes: seq<Node>, plans: seq<NodePlan>)
    requires |nodes| == |plans|
    ensures forall x :: x in Creates(nodes, plans) <==> exists k ::
              0 <= k < |nodes| && plans[k].create && nodes[k].name == x
    ensures DistinctNodes(nodes) ==>
              forall i, j | 0 <= i < j < |Creates(nodes, plans)| :: Creates(nodes, plans)[i] != Creates(nodes, plans)[j]
  {
    if nodes != [] {
      var n := |nodes| - 1;
      var ns, ps := nodes[..n], plans[..n];
      CreatesIs(ns, ps);
      forall x ensures x in Creates(nodes, plans) <==>
          exists k :: 0 <= k < |nodes| && plans[k].create && nodes[k].name == x {
        if k :| 0 <= k < |nodes| && plans[k].create && nodes[k].name == x {
          assert k < n ==> ns[k] == nodes[k] && ps[k] == plans[k];
        }
        if x in Creates(ns, ps) {
          var k :| 0 <= k < |ns| && ps[k].create && ns[k].name == x;
          assert nodes[k].name == x && plans[k].create;
        }
        assert plans[n].create ==> nodes[n].name in Creates(nodes, plans);
      }
      if DistinctNodes(nodes) {
        assert DistinctNodes(ns);
        forall x | x in Creates(ns, ps) ensures x != nodes[n].name {
          var k :| 0 <= k < |ns| && ps[k].create && ns[k].name == x;
          assert nodes[k].name == x;
        }
        var c, d := Creates(ns, ps), Creates(nodes, plans);
        assert forall i | 0 <= i < |c| :: c[i] in c && d[i] == c[i];
      }
    }
  }

  /** The whole plan: each node's own, the creations of all of them, and their deletions besides those
      of the instances not scheduled and meant for a node that does not exist. */
  lemma PlannedMeans(ds: Daemons, nodes: seq<Node>, insts: seq<Instance>, plans: seq<NodePlan>, creates: seq<string>,
                     deletes: seq<string>)
    requires Planned(ds, nodes, insts, plans, creates, deletes)
    ensures |plans| == |nodes|
    ensures forall k | 0 <= k < |nodes| :: PlanFits(ShouldRun(ds, nodes[k]), OnNode(insts, nodes[k].name), plans[k])
    ensures forall x :: x in creates <==> exists k :: 0 <= k < |nodes| && plans[k].create && nodes[k].name == x
    ensures forall x :: x in deletes <==>
              || (exists k :: 0 <= k < |nodes| && x in plans[k].delete)
              || (exists i :: i in insts && i.name == x && i.nodeRef.None? && Target(i).Ok?
                    && forall n | n in nodes :: n.name != Target(i).value)
  {
    hide Target, PlanFits, ShouldRun;
    CreatesIs(nodes, plans);
    forall i ensures Stray(nodes, i) <==>
        i.nodeRef.None? && Target(i).Ok? && forall n | n in nodes :: n.name != Target(i).value {
    }
  }

  /** The instances after every create and delete of a plan went through: those not deleted, and a
      new one for each node that needed one, under a name of its own. */
  ghost predicate Applied(ds: Daemons, insts: seq<Instance>, creates: seq<string>, deletes: seq<string>,
                          names: seq<string>,
                          hash: string, now: int, after: seq<Instance>) {
    && |names| == |creates|
    && (forall i | i in insts :: i.name !in names)
    && DistinctNames(after)
    && forall i :: i in after <==>
         || (i in insts && i.name !in deletes)
         || (exists k :: 0 <= k < |creates| && i == NewInstance(ds, creates[k], names[k], hash, now))
  }
}
