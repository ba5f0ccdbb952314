/** The daemon set controller against a server it sees late: reconciles over a lagging view, writes
    that may fail, watch events observed later still (internal/controllers/daemonset_controller.go,
    utils/expectations/expectations.go, utils/handler/expectations.go). */
module DaemonSetProtocol {
  import opened Wrappers
  import opened Api
  import opened Labels
  import opened NodeAffinity
  import opened DaemonSet
  import Converges = DaemonSetConverges
  import E = Expectations

  type Objects = map<string, Instance>

  /** The daemon set's identity; its selector does not change. */
  datatype Config = Config(namespace: string, ctrl: E.Key, uid: UID, selector: Option<LabelSelector>, timeout: int)

  /** When, as an index into the server's history, and for which node an instance was created. */
  datatype Birth = Birth(at: nat, node: string)

  datatype Todo = Todo(name: string, node: string)

  /** Between reconciles, or carrying out a plan: creates first, then deletes. */
  datatype Phase = Idle | Syncing(ds: Daemons, hash: string, todo: seq<Todo>, deletes: seq<string>)

  /** history: the server's instances after each write, one object a write; changed: which one;
      viewed: the write the controller's cache has reached; handled: the write whose event was last
      handed to the expectations; born: the instances this controller created. */
  datatype State = State(history: seq<Objects>, changed: seq<string>, viewed: nat, handled: nat,
                         entries: E.Entries, phase: Phase, born: map<string, Birth>)
  {
    ghost predicate WellFormed() {
      && |history| == |changed| + 1
      && handled <= viewed < |history|
    }

    ghost function Server(): Objects
      requires WellFormed()
    {
      history[|history| - 1]
    }

    /** The server after one more write. */
    ghost function Write(name: string, after: Option<Instance>): State
      requires WellFormed()
    {
      this.(history := history + [Changed(Server(), name, after)], changed := changed + [name])
    }
  }

  function Changed(objects: Objects, name: string, after: Option<Instance>): Objects {
    if after.Some? then objects[name := after.value] else objects - {name}
  }

  predicate LiveIn(objects: Objects, name: string) {
    name in objects && Live(objects[name])
  }

  // ---- Watch events ------------------------------------------------------------------------------

  /** Events are attributed by the controller's name: `namesake` says whether a foreign controller
      of the object happens to have the same. */
  predicate Attributed(c: Config, inst: Instance, namesake: bool) {
    inst.controller == Some(c.uid) || (inst.controller.Some? && namesake)
  }

  /** What the event handler makes of the event for one write. Creations of objects already being
      deleted count as deletions, updates count for nothing. */
  ghost function Handled(c: Config, entries: E.Entries, before: Objects, after: Objects, name: string,
                         namesake: bool): E.Entries {
    var key := E.Key(c.namespace, name);
    if name !in before && name in after then
      if !Attributed(c, after[name], namesake) then entries
      else if after[name].deleting then E.AfterDeletion(entries, c.ctrl, key)
      else E.AfterCreation(entries, c.ctrl, key)
    else if name in before && name !in after then
      if !Attributed(c, before[name], namesake) then entries else E.AfterDeletion(entries, c.ctrl, key)
    else entries
  }

  // ---- Steps -------------------------------------------------------------------------------------

  datatype Action =
    | Begin(ds: Daemons, hash: string, nodes: seq<Node>, listed: seq<Instance>, adopt: map<string, PatchResult>,
            plans: seq<NodePlan>,
            creates: seq<string>, deletes: seq<string>, names: seq<string>, now: int)
    | CreateSucceeds(time: int)
    | CreateFails
    | DeleteSucceeds(after: Option<Instance>)
    | DeleteFails
    | Finish
    | OtherWrite(name: string, after: Option<Instance>)
    | ViewAdvances
    | HandlerAdvances(namesake: bool)

  ghost predicate ListsView(listed: seq<Instance>, view: Objects) {
    && DistinctNames(listed)
    && forall i :: i in listed <==> i.name in view && view[i.name] == i
  }

  /** Names nothing was ever called. */
  ghost predicate FreshNames(s: State, names: seq<string>) {
    && (forall i, j | 0 <= i < j < |names| :: names[i] != names[j])
    && (forall n, k | n in names && 0 <= k < |s.history| :: n !in s.history[k])
    && (forall n | n in names :: n !in s.born)
  }

  function Todos(names: seq<string>, nodes: seq<string>): seq<Todo>
    requires |names| == |nodes|
  {
    seq(|names|, k requires 0 <= k < |names| => Todo(names[k], nodes[k]))
  }

  function Keys(c: Config, names: seq<string>): set<E.Key> {
    set n | n in names :: E.Key(c.namespace, n)
  }

  /** What may become of an instance this controller created, whoever writes it: it stays owned,
      matching and meant for its node, deletion is not taken back, and its name is not used again. */
  ghost predicate KeepsBorn(c: Config, s: State, name: string, after: Option<Instance>)
    requires s.WellFormed()
  {
    name in s.born ==>
      && name in s.Server()
      && (after.Some? ==>
          && On(after.value, s.born[name].node)
          && after.value.controller == Some(c.uid)
          && SelectorMatches(c.selector, after.value.labels)
          && (s.Server()[name].deleting ==> after.value.deleting))
  }

  /** Other objects may change in any way, except to take a name about to be used. */
  ghost predicate AllowedWrite(c: Config, s: State, name: string, after: Option<Instance>)
    requires s.WellFormed()
  {
    && (after.Some? ==> after.value.name == name)
    && KeepsBorn(c, s, name, after)
    && (s.phase.Syncing? ==> forall t | t in s.phase.todo :: t.name != name)
  }

  /** A reconcile gets as far as planning when the expectations are satisfied and claiming succeeds;
      it plans over its view as it is, and records what it is going to write before writing. */
  ghost predicate BeginStep(c: Config, s: State, a: Action, s': State)
    requires a.Begin?
  {
    && s.WellFormed() && s.phase.Idle?
    && E.IsSatisfied(s.entries, c.ctrl, a.now, c.timeout)
    && a.ds.uid == c.uid && a.ds.selector == c.selector
    && SelectorMatches(c.selector, a.ds.template.labels[HASH_LABEL := a.hash])
    && DistinctNodes(a.nodes)
    && ListsView(a.listed, s.history[s.viewed])
    && Planned(a.ds, a.nodes, Claimed(a.ds, a.listed, a.adopt), a.plans, a.creates, a.deletes)
    && |a.names| == |a.creates| && FreshNames(s, a.names)
    && s' == s.(entries := E.Expecting(s.entries, c.ctrl, Keys(c, a.names), Keys(c, a.deletes), a.now),
                phase := Syncing(a.ds, a.hash, Todos(a.names, a.creates), a.deletes))
  }

  ghost predicate CreateSucceedsStep(c: Config, s: State, a: Action, s': State)
    requires a.CreateSucceeds?
  {
    && s.WellFormed() && s.phase.Syncing? && s.phase.todo != []
    && var t := s.phase.todo[0];
    && s' == s.Write(t.name, Some(NewInstance(s.phase.ds, t.node, t.name, s.phase.hash, a.time)))
             .(phase := s.phase.(todo := s.phase.todo[1..]),
               born := s.born[t.name := Birth(|s.history|, t.node)])
  }

  /** A failed create leaves nothing behind, and is not waited for. */
  ghost predicate CreateFailsStep(c: Config, s: State, s': State) {
    && s.WellFormed() && s.phase.Syncing? && s.phase.todo != []
    && s' == s.(entries := E.AfterCreation(s.entries, c.ctrl, E.Key(c.namespace, s.phase.todo[0].name)),
                phase := s.phase.(todo := s.phase.todo[1..]))
  }

  /** A delete removes the object or marks it. */
  ghost predicate DeleteSucceedsStep(c: Config, s: State, a: Action, s': State)
    requires a.DeleteSucceeds?
  {
    && s.WellFormed() && s.phase.Syncing? && s.phase.todo == [] && s.phase.deletes != []
    && var name := s.phase.deletes[0];
    && name in s.Server()
    && (a.after.Some? ==> a.after.value == s.Server()[name].(deleting := true))
    && s' == s.Write(name, a.after).(phase := s.phase.(deletes := s.phase.deletes[1..]))
  }

  ghost predicate DeleteFailsStep(c: Config, s: State, s': State) {
    && s.WellFormed() && s.phase.Syncing? && s.phase.todo == [] && s.phase.deletes != []
    && s' == s.(entries := E.AfterDeletion(s.entries, c.ctrl, E.Key(c.namespace, s.phase.deletes[0])),
                phase := s.phase.(deletes := s.phase.deletes[1..]))
  }

  ghost predicate Step(c: Config, s: State, a: Action, s': State) {
    match a
    case Begin(_, _, _, _, _, _, _, _, _, _) => BeginStep(c, s, a, s')
    case CreateSucceeds(_) => CreateSucceedsStep(c, s, a, s')
    case CreateFails => CreateFailsStep(c, s, s')
    case DeleteSucceeds(_) => DeleteSucceedsStep(c, s, a, s')
    case DeleteFails => DeleteFailsStep(c, s, s')
    case Finish => s.WellFormed() && s.phase.Syncing? && s.phase.todo == [] && s.phase.deletes == [] &&
        s' == s.(phase := Idle)
    case OtherWrite(name, after) => s.WellFormed() && AllowedWrite(c, s, name, after) && s' == s.Write(name, after)
    case ViewAdvances => s.WellFormed() && s.viewed + 1 < |s.history| && s' == s.(viewed := s.viewed + 1)
    case HandlerAdvances(namesake) =>
      && s.WellFormed() && s.handled < s.viewed
      && s' == s.(handled := s.handled + 1,
                  entries := Handled(c, s.entries, s.history[s.handled], s.history[s.handled + 1],
                                     s.changed[s.handled], namesake))
  }

  ghost predicate Init(s: State) {
    && |s.history| == 1 && s.changed == [] && s.viewed == s.handled == 0
    && (forall n | n in s.history[0] :: s.history[0][n].name == n)
    && s.entries == map[] && s.phase.Idle? && s.born == map[]
  }

  // ---- The invariant -----------------------------------------------------------------------------

  ghost predicate NamesFit(s: State) {
    forall k, n | 0 <= k < |s.history| && n in s.history[k] :: s.history[k][n].name == n
  }

  ghost predicate Unused(s: State, name: string, until: int) {
    forall k | 0 <= k < |s.history| && k < until :: name !in s.history[k]
  }

  /** Nothing had the name of an instance before its creation. */
  ghost predicate BornOnce(s: State) {
    forall n | n in s.born :: 0 < s.born[n].at < |s.history| && Unused(s, n, s.born[n].at)
  }

  /** Since its creation an instance has been owned, matching and on its node while it existed. */
  ghost predicate StaysPut(c: Config, s: State) {
    forall n, k | n in s.born && s.born[n].at <= k < |s.history| && n in s.history[k] ::
      && On(s.history[k][n], s.born[n].node)
      && s.history[k][n].controller == Some(c.uid)
      && SelectorMatches(c.selector, s.history[k][n].labels)
  }

  /** An instance that is live was live ever since its creation. */
  ghost predicate LiveSinceBirth(s: State) {
    forall n, j, k | n in s.born && s.born[n].at <= j <= k < |s.history| && LiveIn(s.history[k], n) ::
        LiveIn(s.history[j], n)
  }

  ghost predicate Awaited(c: Config, entries: E.Entries, name: string) {
    c.ctrl in entries && E.Key(c.namespace, name) in entries[c.ctrl].create
  }

  predicate NoneAwaited(c: Config, entries: E.Entries) {
    c.ctrl in entries ==> entries[c.ctrl].create == {}
  }

  /** A creation whose event was not handled yet is still expected. */
  ghost predicate UnseenAwaited(c: Config, s: State) {
    forall n | n in s.born && s.handled < s.born[n].at :: Awaited(c, s.entries, n)
  }

  /** No live instance of this controller's making is meant for the node. */
  ghost predicate NoneLiveFor(s: State, node: string)
    requires s.WellFormed()
  {
    forall n | n in s.born && s.born[n].node == node :: !LiveIn(s.Server(), n)
  }

  predicate CanRunOn(ds: Daemons, node: string) {
    ds.template.nodeRef.None? || ds.template.nodeRef.value == node
  }

  /** An unused name, still expected, for a node that needs an instance. */
  ghost predicate ClearToCreate(c: Config, s: State, t: Todo)
    requires s.WellFormed() && s.phase.Syncing?
  {
    && t.name !in s.born && Unused(s, t.name, |s.history|)
    && Awaited(c, s.entries, t.name)
    && NoneLiveFor(s, t.node)
    && CanRunOn(s.phase.ds, t.node)
  }

  ghost predicate DistinctTodos(todo: seq<Todo>) {
    forall i, j | 0 <= i < j < |todo| :: todo[i].name != todo[j].name && todo[i].node != todo[j].node
  }

  ghost predicate TodoIsClear(c: Config, s: State)
    requires s.WellFormed()
  {
    s.phase.Syncing? ==>
      && DistinctTodos(s.phase.todo)
      && (forall t | t in s.phase.todo :: ClearToCreate(c, s, t))
      && s.phase.ds.uid == c.uid
      && SelectorMatches(c.selector, s.phase.ds.template.labels[HASH_LABEL := s.phase.hash])
  }

  /** No two live instances of this controller's making are meant for one node. */
  ghost predicate AtMostOnePerNode(s: State)
    requires s.WellFormed()
  {
    forall m, n | m in s.born && n in s.born && LiveIn(s.Server(), m) && LiveIn(s.Server(), n)
                  && s.born[m].node == s.born[n].node :: m == n
  }

  ghost predicate Inv(c: Config, s: State) {
    && s.WellFormed()
    && NamesFit(s) && BornOnce(s) && StaysPut(c, s) && LiveSinceBirth(s)
    && UnseenAwaited(c, s) && TodoIsClear(c, s) && AtMostOnePerNode(s)
  }

  /** When every expected creation was observed, whatever deletions are pending, the view has reached the creation of
      every instance this controller made: each is in the view as it was then or as it became since. */
  lemma ObservedMeansSeen(c: Config, s: State)
    requires Inv(c, s) && NoneAwaited(c, s.entries)
    ensures forall n | n in s.born :: s.born[n].at <= s.handled <= s.viewed
    ensures forall n | n in s.born && LiveIn(s.Server(), n) :: LiveIn(s.history[s.viewed], n)
  {
    hide Target, SelectorMatches, NamesFit, StaysPut, BornOnce, TodoIsClear;
    forall n | n in s.born ensures s.born[n].at <= s.handled {
      assert s.handled < s.born[n].at ==> Awaited(c, s.entries, n);
    }
  }

  // ---- Writes ------------------------------------------------------------------------------------

  lemma AfterWrite(s: State, name: string, after: Option<Instance>)
    requires s.WellFormed()
    ensures var s' := s.Write(name, after);
            && s'.WellFormed() && |s'.history| == |s.history| + 1
            && (forall k | 0 <= k < |s.history| :: s'.history[k] == s.history[k])
            && s'.history[|s.history|] == s'.Server() == Changed(s.Server(), name, after)
            && s.Server() == s.history[|s.history| - 1]
    ensures forall n | n != name :: n in s.Write(name, after).Server() <==> n in s.Server()
    ensures forall n | n != name && n in s.Server() :: s.Write(name, after).Server()[n] == s.Server()[n]
  {
  }

  lemma WriteKeepsPlace(c: Config, s: State, name: string, after: Option<Instance>)
    requires s.WellFormed() && NamesFit(s) && BornOnce(s) && StaysPut(c, s)
    requires KeepsBorn(c, s, name, after) && (after.Some? ==> after.value.name == name)
    ensures NamesFit(s.Write(name, after)) && BornOnce(s.Write(name, after)) && StaysPut(c, s.Write(name, after))
  {
    hide Target, SelectorMatches;
    AfterWrite(s, name, after);
    var s' := s.Write(name, after);
    forall n | n in s'.born ensures 0 < s'.born[n].at < |s'.history| && Unused(s', n, s'.born[n].at) {
      assert Unused(s, n, s.born[n].at);
    }
  }

  /** Nothing of this controller's making comes to life by a write of others. */
  lemma WriteRevivesNone(c: Config, s: State, name: string, after: Option<Instance>)
    requires s.WellFormed() && BornOnce(s) && LiveSinceBirth(s) && AtMostOnePerNode(s) && KeepsBorn(c, s, name, after)
    ensures LiveSinceBirth(s.Write(name, after)) && AtMostOnePerNode(s.Write(name, after))
    ensures forall n | n in s.born && LiveIn(s.Write(name, after).Server(), n) :: LiveIn(s.Server(), n)
  {
    hide On, SelectorMatches;
    AfterWrite(s, name, after);
    var s' := s.Write(name, after);
    forall n, j, k | n in s'.born && s'.born[n].at <= j <= k < |s'.history| && LiveIn(s'.history[k], n)
      ensures LiveIn(s'.history[j], n) {
      if k == |s.history| && j < k {
        assert LiveIn(s.history[k - 1], n);
      }
    }
  }

  lemma WriteKeepsTodo(c: Config, s: State, name: string, after: Option<Instance>)
    requires s.WellFormed() && BornOnce(s) && LiveSinceBirth(s) && AtMostOnePerNode(s) && TodoIsClear(c, s) &&
              AllowedWrite(c, s, name, after)
    ensures TodoIsClear(c, s.Write(name, after))
  {
    hide On, SelectorMatches, KeepsBorn, LiveSinceBirth, BornOnce, AtMostOnePerNode;
    AfterWrite(s, name, after);
    WriteRevivesNone(c, s, name, after);
    var s' := s.Write(name, after);
    if s.phase.Syncing? {
      forall t | t in s.phase.todo ensures ClearToCreate(c, s', t) {
        assert ClearToCreate(c, s, t);
      }
    }
  }

  lemma WriteKeepsInv(c: Config, s: State, name: string, after: Option<Instance>)
    requires Inv(c, s) && AllowedWrite(c, s, name, after)
    ensures Inv(c, s.Write(name, after))
  {
    hide NamesFit, BornOnce, StaysPut, LiveSinceBirth, TodoIsClear, AtMostOnePerNode, KeepsBorn;
    WriteKeepsPlace(c, s, name, after);
    WriteRevivesNone(c, s, name, after);
    WriteKeepsTodo(c, s, name, after);
  }

  /** The controller's own deletes are writes like any other. */
  lemma DeleteKeepsInv(c: Config, s: State, a: Action, s': State)
    requires Inv(c, s) && a.DeleteSucceeds? && DeleteSucceedsStep(c, s, a, s')
    ensures Inv(c, s')
  {
    var name := s.phase.deletes[0];
    assert AllowedWrite(c, s, name, a.after) by {
      hide SelectorMatches;
      assert s.Server() == s.history[|s.history| - 1];
      if a.after.Some? {
        assert Target(a.after.value) == Target(s.Server()[name]);
      }
    }
    WriteKeepsInv(c, s, name, a.after);
    SamePhaseKeepsInv(c, s.Write(name, a.after), s');
  }

  /** Dropping what was carried out from the plan. */
  lemma SamePhaseKeepsInv(c: Config, s: State, s': State)
    requires Inv(c, s) && s' == s.(phase := s'.phase)
    requires s'.phase.Syncing? ==>
               && s.phase.Syncing? && s'.phase.ds == s.phase.ds && s'.phase.hash == s.phase.hash
               && (s'.phase.todo == s.phase.todo || (s.phase.todo != [] && s'.phase.todo == s.phase.todo[1..]))
    ensures Inv(c, s')
  {
    hide On, SelectorMatches, LiveIn, CanRunOn;
    if s'.phase.Syncing? {
      forall t | t in s'.phase.todo ensures ClearToCreate(c, s', t) {
        assert t in s.phase.todo && ClearToCreate(c, s, t);
        assert NoneLiveFor(s', t.node) by { assert s'.Server() == s.Server(); }
      }
    }
  }

  // ---- Creates -----------------------------------------------------------------------------------

  lemma NewInstanceFits(c: Config, ds: Daemons, node: string, name: string, hash: string, time: int)
    requires CanRunOn(ds, node) && ds.uid == c.uid &&
              SelectorMatches(c.selector, ds.template.labels[HASH_LABEL := hash])
    ensures var i := NewInstance(ds, node, name, hash, time);
            && On(i, node) && i.name == name && Live(i) && i.controller == Some(c.uid) &&
                SelectorMatches(c.selector, i.labels)
  {
    hide SelectorMatches;
    PinnedInstanceTargetsItsNode(ds.template.affinity, node, Node(node, map[]));
  }

  lemma BirthKeepsInv(c: Config, s: State, t: Todo, i: Instance, s': State)
    requires Inv(c, s)
    requires t.name !in s.born && Unused(s, t.name, |s.history|) && Awaited(c, s.entries, t.name) &&
              NoneLiveFor(s, t.node)
    requires s.phase.Syncing? ==> forall u | u in s.phase.todo :: u.name != t.name && u.node != t.node
    requires On(i, t.node) && i.name == t.name && Live(i) && i.controller == Some(c.uid) &&
              SelectorMatches(c.selector, i.labels)
    requires s' == s.Write(t.name, Some(i)).(born := s.born[t.name := Birth(|s.history|, t.node)])
    ensures Inv(c, s')
  {
    hide Target, SelectorMatches, On;
    var w := s.Write(t.name, Some(i));
    assert AllowedWrite(c, s, t.name, Some(i));
    AfterWrite(s, t.name, Some(i));
    WriteKeepsInv(c, s, t.name, Some(i));
    assert s'.history == w.history && s'.Server() == w.Server() && s'.Server()[t.name] == i;
    BirthKeepsHistory(c, w, t, s');
    if s'.phase.Syncing? {
      forall u | u in s'.phase.todo ensures ClearToCreate(c, s', u) {
        assert ClearToCreate(c, w, u);
        assert Unused(s', u.name, |s'.history|);
      }
    }
    forall n | n in s.born && s.born[n].node == t.node ensures !LiveIn(s'.Server(), n) {
      assert !LiveIn(s.Server(), n);
    }
  }

  lemma BirthKeepsHistory(c: Config, w: State, t: Todo, s': State)
    requires Inv(c, w) && |w.history| > 1 && t.name !in w.born && Unused(w, t.name, |w.history| - 1)
    requires s' == w.(born := w.born[t.name := Birth(|w.history| - 1, t.node)])
    requires t.name in w.Server() && On(w.Server()[t.name], t.node)
    requires w.Server()[t.name].controller == Some(c.uid) && SelectorMatches(c.selector, w.Server()[t.name].labels)
    ensures NamesFit(s') && BornOnce(s') && StaysPut(c, s') && LiveSinceBirth(s')
  {
    hide On, SelectorMatches, LiveIn, AtMostOnePerNode, TodoIsClear, UnseenAwaited;
    forall n | n in s'.born ensures 0 < s'.born[n].at < |s'.history| && Unused(s', n, s'.born[n].at) {
      assert n != t.name ==> Unused(w, n, w.born[n].at);
    }
  }

  lemma CreateKeepsInv(c: Config, s: State, a: Action, s': State)
    requires Inv(c, s) && a.CreateSucceeds? && CreateSucceedsStep(c, s, a, s')
    ensures Inv(c, s')
  {
    hide NamesFit, BornOnce, StaysPut, LiveSinceBirth, AtMostOnePerNode, UnseenAwaited, Unused, Target, SelectorMatches;
    var t := s.phase.todo[0];
    assert t in s.phase.todo && ClearToCreate(c, s, t);
    NewInstanceFits(c, s.phase.ds, t.node, t.name, s.phase.hash, a.time);
    var r := s.(phase := s.phase.(todo := s.phase.todo[1..]));
    SamePhaseKeepsInv(c, s, r);
    assert r.Server() == s.Server();
    assert Unused(r, t.name, |r.history|) by { SameHistory(s, r, t.name); }
    BirthKeepsInv(c, r, t, NewInstance(s.phase.ds, t.node, t.name, s.phase.hash, a.time), s');
  }

  lemma SameHistory(s: State, r: State, name: string)
    requires s.history == r.history && Unused(s, name, |s.history|)
    ensures Unused(r, name, |r.history|)
  {
  }

  // ---- Expectations ------------------------------------------------------------------------------

  /** Observing one key leaves the others awaited. */
  lemma EntriesKeepInv(c: Config, s: State, entries: E.Entries, handled: nat)
    requires Inv(c, s) && s.handled <= handled <= s.viewed
    requires forall n | n in s.born && handled < s.born[n].at && Awaited(c, s.entries, n) :: Awaited(c, entries, n)
    requires s.phase.Syncing? ==>
              forall t | t in s.phase.todo && Awaited(c, s.entries, t.name) :: Awaited(c, entries, t.name)
    ensures Inv(c, s.(entries := entries, handled := handled))
  {
    hide On, SelectorMatches, LiveIn, CanRunOn, Awaited;
    var s' := s.(entries := entries, handled := handled);
    if s'.phase.Syncing? {
      forall t | t in s'.phase.todo ensures ClearToCreate(c, s', t) {
        assert ClearToCreate(c, s, t);
        assert NoneLiveFor(s', t.node) by { assert s'.Server() == s.Server(); }
      }
    }
  }

  lemma CreateFailureKeepsInv(c: Config, s: State, s': State)
    requires Inv(c, s) && CreateFailsStep(c, s, s')
    ensures Inv(c, s')
  {
    hide NamesFit, BornOnce, StaysPut, LiveSinceBirth, AtMostOnePerNode, UnseenAwaited, Unused, SelectorMatches;
    var t := s.phase.todo[0];
    assert t in s.phase.todo && ClearToCreate(c, s, t);
    var r := s.(phase := s'.phase);
    SamePhaseKeepsInv(c, s, r);
    assert forall u | u in r.phase.todo :: u.name != t.name;
    EntriesKeepInv(c, r, s'.entries, s.handled);
    assert s' == r.(entries := s'.entries, handled := s.handled);
  }

  lemma DeleteFailureKeepsInv(c: Config, s: State, s': State)
    requires Inv(c, s) && DeleteFailsStep(c, s, s')
    ensures Inv(c, s')
  {
    hide NamesFit, BornOnce, StaysPut, LiveSinceBirth, AtMostOnePerNode, UnseenAwaited, TodoIsClear;
    var r := s.(phase := s'.phase);
    SamePhaseKeepsInv(c, s, r);
    EntriesKeepInv(c, r, s'.entries, s.handled);
    assert s' == r.(entries := s'.entries, handled := s.handled);
  }

  /** An event lowers expectations of the object it is about only, of one kind, and those of the
      controller it is attributed to. */
  lemma EventLowersOnlyItsOwn(c: Config, entries: E.Entries, before: Objects, after: Objects, name: string,
                              namesake: bool)
    ensures var next := Handled(c, entries, before, after, name, namesake);
            && next.Keys == entries.Keys
            && (forall k | k in entries && k != c.ctrl :: next[k] == entries[k])
            && (c.ctrl in entries ==>
                && var e, n := entries[c.ctrl], next[c.ctrl];
                && n.timestamp == e.timestamp
                && (n.create == e.create || n.create == e.create - {E.Key(c.namespace, name)})
                && (n.delete == e.delete || n.delete == e.delete - {E.Key(c.namespace, name)})
                && (n.create == e.create || n.delete == e.delete))
    ensures name in before && name in after ==> Handled(c, entries, before, after, name, namesake) == entries
  {
    assert c.ctrl in entries ==> entries[c.ctrl := entries[c.ctrl]].Keys == entries.Keys;
  }

  /** And it does lower them: the controller's own object coming up is a creation observed, unless it is
      being deleted already, which counts as a deletion, as its going away does. */
  lemma EventLowersItsOwn(c: Config, entries: E.Entries, before: Objects, after: Objects, name: string, namesake: bool)
    requires c.ctrl in entries
    ensures var e, next, key := entries[c.ctrl], Handled(c, entries, before, after, name, namesake),
                                E.Key(c.namespace, name);
            && (name !in before && name in after && after[name].controller == Some(c.uid) ==>
                if after[name].deleting then
                  next == entries[c.ctrl := e.(delete := e.delete - {key})]
                else
                  next == entries[c.ctrl := e.(create := e.create - {key})])
            && (name in before && name !in after && before[name].controller == Some(c.uid) ==>
                next == entries[c.ctrl := e.(delete := e.delete - {key})])
  {
  }

  /** An event lowers nothing of an object that did not exist before. */
  lemma HandledKeepsAwaited(c: Config, s: State, namesake: bool, name: string)
    requires s.WellFormed() && s.handled < s.viewed && Unused(s, name, s.handled + 2) && Awaited(c, s.entries, name)
    ensures Awaited(c, Handled(c, s.entries, s.history[s.handled], s.history[s.handled + 1], s.changed[s.handled],
                               namesake), name)
  {
    assert name !in s.history[s.handled] && name !in s.history[s.handled + 1];
  }

  lemma HandlingKeepsInv(c: Config, s: State, a: Action, s': State)
    requires Inv(c, s) && a.HandlerAdvances? && Step(c, s, a, s')
    ensures Inv(c, s')
  {
    hide NamesFit, StaysPut, LiveSinceBirth, AtMostOnePerNode, UnseenAwaited, Handled;
    forall n | n in s.born && s.handled + 1 < s.born[n].at && Awaited(c, s.entries, n)
      ensures Awaited(c, s'.entries, n) {
      assert Unused(s, n, s.born[n].at);
      HandledKeepsAwaited(c, s, a.namesake, n);
    }
    if s.phase.Syncing? {
      forall t | t in s.phase.todo && Awaited(c, s.entries, t.name) ensures Awaited(c, s'.entries, t.name) {
        assert ClearToCreate(c, s, t);
        HandledKeepsAwaited(c, s, a.namesake, t.name);
      }
    }
    EntriesKeepInv(c, s, s'.entries, s.handled + 1);
  }

  // ---- Planning ----------------------------------------------------------------------------------

  /** An instance of this controller's making that is live on the server is in the plan's view, on
      its node and live. */
  lemma LiveOnesAreCounted(c: Config, s: State, ds: Daemons, listed: seq<Instance>, adopt: map<string, PatchResult>,
                           n: string)
    requires Inv(c, s) && NoneAwaited(c, s.entries) && ds.uid == c.uid && ds.selector == c.selector
    requires ListsView(listed, s.history[s.viewed]) && n in s.born && LiveIn(s.Server(), n)
    ensures exists i :: i in OnNode(Claimed(ds, listed, adopt), s.born[n].node) && Live(i)
  {
    hide SelectorMatches, TodoIsClear, AtMostOnePerNode, UnseenAwaited, LiveSinceBirth, OnNode, Claimed, BornOnce;
    ObservedMeansSeen(c, s);
    var i := s.history[s.viewed][n];
    assert i.name == n && i in listed;
    assert Owned(ds, i);
    ClaimedIs(ds, listed, adopt);
    var counted := Counted(ds, i, false);
    assert Target(counted) == Target(i);
    OnNodeIs(Claimed(ds, listed, adopt), s.born[n].node);
    assert counted in OnNode(Claimed(ds, listed, adopt), s.born[n].node) && Live(counted);
  }

  lemma PlannedNodesAreClear(c: Config, s: State, a: Action, s': State, node: string)
    requires Inv(c, s) && a.Begin? && BeginStep(c, s, a, s') && NoneAwaited(c, s.entries) && node in a.creates
    ensures NoneLiveFor(s, node) && CanRunOn(a.ds, node)
  {
    hide Inv, OnNode, Claimed, PlanFits, Planned, RequiredMatches;
    var l := Converges.CreatedFor(a.ds, a.nodes, Claimed(a.ds, a.listed, a.adopt), a.plans, a.creates, a.deletes, node);
    assert s.WellFormed();
    forall n | n in s.born && s.born[n].node == node ensures !LiveIn(s.Server(), n) {
      if LiveIn(s.Server(), n) {
        LiveOnesAreCounted(c, s, a.ds, a.listed, a.adopt, n);
      }
    }
  }

  lemma BeginKeepsInv(c: Config, s: State, a: Action, s': State)
    requires Inv(c, s) && a.Begin? && BeginStep(c, s, a, s') && NoneAwaited(c, s.entries)
    ensures Inv(c, s')
  {
    hide Planned, ListsView, Claimed, SelectorMatches, On, LiveIn, CanRunOn;
    ObservedMeansSeen(c, s);
    CreatesAreDistinct(a);
    assert s'.Server() == s.Server();
    forall t | t in s'.phase.todo ensures ClearToCreate(c, s', t) {
      var k :| 0 <= k < |a.names| && t == Todo(a.names[k], a.creates[k]);
      PlannedNodesAreClear(c, s, a, s', a.creates[k]);
      assert a.names[k] in a.names;
    }
  }

  lemma CreatesAreDistinct(a: Action)
    requires a.Begin? && DistinctNodes(a.nodes) && |a.names| == |a.creates|
    requires Planned(a.ds, a.nodes, Claimed(a.ds, a.listed, a.adopt), a.plans, a.creates, a.deletes)
    requires forall i, j | 0 <= i < j < |a.names| :: a.names[i] != a.names[j]
    ensures DistinctTodos(Todos(a.names, a.creates))
  {
    hide PlanFits, OnNode, Claimed;
    CreatesIs(a.nodes, a.plans);
  }

  // ---- Runs --------------------------------------------------------------------------------------

  /** A reconcile that plans because it gave up waiting does so for deletions only. */
  predicate Patient(c: Config, s: State, a: Action) {
    a.Begin? && E.TimedOut(s.entries, c.ctrl, a.now, c.timeout) ==> NoneAwaited(c, s.entries)
  }

  lemma StepKeepsInv(c: Config, s: State, a: Action, s': State)
    requires Inv(c, s) && Step(c, s, a, s') && Patient(c, s, a)
    ensures Inv(c, s')
  {
    hide Inv, BeginStep, CreateSucceedsStep, CreateFailsStep, DeleteSucceedsStep, DeleteFailsStep, AllowedWrite;
    match a
    case Begin(_, _, _, _, _, _, _, _, _, _) =>
      assert NoneAwaited(c, s.entries) by { WaitedForAll(c, s, a, s'); }
      BeginKeepsInv(c, s, a, s');
    case CreateSucceeds(_) => CreateKeepsInv(c, s, a, s');
    case CreateFails => CreateFailureKeepsInv(c, s, s');
    case DeleteSucceeds(_) => DeleteKeepsInv(c, s, a, s');
    case DeleteFails => DeleteFailureKeepsInv(c, s, s');
    case Finish => SamePhaseKeepsInv(c, s, s');
    case OtherWrite(name, after) => WriteKeepsInv(c, s, name, after);
    case ViewAdvances => ViewKeepsInv(c, s, s');
    case HandlerAdvances(_) => HandlingKeepsInv(c, s, a, s');
  }

  lemma WaitedForAll(c: Config, s: State, a: Action, s': State)
    requires a.Begin? && BeginStep(c, s, a, s') && Patient(c, s, a)
    ensures NoneAwaited(c, s.entries)
  {
    hide Planned, ListsView, Claimed, SelectorMatches;
  }

  lemma ViewKeepsInv(c: Config, s: State, s': State)
    requires Inv(c, s) && s.viewed + 1 < |s.history| && s' == s.(viewed := s.viewed + 1)
    ensures Inv(c, s')
  {
    hide On, SelectorMatches, LiveIn, CanRunOn, Awaited;
    assert s'.Server() == s.Server();
    if s'.phase.Syncing? {
      forall t | t in s'.phase.todo ensures ClearToCreate(c, s', t) {
        assert ClearToCreate(c, s, t);
      }
    }
  }

  ghost predicate IsRun(c: Config, states: seq<State>, actions: seq<Action>) {
    && |states| == |actions| + 1
    && Init(states[0])
    && forall k | 0 <= k < |actions| ::
        Step(c, states[k], actions[k], states[k + 1]) && Patient(c, states[k], actions[k])
  }

  /** In every run, whatever the order of writes, failures, view updates and events: while a create
      for a node is due no live instance that this controller created for that node exists on the
      server, and there are never two of them. */
  lemma {:induction false} NeverASecondInstance(c: Config, states: seq<State>, actions: seq<Action>, k: nat)
    requires IsRun(c, states, actions) && k <= |actions|
    ensures states[k].WellFormed() && AtMostOnePerNode(states[k])
    ensures states[k].phase.Syncing? ==> forall t | t in states[k].phase.todo :: NoneLiveFor(states[k], t.node)
    ensures Inv(c, states[k])
  {
    hide Step, Patient, AtMostOnePerNode, NoneLiveFor, NamesFit, BornOnce, StaysPut, LiveSinceBirth, UnseenAwaited,
        TodoIsClear;
    if k == 0 {
      InitHolds(c, states[0]);
    } else {
      NeverASecondInstance(c, states, actions, k - 1);
      assert Step(c, states[k - 1], actions[k - 1], states[k]);
      StepKeepsInv(c, states[k - 1], actions[k - 1], states[k]);
    }
    if states[k].phase.Syncing? {
      TodosAreClear(c, states[k]);
    }
  }

  lemma TodosAreClear(c: Config, s: State)
    requires Inv(c, s) && s.phase.Syncing?
    ensures forall t | t in s.phase.todo :: NoneLiveFor(s, t.node)
  {
    forall t | t in s.phase.todo ensures NoneLiveFor(s, t.node) {
      assert ClearToCreate(c, s, t);
    }
  }

  lemma InitHolds(c: Config, s: State)
    requires Init(s)
    ensures Inv(c, s)
  {
  }

  // ---- With a timeout ----------------------------------------------------------------------------

  /** The first reconcile of an empty view, with one node to serve. */
  function FirstPlan(uid: UID, name: string, now: int): Action {
    var ds := Daemons("d", uid, Some(LabelSelector(map[], [])), Template(map[], None, None, Payload([], [])));
    Begin(ds, "h", [Node("n", map[])], [], map[], [NodePlan(true, [])], ["n"], [], [name], now)
  }

  lemma FirstPlanIsPlanned(uid: UID, name: string, now: int)
    ensures var a := FirstPlan(uid, name, now);
            Planned(a.ds, a.nodes, Claimed(a.ds, a.listed, a.adopt), a.plans, a.creates, a.deletes)
  {
    var a := FirstPlan(uid, name, now);
    assert Claimed(a.ds, a.listed, a.adopt) == [] && OnNode([], "n") == [];
    assert PlanFits(ShouldRun(a.ds, a.nodes[0]), [], a.plans[0]);
    assert a.nodes[..0] == [] && Creates(a.nodes[..0], a.plans[..0]) == [];
    assert Creates(a.nodes, a.plans) == ["n"];
  }

  lemma FirstPlanBegins(c: Config, s: State, name: string, now: int) returns (s': State)
    requires s.WellFormed() && s.phase.Idle? && s.history[s.viewed] == map[] &&
              E.IsSatisfied(s.entries, c.ctrl, now, c.timeout)
    requires c.selector == Some(LabelSelector(map[], [])) && FreshNames(s, [name])
    ensures Step(c, s, FirstPlan(c.uid, name, now), s')
    ensures s'.history == s.history && s'.changed == s.changed && s'.viewed == s.viewed && s'.handled == s.handled &&
              s'.born == s.born
    ensures s'.phase == Syncing(FirstPlan(c.uid, name, now).ds, "h", [Todo(name, "n")], [])
    ensures c.ctrl in s'.entries && s'.entries[c.ctrl].timestamp == now
  {
    hide Planned, Claimed;
    var a := FirstPlan(c.uid, name, now);
    FirstPlanIsPlanned(c.uid, name, now);
    assert ListsView(a.listed, s.history[s.viewed]);
    assert Todos(a.names, a.creates) == [Todo(name, "n")];
    s' := s.(entries := E.Expecting(s.entries, c.ctrl, Keys(c, a.names), Keys(c, a.deletes), a.now),
             phase := Syncing(a.ds, a.hash, Todos(a.names, a.creates), a.deletes));
  }

  /** Patience is what it takes: with any timeout there is a run in which one reconcile gave up
      waiting for a creation while its view was still empty, and a second live instance was created
      for the node. */
  lemma TimeoutDuplicates(c: Config) returns (states: seq<State>, actions: seq<Action>)
    requires c.selector == Some(LabelSelector(map[], []))
    ensures |states| == 6 && |actions| == 5 && Init(states[0])
    ensures forall k | 0 <= k < 5 ::
              Step(c, states[k], actions[k], states[k + 1]) && (k != 3 ==> Patient(c, states[k], actions[k]))
    ensures states[5].WellFormed() && !AtMostOnePerNode(states[5])
  {
    hide Step, Planned, Claimed, SelectorMatches, Target, NewInstance, LiveIn;
    var first, second := FirstPlan(c.uid, "a", 0), FirstPlan(c.uid, "b", c.timeout + 1);
    var s0 := State([map[]], [], 0, 0, map[], Idle, map[]);
    var s1 := FirstPlanBegins(c, s0, "a", 0);
    var s2 := FirstCreate(c, s1, "a");
    var s3 := s2.(phase := Idle);
    FinishesAfterCreate(c, s2);
    var s4 := FirstPlanBegins(c, s3, "b", c.timeout + 1);
    var s5 := FirstCreate(c, s4, "b");
    actions := [first, CreateSucceeds(0), Finish, second, CreateSucceeds(0)];
    states := [s0, s1, s2, s3, s4, s5];
    assert LiveIn(s4.Server(), "a");
    assert "a" in s5.born && "b" in s5.born && s5.born["a"].node == s5.born["b"].node;
  }

  lemma FinishesAfterCreate(c: Config, s: State)
    requires s.WellFormed() && s.phase.Syncing? && s.phase.todo == [] && s.phase.deletes == []
    ensures Step(c, s, Finish, s.(phase := Idle))
  {
  }

  lemma FirstCreate(c: Config, s: State, name: string) returns (s': State)
    requires s.WellFormed() && s.phase.Syncing? && s.phase.todo == [Todo(name, "n")]
    ensures Step(c, s, CreateSucceeds(0), s') && s'.WellFormed()
    ensures s'.phase == s.phase.(todo := []) && s'.born == s.born[name := Birth(|s.history|, "n")] &&
              s'.entries == s.entries
    ensures |s'.history| == |s.history| + 1 && s'.history[..|s.history|] == s.history
    ensures s'.viewed == s.viewed && s'.handled == s.handled && LiveIn(s'.Server(), name)
    ensures s'.Server().Keys == s.Server().Keys + {name} &&
              forall n | n != name && LiveIn(s.Server(), n) :: LiveIn(s'.Server(), n)
  {
    var i := NewInstance(s.phase.ds, "n", name, s.phase.hash, 0);
    s' := s.Write(name, Some(i)).(phase := s.phase.(todo := []), born := s.born[name := Birth(|s.history|, "n")]);
    assert s.phase.todo[1..] == [];
  }
}
