/** What every run of the NAT gateway controller keeps, how many network interfaces it serves,
    and that reconciling twice changes nothing. */
module NatProofs {
  import opened Wrappers
  import opened Api
  import opened Allocation
  import opened NatTable
  import opened NatGateway
  import opened NatReconcile

  /** Rows of the current width over current addresses, each slot at most once. */
  ghost predicate GoodRows(rows: map<UID, Alloc>, gw: Gateway) {
    && (forall u | u in rows ::
          && rows[u].For(u)
          && rows[u].ip in gw.ips
          && Aligned(gw.width, rows[u].section.port, rows[u].section.endPort))
    && DistinctSlots(rows, gw.width)
  }

  ghost predicate AllAligned(allocs: map<UID, Alloc>, width: Width) {
    forall u | u in allocs :: Aligned(width, allocs[u].section.port, allocs[u].section.endPort)
  }

  lemma RowIsGood(kept: seq<Nic>, waiting: seq<Nic>, frees: seq<Nic>, gw: Gateway, existing: map<UID, Alloc>,
                  granted: set<UID>,
                  rows: map<UID, Alloc>, u: UID)
    requires RowsAre(kept, waiting, frees, gw, existing, granted, rows) && Reusable(existing, gw) &&
              AllAligned(existing, gw.width) && u in rows
    ensures rows[u].For(u) && rows[u].ip in gw.ips && Aligned(gw.width, rows[u].section.port, rows[u].section.endPort)
  {
    hide UIDs, Aligned, SlotOf, DistinctSlots, NicIP;
    UIDsAreListed(kept);
    UIDsAreListed(waiting);
    UIDsAreListed(frees);
    if u in UIDs(kept) {
      var n :| n in kept && n.uid == u;
    } else {
      var n :| (n in waiting || n in frees) && n.uid == u;
      assert FreshRow(gw, n, rows[u]);
    }
  }

  /** The outcome's rows are good as soon as what was read back was aligned. */
  lemma OutcomeIsGood(gw: Gateway, existing: map<UID, Alloc>, nics: seq<Nic>, granted: set<UID>, o: Outcome)
    requires Managed(gw, existing, nics, granted, o)
    requires Reusable(existing, gw) && AllAligned(existing, gw.width)
    ensures GoodRows(o.rows, gw)
  {
    hide UIDs, Kept, Waiting, Frees, Unwanteds, UIDList, TotalSlots, Aligned, DistinctSlots, Reusable, AllAligned,
        FreshRow;
    var kept, waiting, frees := Kept(gw, existing, nics), Waiting(gw, existing, nics)[..o.served],
        Frees(gw, nics)[..o.tried];
    forall u | u in o.rows
      ensures o.rows[u].For(u) && o.rows[u].ip in gw.ips &&
                Aligned(gw.width, o.rows[u].section.port, o.rows[u].section.endPort)
    {
      RowIsGood(kept, waiting, frees, gw, existing, granted, o.rows, u);
    }
  }

  lemma GoodRowsApart(rows: map<UID, Alloc>, gw: Gateway, u: UID, v: UID)
    requires GoodRows(rows, gw) && u in rows && v in rows && u != v
    ensures rows[u].section.target.Some? && rows[v].section.target.Some?
    ensures rows[u].section.target.value.uid != rows[v].section.target.value.uid
    ensures rows[u].ip == rows[v].ip ==>
              !Overlap(rows[u].section.port, rows[u].section.endPort, rows[v].section.port, rows[v].section.endPort)
  {
    assert SlotKey(rows[u], gw.width) != SlotKey(rows[v], gw.width);
    AlignedRanges(gw.width, rows[u].section.port, rows[u].section.endPort, rows[v].section.port,
                  rows[v].section.endPort);
  }

  /** A table of good rows is safe. */
  lemma GoodTableIsSafe(t: Table, rows: map<UID, Alloc>, gw: Gateway)
    requires Represents(t, rows) && GoodRows(rows, gw)
    ensures Safe(t, gw.ips, gw.width)
  {
    hide DistinctSlots, Aligned, Overlap, Canonical;
    forall i, j | Position(t, i, j)
      ensures t[i].ip in gw.ips && t[i].sections[j].target.Some?
      ensures Aligned(gw.width, t[i].sections[j].port, t[i].sections[j].endPort)
    {
      Listed(t, i, j);
      var u :| u in rows && rows[u] == Row(t, i, j);
    }
    forall i, j, k, l | Position(t, i, j) && Position(t, k, l) && (i, j) != (k, l)
      ensures t[i].sections[j].target.Some? && t[k].sections[l].target.Some?
      ensures t[i].sections[j].target.value.uid != t[k].sections[l].target.value.uid
      ensures t[i].ip == t[k].ip ==>
                !Overlap(t[i].sections[j].port, t[i].sections[j].endPort, t[k].sections[l].port,
                         t[k].sections[l].endPort)
    {
      var u, v := PlacesDiffer(t, rows, i, j, k, l);
      GoodRowsApart(rows, gw, u, v);
    }
  }

  // ---- Runs ----------------------------------------------------------------------------------

  /** What can happen to a gateway's table: a reconcile with whatever addresses, width, network
      interfaces and claim results there are at the time, whose final write may fail; and the
      removal of the table after its gateway is gone. */
  datatype Event =
    | Reconcile(gw: Gateway, nics: seq<Nic>, granted: set<UID>, applied: bool)
    | GatewayGone

  ghost predicate Written(read: Option<Table>, e: Event, table: Table, o: Outcome)
    requires e.Reconcile?
  {
    Managed(e.gw, Existing(read, e.gw), e.nics, e.granted, o) && Represents(table, o.rows)
  }

  /** The reconcile reads one table, from a cache, and replaces another. */
  ghost predicate Step(read: Option<Table>, prev: Option<Table>, e: Event, next: Option<Table>) {
    match e
    case GatewayGone => next.None?
    case Reconcile(gw, nics, granted, applied) =>
      && DistinctUIDs(nics)
      && (if applied then next.Some? && exists o :: Written(read, e, next.value, o) else next == prev)
  }

  /** reconcile: a step of a run, with the status of the table it makes. */
  method ReconcileOnce(read: Option<Table>, prev: Option<Table>, e: Event)
    returns (next: Option<Table>, used: nat, requests: nat)
    requires e.Reconcile? && DistinctUIDs(e.nics)
    ensures Step(read, prev, e, next)
    ensures exists table, released ::
              Results(e.gw, Existing(read, e.gw), e.nics, e.granted, table, used, requests, released)
                                      && (e.applied ==> next == Some(table))
  {
    hide Existing, Managed, Represents;
    var allocs := GetExistingAllocations(read, e.gw);
    ExistingIsReusable(read, e.gw);
    var table, u, r, released := ManageNATTable(e.gw, e.nics, allocs, e.granted);
    used, requests := u, r;
    ghost var o :| Managed(e.gw, allocs, e.nics, e.granted, o) && Represents(table, o.rows);
    assert Written(read, e, table, o);
    next := if e.applied then Some(table) else prev;
  }

  lemma ExistingIsReusable(prev: Option<Table>, gw: Gateway)
    ensures Reusable(Existing(prev, gw), gw)
    ensures prev.Some? ==> forall u | u in Existing(prev, gw) :: Existing(prev, gw)[u] in RowSet(prev.value)
  {
    if prev.Some? {
      ScanIsReusable(Flatten(prev.value), gw);
      FlattenLists(prev.value);
    }
  }

  /** All ranges of the table are slots of one width. */
  ghost predicate AlignedTable(t: Table, width: Width) {
    forall i, j | Position(t, i, j) :: Aligned(width, t[i].sections[j].port, t[i].sections[j].endPort)
  }

  /** Of whatever width. */
  ghost predicate AlignedForSome(prev: Option<Table>) {
    prev.Some? ==> exists width :: AlignedTable(prev.value, width)
  }

  /** Rows of an aligned table that are read back are aligned, whatever the width has become:
      sections of another width are not read back at all. */
  lemma ReadBackIsAligned(prev: Option<Table>, gw: Gateway)
    requires AlignedForSome(prev)
    ensures AllAligned(Existing(prev, gw), gw.width)
  {
    ExistingIsReusable(prev, gw);
    if prev.Some? {
      var t := prev.value;
      var width :| AlignedTable(t, width);
      forall u | u in Existing(prev, gw)
        ensures Aligned(gw.width, Existing(prev, gw)[u].section.port, Existing(prev, gw)[u].section.endPort)
      {
        var a := Existing(prev, gw)[u];
        var i, j := PlaceOf(t, a);
        assert Aligned(width, a.section.port, a.section.endPort);
        PortsRoundTrip(gw.width, a.section.port, a.section.endPort);
        assert width == gw.width;
      }
    }
  }

  lemma SafeIsAligned(t: Table, ips: seq<IP>, width: Width)
    requires Safe(t, ips, width)
    ensures AlignedForSome(Some(t))
  {
    hide Aligned, Overlap;
    assert AlignedTable(t, width);
  }

  /** A reconcile over an aligned table writes a safe one. */
  lemma StepIsSafe(read: Option<Table>, prev: Option<Table>, e: Event, next: Option<Table>)
    requires Step(read, prev, e, next) && AlignedForSome(read) && AlignedForSome(prev)
    ensures AlignedForSome(next)
    ensures e.Reconcile? && e.applied ==> next.Some? && Safe(next.value, e.gw.ips, e.gw.width)
  {
    if e.Reconcile? && e.applied {
      hide Managed, Represents, Safe, Existing;
      var o :| Written(read, e, next.value, o);
      ExistingIsReusable(read, e.gw);
      ReadBackIsAligned(read, e.gw);
      OutcomeIsGood(e.gw, Existing(read, e.gw), e.nics, e.granted, o);
      GoodTableIsSafe(next.value, o.rows, e.gw);
      SafeIsAligned(next.value, e.gw.ips, e.gw.width);
    }
  }

  /** A run: each reconcile may read the table as it is or as it was any number of events ago. */
  ghost predicate IsRun(history: seq<Option<Table>>, views: seq<nat>, events: seq<Event>) {
    && |history| == |events| + 1 && |views| == |events|
    && forall k | 0 <= k < |events| :: views[k] <= k && Step(history[views[k]], history[k], events[k], history[k + 1])
  }

  /** Over every run that starts without a table or with an aligned one, every table written is safe
      for the gateway it was written for, however old the tables read. */
  lemma {:induction false} RunsAreSafe(history: seq<Option<Table>>, views: seq<nat>, events: seq<Event>)
    requires IsRun(history, views, events) && AlignedForSome(history[0])
    ensures forall k | 0 <= k < |history| :: AlignedForSome(history[k])
    ensures forall k | 0 <= k < |events| && events[k].Reconcile? && events[k].applied ::
              history[k + 1].Some? && Safe(history[k + 1].value, events[k].gw.ips, events[k].gw.width)
  {
    hide Step, Safe, AlignedForSome;
    if |events| > 0 {
      var n := |events| - 1;
      var h, v, e := history[..n + 1], views[..n], events[..n];
      assert forall k | 0 <= k < n ::
          e[k] == events[k] && v[k] == views[k] && h[k + 1] == history[k + 1] && h[v[k]] == history[views[k]];
      RunsAreSafe(h, v, e);
      assert h[n] == history[n] && h[views[n]] == history[views[n]];
      StepIsSafe(history[views[n]], history[n], events[n], history[n + 1]);
      forall k | 0 <= k < |history| ensures AlignedForSome(history[k]) {
        assert k <= n ==> h[k] == history[k];
      }
    }
  }
}
