/** manageNATTable and reconcile (internal/controllers/natgateway_controller.go), proved against
    the relation `Managed`. */
module NatReconcile {
  import opened Wrappers
  import opened Api
  import opened Allocation
  import opened NatTable
  import opened NatGateway

  /** Rows only ever join. */
  ghost predicate Extends(rows: map<UID, Alloc>, before: map<UID, Alloc>, uids: set<UID>) {
    rows.Keys == before.Keys + uids && forall u | u in before :: u in rows && rows[u] == before[u]
  }

  ghost predicate AllFresh(gw: Gateway, nics: seq<Nic>, rows: map<UID, Alloc>) {
    forall n | n in nics :: n.uid in rows ==> FreshRow(gw, n, rows[n.uid])
  }

  /** The network interfaces `nics` have been gone through; those in `uids` got a row. */
  ghost predicate Served(gw: Gateway, nics: seq<Nic>, uids: set<UID>, before: map<UID, Alloc>, byIP: Nested,
                         rows: map<UID, Alloc>) {
    Extends(rows, before, uids) && AllFresh(gw, nics, rows) && Placed(byIP, rows, gw)
  }

  function SectionFor(gw: Gateway, nic: Nic, port: int, endPort: int): Section {
    Section(NicIP(nic.ips, gw.family), port, endPort, Some(TargetRef(nic.uid, nic.name, nic.nodeRef)))
  }

  lemma FreshRowFor(gw: Gateway, nic: Nic, ip: IP, slot: nat)
    requires ip in CurrentIPs(gw) && slot < SlotsPerIP(gw.width)
    ensures var (port, endPort) := PortsForSlot(gw.width, slot);
            var a := Alloc(ip, SectionFor(gw, nic, port, endPort));
            FreshRow(gw, nic, a) && SlotKey(a, gw.width) == (ip, slot)
  {
    SlotPorts(gw.width, slot);
  }

  lemma JoinFresh(gw: Gateway, nics: seq<Nic>, nic: Nic, before: map<UID, Alloc>, rows: map<UID, Alloc>,
                  uids: set<UID>, a: Alloc)
    requires Extends(rows, before, uids) && AllFresh(gw, nics, rows)
    requires nic.uid !in rows && FreshRow(gw, nic, a) && forall n | n in nics :: n.uid != nic.uid
    ensures Extends(rows[nic.uid := a], before, uids + {nic.uid})
    ensures AllFresh(gw, nics + [nic], rows[nic.uid := a])
  {
    var rows' := rows[nic.uid := a];
    assert rows'.Keys == rows.Keys + {nic.uid};
    forall n | n in nics + [nic] ensures n.uid in rows' ==> FreshRow(gw, n, rows'[n.uid]) {
      assert n in nics || n == nic;
    }
  }

  lemma ServeNext(gw: Gateway, nics: seq<Nic>, uids: set<UID>, before: map<UID, Alloc>, byIP: Nested,
                  rows: map<UID, Alloc>,
                  nic: Nic, ip: IP, port: int, endPort: int, slot: nat)
    requires Served(gw, nics, uids, before, byIP, rows)
    requires nic.uid !in rows && forall n | n in nics :: n.uid != nic.uid
    requires ip in CurrentIPs(gw) && slot < SlotsPerIP(gw.width) && (port, endPort) == PortsForSlot(gw.width, slot)
    requires (ip, slot) !in Slots(rows, gw.width)
    ensures var section := SectionFor(gw, nic, port, endPort);
            var rows' := rows[nic.uid := Alloc(ip, section)];
            && Served(gw, nics + [nic], uids + {nic.uid}, before, AddAlloc(byIP, ip, nic.uid, section), rows')
            && Slots(rows', gw.width) == Slots(rows, gw.width) + {(ip, slot)}
  {
    FreshRowFor(gw, nic, ip, slot);
    var a := Alloc(ip, SectionFor(gw, nic, port, endPort));
    Place(byIP, rows, gw, nic.uid, a);
    JoinFresh(gw, nics, nic, before, rows, uids, a);
  }

  lemma PrefixStep(nics: seq<Nic>, i: nat)
    requires i < |nics| && DistinctUIDs(nics)
    ensures nics[..i + 1] == nics[..i] + [nics[i]]
    ensures UIDs(nics[..i + 1]) == UIDs(nics[..i]) + {nics[i].uid}
    ensures nics[i].uid !in UIDs(nics[..i]) && nics[i].uid in UIDs(nics)
    ensures forall n | n in nics[..i] :: n.uid != nics[i].uid
  {
    hide UIDs;
    assert nics[..i + 1] == nics[..i] + [nics[i]];
    AddUID(nics[..i], nics[i]);
    assert forall n | n in nics[..i] :: n.uid != nics[i].uid;
    UIDsAreListed(nics[..i]);
    assert nics[i] in nics;
    UIDsAreListed(nics);
  }

  /** The first `i` of the network interfaces have been gone through, and those of them in
      `granted` got a row. */
  ghost predicate Progress(gw: Gateway, nics: seq<Nic>, i: nat, granted: set<UID>, before: map<UID, Alloc>,
                           byIP: Nested, rows: map<UID, Alloc>) {
    && i <= |nics| && DistinctUIDs(nics) && UIDs(nics) !! before.Keys
    && Served(gw, nics[..i], UIDs(nics[..i]) * granted, before, byIP, rows)
  }

  lemma NoProgress(gw: Gateway, nics: seq<Nic>, granted: set<UID>, byIP: Nested, rows: map<UID, Alloc>)
    requires DistinctUIDs(nics) && UIDs(nics) !! rows.Keys && Placed(byIP, rows, gw)
    ensures Progress(gw, nics, 0, granted, rows, byIP, rows)
  {
    assert nics[..0] == [] && UIDs(nics[..0]) == {} && UIDs(nics[..0]) * granted == {};
  }

  lemma SkipIth(gw: Gateway, nics: seq<Nic>, i: nat, granted: set<UID>, before: map<UID, Alloc>, byIP: Nested,
                rows: map<UID, Alloc>)
    requires i < |nics| && Progress(gw, nics, i, granted, before, byIP, rows) && nics[i].uid !in granted
    ensures Progress(gw, nics, i + 1, granted, before, byIP, rows)
  {
    hide Placed, FreshRow;
    PrefixStep(nics, i);
    assert UIDs(nics[..i + 1]) * granted == UIDs(nics[..i]) * granted;
    forall n | n in nics[..i + 1] ensures n.uid in rows ==> FreshRow(gw, n, rows[n.uid]) {
      assert n in nics[..i] || n == nics[i];
    }
  }

  lemma ServeIth(gw: Gateway, nics: seq<Nic>, i: nat, granted: set<UID>, before: map<UID, Alloc>, byIP: Nested,
                 rows: map<UID, Alloc>,
                 ip: IP, port: int, endPort: int, slot: nat)
    requires i < |nics| && Progress(gw, nics, i, granted, before, byIP, rows) && nics[i].uid in granted
    requires ip in CurrentIPs(gw) && slot < SlotsPerIP(gw.width) && (port, endPort) == PortsForSlot(gw.width, slot)
    requires (ip, slot) !in Slots(rows, gw.width)
    ensures var section := SectionFor(gw, nics[i], port, endPort);
            var rows' := rows[nics[i].uid := Alloc(ip, section)];
            && Progress(gw, nics, i + 1, granted, before, AddAlloc(byIP, ip, nics[i].uid, section), rows')
            && Slots(rows', gw.width) == Slots(rows, gw.width) + {(ip, slot)}
  {
    PrefixStep(nics, i);
    assert UIDs(nics[..i + 1]) * granted == UIDs(nics[..i]) * granted + {nics[i].uid};
    ServeNext(gw, nics[..i], UIDs(nics[..i]) * granted, before, byIP, rows, nics[i], ip, port, endPort, slot);
  }

  lemma SlotsCard(rows: map<UID, Alloc>, width: Width)
    requires DistinctSlots(rows, width)
    ensures |Slots(rows, width)| == |rows|
    decreases |rows|
  {
    if rows == map[] {
      assert Slots(rows, width) == {};
    } else {
      var u :| u in rows;
      var rest := rows - {u};
      assert rest[u := rows[u]] == rows;
      assert forall v | v in rest :: rest[v] == rows[v];
      forall v | v in rest ensures SlotKey(rest[v], width) != SlotKey(rows[u], width) {
      }
      assert SlotKey(rows[u], width) !in Slots(rest, width);
      SlotsCard(rest, width);
      AddRow(rest, u, rows[u], width);
    }
  }

  lemma RowCount(gw: Gateway, nics: seq<Nic>, i: nat, granted: set<UID>, before: map<UID, Alloc>, byIP: Nested,
                 rows: map<UID, Alloc>)
    requires Progress(gw, nics, i, granted, before, byIP, rows)
    ensures |Slots(rows, gw.width)| == |rows|
    ensures Placed(byIP, rows, gw)
  {
    SlotsCard(rows, gw.width);
  }

  lemma SliceStep(nics: seq<Nic>, from: nat, i: nat)
    requires from <= i < |nics|
    ensures UIDList(nics[from..i + 1]) == UIDList(nics[from..i]) + [nics[i].uid]
    ensures UIDList(nics[i..i]) == []
  {
    assert nics[from..i + 1] == nics[from..i] + [nics[i]];
    AddUID(nics[from..i], nics[i]);
  }

  lemma AllListed(nics: seq<Nic>)
    ensures forall i | 0 <= i < |nics| :: nics[i].uid in UIDs(nics)
    ensures UIDList(nics[|nics|..]) == []
  {
    UIDsAreListed(nics);
  }

  /** The second loop: network interfaces already claimed get what is left, first come first
      served; once an attempt fails, the rest are released. */
  method ServeClaimed(mgr: AllocationManager, gw: Gateway, waiting: seq<Nic>, byIP0: Nested,
                      ghost rows0: map<UID, Alloc>)
    returns (byIP: Nested, full: bool, released: seq<UID>, ghost rows: map<UID, Alloc>, ghost served: nat)
    requires mgr.Valid() && mgr.IPs() == CurrentIPs(gw) && mgr.portsPerNetworkInterface == gw.width &&
              mgr.Taken() == Slots(rows0, gw.width)
    requires DistinctUIDs(waiting) && UIDs(waiting) !! rows0.Keys
    requires Placed(byIP0, rows0, gw)
    modifies mgr.slots
    ensures mgr.Valid() && mgr.IPs() == CurrentIPs(gw) && mgr.portsPerNetworkInterface == gw.width &&
              mgr.Taken() == Slots(rows, gw.width)
    ensures served <= |waiting| && (full <==> served < |waiting|)
    ensures full ==> mgr.Used() == mgr.Total()
    ensures Progress(gw, waiting, served, UIDs(waiting), rows0, byIP, rows)
    ensures released == UIDList(waiting[served..])
  {
    hide *;
    byIP, full, released, rows, served := byIP0, false, [], rows0, 0;
    NoProgress(gw, waiting, UIDs(waiting), byIP, rows);
    AllListed(waiting);
    for i := 0 to |waiting|
      invariant mgr.Valid() && mgr.IPs() == CurrentIPs(gw) && mgr.portsPerNetworkInterface == gw.width
      invariant mgr.Taken() == Slots(rows, gw.width)
      invariant served <= i && (if full then served < i else served == i)
      invariant full ==> mgr.Used() == mgr.Total()
      invariant Progress(gw, waiting, served, UIDs(waiting), rows0, byIP, rows)
      invariant !full ==> released == []
      invariant full ==> released == UIDList(waiting[served..i])
    {
      var nic := waiting[i];
      SliceStep(waiting, served, i);
      if !full {
        mgr.UsedCountsTaken();
        var ip, port, endPort, slot := mgr.UseNextFree();
        if ip.Some? {
          ServeIth(gw, waiting, i, UIDs(waiting), rows0, byIP, rows, ip.value, port, endPort, slot);
          var section := SectionFor(gw, nic, port, endPort);
          byIP := AddAlloc(byIP, ip.value, nic.uid, section);
          rows := rows[nic.uid := Alloc(ip.value, section)];
          served := served + 1;
          continue;
        }
        mgr.UsedCountsTaken();
        full := true;
      }
      released := released + [nic.uid];
    }
    assert waiting[served..|waiting|] == waiting[served..];
  }

  /** The third loop: unclaimed network interfaces are claimed one by one, each against a slot
      reserved beforehand; a slot whose claim failed is kept for the next one. */
  method ServeFree(mgr: AllocationManager, gw: Gateway, frees: seq<Nic>, granted: set<UID>, byIP0: Nested,
                   ghost rows0: map<UID, Alloc>)
    returns (byIP: Nested, ghost rows: map<UID, Alloc>, ghost tried: nat)
    requires mgr.Valid() && mgr.IPs() == CurrentIPs(gw) && mgr.portsPerNetworkInterface == gw.width &&
              mgr.Taken() == Slots(rows0, gw.width)
    requires DistinctUIDs(frees) && UIDs(frees) !! rows0.Keys
    requires Placed(byIP0, rows0, gw)
    modifies mgr.slots
    ensures mgr.Valid() && mgr.IPs() == CurrentIPs(gw) && mgr.portsPerNetworkInterface == gw.width
    ensures tried <= |frees|
    ensures |mgr.Taken()| == |Slots(rows, gw.width)| + (if tried > 0 && frees[tried - 1].uid !in granted then 1 else 0)
    ensures tried < |frees| ==> mgr.Taken() == Slots(rows, gw.width) && mgr.Used() == mgr.Total()
    ensures Progress(gw, frees, tried, granted, rows0, byIP, rows)
  {
    hide *;
    byIP, rows, tried := byIP0, rows0, 0;
    var ip, port, endPort := Unset, 0, 0;
    ghost var slot: nat := 0;
    var shouldUseNextFree := true;
    NoProgress(gw, frees, granted, byIP, rows);
    for i := 0 to |frees|
      invariant mgr.Valid() && mgr.IPs() == CurrentIPs(gw) && mgr.portsPerNetworkInterface == gw.width
      invariant tried == i
      invariant shouldUseNextFree <==> !(i > 0 && frees[i - 1].uid !in granted)
      invariant shouldUseNextFree ==> mgr.Taken() == Slots(rows, gw.width)
      invariant !shouldUseNextFree ==>
                  && mgr.Taken() == Slots(rows, gw.width) + {(ip, slot)}
                  && ip in CurrentIPs(gw) && slot < SlotsPerIP(gw.width) &&
                      (port, endPort) == PortsForSlot(gw.width, slot)
                  && (ip, slot) !in Slots(rows, gw.width)
      invariant Progress(gw, frees, i, granted, rows0, byIP, rows)
    {
      var nic := frees[i];
      if shouldUseNextFree {
        mgr.UsedCountsTaken();
        var next, p, e, s := mgr.UseNextFree();
        mgr.UsedCountsTaken();
        if next.None? {
          break;
        }
        ip, port, endPort, slot := next.value, p, e, s;
        shouldUseNextFree := false;
      }
      tried := i + 1;
      if nic.uid !in granted {
        SkipIth(gw, frees, i, granted, rows0, byIP, rows);
        continue;
      }
      ServeIth(gw, frees, i, granted, rows0, byIP, rows, ip, port, endPort, slot);
      var section := SectionFor(gw, nic, port, endPort);
      byIP := AddAlloc(byIP, ip, nic.uid, section);
      rows := rows[nic.uid := Alloc(ip, section)];
      shouldUseNextFree := true;
    }
  }

  /** The third loop does not run once the second one found the table full. */
  method ServeRest(mgr: AllocationManager, gw: Gateway, full: bool, frees: seq<Nic>, granted: set<UID>, byIP0: Nested,
                   ghost rows0: map<UID, Alloc>)
    returns (byIP: Nested, ghost rows: map<UID, Alloc>, ghost tried: nat)
    requires mgr.Valid() && mgr.IPs() == CurrentIPs(gw) && mgr.portsPerNetworkInterface == gw.width &&
              mgr.Taken() == Slots(rows0, gw.width)
    requires full ==> mgr.Used() == mgr.Total()
    requires DistinctUIDs(frees) && UIDs(frees) !! rows0.Keys
    requires Placed(byIP0, rows0, gw)
    modifies mgr.slots
    ensures tried <= |frees| && (full ==> tried == 0)
    ensures mgr.Used() == |rows| + (if tried > 0 && frees[tried - 1].uid !in granted then 1 else 0)
    ensures mgr.Used() <= TotalSlots(gw)
    ensures full || tried < |frees| ==> |rows| == mgr.Used() == TotalSlots(gw)
    ensures Progress(gw, frees, tried, granted, rows0, byIP, rows)
  {
    hide *;
    byIP, rows, tried := byIP0, rows0, 0;
    if full {
      NoProgress(gw, frees, granted, byIP, rows);
    } else {
      byIP, rows, tried := ServeFree(mgr, gw, frees, granted, byIP0, rows0);
    }
    RowCount(gw, frees, tried, granted, rows0, byIP, rows);
    mgr.UsedCountsTaken();
    TotalIs(mgr, gw);
  }

  /** The keys of the rows are the network interfaces gone through and granted, over those kept. */
  lemma RowKeys(gw: Gateway, nics: seq<Nic>, i: nat, granted: set<UID>, before: map<UID, Alloc>, byIP: Nested,
                rows: map<UID, Alloc>)
    requires Progress(gw, nics, i, granted, before, byIP, rows)
    ensures rows.Keys == before.Keys + UIDs(nics[..i]) * granted
    ensures i <= |nics| && forall u | u in before :: u in rows && rows[u] == before[u]
    ensures forall n | n in nics[..i] :: n.uid in rows ==> FreshRow(gw, n, rows[n.uid])
    ensures Placed(byIP, rows, gw)
  {
  }

  lemma PrefixUIDs(nics: seq<Nic>, i: nat)
    requires i <= |nics|
    ensures UIDs(nics[..i]) <= UIDs(nics)
  {
    UIDsAreListed(nics[..i]);
    UIDsAreListed(nics);
    assert forall n | n in nics[..i] :: n in nics;
  }

  /** The three groups have no network interface in common. */
  lemma GroupsAreDisjoint(gw: Gateway, existing: map<UID, Alloc>, nics: seq<Nic>)
    requires DistinctUIDs(nics)
    ensures var kept, waiting, frees := Kept(gw, existing, nics), Waiting(gw, existing, nics), Frees(gw, nics);
            && DistinctUIDs(kept) && DistinctUIDs(waiting) && DistinctUIDs(frees)
            && UIDs(kept) !! UIDs(waiting) !! UIDs(frees)
  {
    hide UIDs, Selects, Claimer;
    var kept, waiting, frees := Kept(gw, existing, nics), Waiting(gw, existing, nics), Frees(gw, nics);
    FilteredKeeps(nics, n => Keeps(gw, existing, n));
    FilteredKeeps(nics, n => Waits(gw, existing, n));
    FilteredKeeps(nics, n => IsFree(gw, n));
    UIDsAreListed(kept);
    UIDsAreListed(waiting);
    UIDsAreListed(frees);
    assert forall m, n | m in nics && n in nics && m.uid == n.uid :: m == n;
    assert forall n | n in kept :: n in nics && Keeps(gw, existing, n);
    assert forall n | n in waiting :: n in nics && Waits(gw, existing, n);
    assert forall n | n in frees :: n in nics && IsFree(gw, n);
  }

  /** The three phases together give the rows of the table. */
  lemma Conclude(gw: Gateway, existing: map<UID, Alloc>, nics: seq<Nic>, granted: set<UID>, kept: map<UID, Alloc>,
                 served: nat, tried: nat,
                 byIP1: Nested, rows1: map<UID, Alloc>, byIP: Nested, rows: map<UID, Alloc>)
    requires DistinctUIDs(nics)
    requires served <= |Waiting(gw, existing, nics)| && tried <= |Frees(gw, nics)|
    requires TakenOver(kept, existing, UIDs(Kept(gw, existing, nics)))
    requires Progress(gw, Waiting(gw, existing, nics), served, UIDs(Waiting(gw, existing, nics)), kept, byIP1, rows1)
    requires Progress(gw, Frees(gw, nics), tried, granted, rows1, byIP, rows)
    ensures RowsAre(Kept(gw, existing, nics), Waiting(gw, existing, nics)[..served], Frees(gw, nics)[..tried], gw,
                    existing, granted, rows)
    ensures Placed(byIP, rows, gw)
  {
    hide *;
    var ks, waiting, frees := Kept(gw, existing, nics), Waiting(gw, existing, nics), Frees(gw, nics);
    GroupsAreDisjoint(gw, existing, nics);
    RowKeys(gw, waiting, served, UIDs(waiting), kept, byIP1, rows1);
    PrefixUIDs(waiting, served);
    PrefixUIDs(frees, tried);
    UIDsAreListed(ks);
    UIDsAreListed(waiting[..served]);
    UIDsAreListed(frees[..tried]);
    TakenOverKeys(kept, existing, UIDs(ks));
    RowKeys(gw, frees, tried, granted, rows1, byIP, rows);
    assert UIDs(waiting[..served]) * UIDs(waiting) == UIDs(waiting[..served]);
    assert rows.Keys == UIDs(ks) + UIDs(waiting[..served]) + UIDs(frees[..tried]) * granted;
    forall n | n in ks ensures n.uid in rows && n.uid in existing && rows[n.uid] == existing[n.uid] {
      assert n.uid in UIDs(ks);
    }
    forall n | n in waiting[..served] || n in frees[..tried] ensures n.uid in rows ==> FreshRow(gw, n, rows[n.uid]) {
      if n in waiting[..served] {
        assert n.uid in UIDs(waiting[..served]);
      }
    }
    RowsAreThese(ks, waiting[..served], frees[..tried], gw, existing, granted, byIP, rows);
  }

  lemma RowsAreThese(kept: seq<Nic>, waiting: seq<Nic>, frees: seq<Nic>, gw: Gateway, existing: map<UID, Alloc>,
                     granted: set<UID>, byIP: Nested, rows: map<UID, Alloc>)
    requires rows.Keys == UIDs(kept) + UIDs(waiting) + UIDs(frees) * granted
    requires forall n | n in kept :: n.uid in rows && n.uid in existing && rows[n.uid] == existing[n.uid]
    requires forall n | n in waiting || n in frees :: n.uid in rows ==> FreshRow(gw, n, rows[n.uid])
    requires Placed(byIP, rows, gw)
    ensures RowsAre(kept, waiting, frees, gw, existing, granted, rows)
  {
  }

  /** Managed, part by part. */
  lemma IsManaged(gw: Gateway, existing: map<UID, Alloc>, nics: seq<Nic>, granted: set<UID>, waiting: seq<Nic>,
                  frees: seq<Nic>, o: Outcome)
    requires waiting == Waiting(gw, existing, nics) && frees == Frees(gw, nics) && o.served <= |waiting| &&
              o.tried <= |frees|
    requires RowsAre(Kept(gw, existing, nics), waiting[..o.served], frees[..o.tried], gw, existing, granted, o.rows)
    requires o.used == |o.rows| + (if o.tried > 0 && frees[o.tried - 1].uid !in granted then 1 else 0) &&
              o.used <= TotalSlots(gw)
    requires o.served < |waiting| ==> o.tried == 0 && o.used == TotalSlots(gw)
    requires o.served == |waiting| && o.tried < |frees| ==> |o.rows| == o.used == TotalSlots(gw)
    requires o.requests == |Kept(gw, existing, nics)| + |waiting| + |frees|
    requires o.released == UIDList(Unwanteds(gw, nics)) + UIDList(waiting[o.served..])
    ensures Managed(gw, existing, nics, granted, o)
  {
    hide RowsAre, TotalSlots, UIDList, Kept, Waiting, Frees, Unwanteds;
  }

  lemma CurrentIPsAre(gw: Gateway)
    ensures CurrentIPs(gw) == set ip | ip in gw.ips
  {
  }

  /** The three loops of manageNATTable, one after the other. */
  method Allocate(gw: Gateway, nics: seq<Nic>, existing: map<UID, Alloc>, granted: set<UID>)
    returns (byIP: Nested, used: nat, requests: nat, released: seq<UID>, ghost o: Outcome)
    requires DistinctUIDs(nics) && Reusable(existing, gw)
    ensures Managed(gw, existing, nics, granted, o)
    ensures Placed(byIP, o.rows, gw)
    ensures used == o.used && requests == o.requests && released == o.released
  {
    hide *;
    var mgr := new AllocationManager(gw.width, gw.ips);
    NoSlots(gw);
    CurrentIPsAre(gw);
    GroupsAreDisjoint(gw, existing, nics);
    var byIP0, waiting, frees, n, unwanted, kept := KeepExisting(mgr, gw, nics, existing);
    TakenOverKeys(kept, existing, UIDs(Kept(gw, existing, nics)));
    var byIP1, full, rest, rows1, served := ServeClaimed(mgr, gw, waiting, byIP0, kept);
    RowKeys(gw, waiting, served, UIDs(waiting), kept, byIP1, rows1);
    ghost var rows, tried;
    byIP, rows, tried := ServeRest(mgr, gw, full, frees, granted, byIP1, rows1);
    used, requests, released := mgr.Used(), n, unwanted + rest;
    o := Outcome(rows, served, tried, used, requests, released);
    Conclude(gw, existing, nics, granted, kept, served, tried, byIP1, rows1, byIP, rows);
    IsManaged(gw, existing, nics, granted, waiting, frees, o);
  }

  /** The table, the status and the releases are those of one outcome. */
  ghost predicate Results(gw: Gateway, existing: map<UID, Alloc>, nics: seq<Nic>, granted: set<UID>,
                          table: Table, used: nat, requests: nat, released: seq<UID>) {
    exists o ::
      && Managed(gw, existing, nics, granted, o) && Represents(table, o.rows)
      && used == o.used && requests == o.requests && released == o.released
  }

  lemma ResultsOf(gw: Gateway, existing: map<UID, Alloc>, nics: seq<Nic>, granted: set<UID>, table: Table, o: Outcome)
    requires Managed(gw, existing, nics, granted, o) && Represents(table, o.rows)
    ensures Results(gw, existing, nics, granted, table, o.used, o.requests, o.released)
  {
    hide Managed, Represents;
  }

  /** Which network interfaces are in which group. */
  lemma Members(gw: Gateway, existing: map<UID, Alloc>, nics: seq<Nic>)
    ensures forall n :: n in Kept(gw, existing, nics) <==> n in nics && Keeps(gw, existing, n)
    ensures forall n :: n in Waiting(gw, existing, nics) <==> n in nics && Waits(gw, existing, n)
    ensures forall n :: n in Frees(gw, nics) <==> n in nics && IsFree(gw, n)
    ensures forall n :: n in Unwanteds(gw, nics) <==> n in nics && Unwanted(gw, n)
  {
    hide Keeps, Waits, IsFree, Unwanted;
    FilteredKeeps(nics, n => Keeps(gw, existing, n));
    FilteredKeeps(nics, n => Waits(gw, existing, n));
    FilteredKeeps(nics, n => IsFree(gw, n));
    FilteredKeeps(nics, n => Unwanted(gw, n));
  }

  lemma RowsAreParts(kept: seq<Nic>, waiting: seq<Nic>, frees: seq<Nic>, gw: Gateway, existing: map<UID, Alloc>,
                     granted: set<UID>, rows: map<UID, Alloc>)
    requires RowsAre(kept, waiting, frees, gw, existing, granted, rows)
    ensures rows.Keys == UIDs(kept) + UIDs(waiting) + UIDs(frees) * granted
    ensures forall n | n in kept :: n.uid in rows && n.uid in existing && rows[n.uid] == existing[n.uid]
    ensures forall n | n in waiting || n in frees :: n.uid in rows ==> FreshRow(gw, n, rows[n.uid])
    ensures forall u | u in rows :: rows[u].For(u)
  {
  }

  lemma RowsOf(gw: Gateway, existing: map<UID, Alloc>, nics: seq<Nic>, granted: set<UID>, o: Outcome)
    requires Managed(gw, existing, nics, granted, o)
    ensures o.served <= |Waiting(gw, existing, nics)| && o.tried <= |Frees(gw, nics)|
    ensures RowsAre(Kept(gw, existing, nics), Waiting(gw, existing, nics)[..o.served], Frees(gw, nics)[..o.tried], gw,
                    existing, granted, o.rows)
  {
    hide RowsAre, TotalSlots, UIDList, Kept, Waiting, Frees, Unwanteds;
  }

  /** A row is that of a kept interface, or a new one. */
  lemma WhoseRow(gw: Gateway, existing: map<UID, Alloc>, nics: seq<Nic>, granted: set<UID>, o: Outcome, u: UID)
    returns (n: Nic)
    requires Managed(gw, existing, nics, granted, o) && u in o.rows
    ensures n in nics && n.uid == u && o.rows[u].For(u)
    ensures Keeps(gw, existing, n) || Waits(gw, existing, n) || (IsFree(gw, n) && u in granted)
    ensures if Keeps(gw, existing, n) then u in existing && o.rows[u] == existing[u] else FreshRow(gw, n, o.rows[u])
  {
    hide *;
    Members(gw, existing, nics);
    RowsOf(gw, existing, nics, granted, o);
    var kept, waiting, frees := Kept(gw, existing, nics), Waiting(gw, existing, nics), Frees(gw, nics);
    RowsAreParts(kept, waiting[..o.served], frees[..o.tried], gw, existing, granted, o.rows);
    UIDsAreListed(kept);
    UIDsAreListed(waiting[..o.served]);
    UIDsAreListed(frees[..o.tried]);
    if u in UIDs(kept) {
      n :| n in kept && n.uid == u;
    } else {
      if u in UIDs(waiting[..o.served]) {
        n :| n in waiting[..o.served] && n.uid == u;
        assert n in waiting;
      } else {
        n :| n in frees[..o.tried] && n.uid == u;
        assert n in frees;
      }
      assert n !in kept;
    }
  }

  /** Whose row it is, and what is in it: the interface has an address of the gateway's family and no
      public one, and is claimed by the gateway, or was free, not being deleted, and granted. The row
      is the one read back if the interface was claimed before and had one; or else it names the
      interface, its node and its first address of the family, over an aligned range of the width on
      one of the gateway's addresses. */
  lemma RowMeans(gw: Gateway, existing: map<UID, Alloc>, nics: seq<Nic>, granted: set<UID>, o: Outcome, u: UID)
    returns (n: Nic, k: nat)
    requires Managed(gw, existing, nics, granted, o) && u in o.rows
    ensures n in nics && n.uid == u && o.rows[u].For(u) && gw.family !in n.publicFamilies
    ensures k < |n.ips| && n.ips[k].Family() == gw.family && forall i | 0 <= i < k :: n.ips[i].Family() != gw.family
    ensures var claimer := Claimer(n.nats, gw.family);
            if claimer.Some? then claimer.value.uid == gw.uid else !n.deleting && u in granted
    ensures if Claimer(n.nats, gw.family).Some? && u in existing then
              o.rows[u] == existing[u]
            else
              var a := o.rows[u];
              && a.section.target == Some(TargetRef(n.uid, n.name, n.nodeRef)) && a.section.ip == n.ips[k]
              && a.ip in gw.ips && 1024 <= a.section.port && a.section.endPort == a.section.port + gw.width - 1 <= 65535
              && (a.section.port - 1024) % gw.width == 0
  {
    hide Managed, NicIP, Claimer;
    n := WhoseRow(gw, existing, nics, granted, o, u);
    k := NicIPIs(n.ips, gw.family);
  }

  /** Hence for the sections of the table. */
  lemma SectionMeans(gw: Gateway, existing: map<UID, Alloc>, nics: seq<Nic>, granted: set<UID>, o: Outcome, t: Table,
                     i: int, j: int)
    returns (n: Nic, k: nat)
    requires Managed(gw, existing, nics, granted, o) && Represents(t, o.rows) && Position(t, i, j)
    ensures var s := t[i].sections[j];
            && n in nics && s.target.Some? && s.target.value.uid == n.uid && gw.family !in n.publicFamilies
            && k < |n.ips| && n.ips[k].Family() == gw.family
            && (forall h | 0 <= h < k :: n.ips[h].Family() != gw.family)
            && (if Claimer(n.nats, gw.family).Some? then Claimer(n.nats, gw.family).value.uid == gw.uid
                else !n.deleting && n.uid in granted)
            && (if Claimer(n.nats, gw.family).Some? && n.uid in existing then
                  Alloc(t[i].ip, s) == existing[n.uid]
                else
                  && s.target == Some(TargetRef(n.uid, n.name, n.nodeRef)) && s.ip == n.ips[k]
                  && t[i].ip in gw.ips && 1024 <= s.port && s.endPort == s.port + gw.width - 1 <= 65535
                  && (s.port - 1024) % gw.width == 0)
  {
    hide Managed, Claimer, Canonical;
    assert Row(t, i, j) in RowSet(t);
    var u :| u in o.rows && o.rows[u] == Row(t, i, j);
    n, k := RowMeans(gw, existing, nics, granted, o, u);
  }

  lemma TableMeans(gw: Gateway, existing: map<UID, Alloc>, nics: seq<Nic>, granted: set<UID>, o: Outcome, table: Table)
    requires Managed(gw, existing, nics, granted, o) && Represents(table, o.rows)
    ensures forall i, j | Position(table, i, j) ::
              var s := table[i].sections[j];
              exists n, k ::
                && n in nics && s.target.Some? && s.target.value.uid == n.uid && gw.family !in n.publicFamilies
                && 0 <= k < |n.ips| && n.ips[k].Family() == gw.family
                && (forall h | 0 <= h < k :: n.ips[h].Family() != gw.family)
                && (if Claimer(n.nats, gw.family).Some? then Claimer(n.nats, gw.family).value.uid == gw.uid
                    else !n.deleting && n.uid in granted)
                && (if Claimer(n.nats, gw.family).Some? && n.uid in existing then
                      Alloc(table[i].ip, s) == existing[n.uid]
                    else
                      && s.target == Some(TargetRef(n.uid, n.name, n.nodeRef)) && s.ip == n.ips[k]
                      && table[i].ip in gw.ips && 1024 <= s.port && s.endPort == s.port + gw.width - 1 <= 65535
                      && (s.port - 1024) % gw.width == 0)
  {
    hide Managed, Claimer, Represents;
    forall i, j | Position(table, i, j)
      ensures var s := table[i].sections[j];
              exists n, k ::
                && n in nics && s.target.Some? && s.target.value.uid == n.uid && gw.family !in n.publicFamilies
                && 0 <= k < |n.ips| && n.ips[k].Family() == gw.family
                && (forall h | 0 <= h < k :: n.ips[h].Family() != gw.family)
                && (if Claimer(n.nats, gw.family).Some? then Claimer(n.nats, gw.family).value.uid == gw.uid
                    else !n.deleting && n.uid in granted)
                && (if Claimer(n.nats, gw.family).Some? && n.uid in existing then
                      Alloc(table[i].ip, s) == existing[n.uid]
                    else
                      && s.target == Some(TargetRef(n.uid, n.name, n.nodeRef)) && s.ip == n.ips[k]
                      && table[i].ip in gw.ips && 1024 <= s.port && s.endPort == s.port + gw.width - 1 <= 65535
                      && (s.port - 1024) % gw.width == 0)
    {
      var n, k := SectionMeans(gw, existing, nics, granted, o, table, i, j);
    }
  }

  /** The requests counted are the interfaces with an address of the family and no public one that the
      gateway claimed or that are free and not being deleted. */
  lemma RequestsAre(gw: Gateway, existing: map<UID, Alloc>, nics: seq<Nic>, granted: set<UID>, o: Outcome)
    requires DistinctUIDs(nics) && Managed(gw, existing, nics, granted, o)
    ensures o.requests == |set n | n in nics
                               && gw.family !in n.publicFamilies && (exists a :: a in n.ips && a.Family() == gw.family)
                               && (if Claimer(n.nats, gw.family).Some?
                                   then Claimer(n.nats, gw.family).value.uid == gw.uid else !n.deleting)
                             :: n.uid|
  {
    hide *;
    var kept, waiting, frees := Kept(gw, existing, nics), Waiting(gw, existing, nics), Frees(gw, nics);
    RequestsOf(gw, existing, nics, granted, o);
    GroupsAreDisjoint(gw, existing, nics);
    UIDsCard(kept);
    UIDsCard(waiting);
    UIDsCard(frees);
    assert |UIDs(kept) + UIDs(waiting)| == |kept| + |waiting|;
    assert |UIDs(kept) + UIDs(waiting) + UIDs(frees)| == |kept| + |waiting| + |frees|;
    AskingUIDs(gw, existing, nics);
  }

  lemma AskingUIDs(gw: Gateway, existing: map<UID, Alloc>, nics: seq<Nic>)
    ensures UIDs(Kept(gw, existing, nics)) + UIDs(Waiting(gw, existing, nics)) + UIDs(Frees(gw, nics)) ==
              set n | n in nics
                  && gw.family !in n.publicFamilies && (exists a :: a in n.ips && a.Family() == gw.family)
                  && (if Claimer(n.nats, gw.family).Some?
                      then Claimer(n.nats, gw.family).value.uid == gw.uid else !n.deleting)
                :: n.uid
  {
    hide *;
    var kept, waiting, frees := Kept(gw, existing, nics), Waiting(gw, existing, nics), Frees(gw, nics);
    Members(gw, existing, nics);
    UIDsAreListed(kept);
    UIDsAreListed(waiting);
    UIDsAreListed(frees);
    forall n | n in nics
      ensures n in kept || n in waiting || n in frees <==>
                && gw.family !in n.publicFamilies && (exists a :: a in n.ips && a.Family() == gw.family)
                && (if Claimer(n.nats, gw.family).Some?
                    then Claimer(n.nats, gw.family).value.uid == gw.uid else !n.deleting)
    {
      AsksMeans(gw, existing, n);
    }
  }

  lemma AsksMeans(gw: Gateway, existing: map<UID, Alloc>, n: Nic)
    ensures Keeps(gw, existing, n) || Waits(gw, existing, n) || IsFree(gw, n) <==>
              && gw.family !in n.publicFamilies && (exists a :: a in n.ips && a.Family() == gw.family)
              && (if Claimer(n.nats, gw.family).Some?
                  then Claimer(n.nats, gw.family).value.uid == gw.uid else !n.deleting)
  {
    hide Selects, Claimer;
    SelectsByMember(gw, n);
  }

  lemma SelectsByMember(gw: Gateway, n: Nic)
    ensures Selects(gw, n) <==> gw.family !in n.publicFamilies && exists a :: a in n.ips && a.Family() == gw.family
  {
    if a :| a in n.ips && a.Family() == gw.family {
      var i :| 0 <= i < |n.ips| && n.ips[i] == a;
    }
  }

  lemma RequestsOf(gw: Gateway, existing: map<UID, Alloc>, nics: seq<Nic>, granted: set<UID>, o: Outcome)
    requires Managed(gw, existing, nics, granted, o)
    ensures o.requests == |Kept(gw, existing, nics)| + |Waiting(gw, existing, nics)| + |Frees(gw, nics)|
  {
    hide RowsAre, TotalSlots, UIDList, Kept, Waiting, Frees, Unwanteds;
  }

  /** manageNATTable: builds the new table from the existing allocations and the network
      interfaces, the claims in `granted` succeeding. */
  method ManageNATTable(gw: Gateway, nics: seq<Nic>, existing: map<UID, Alloc>, granted: set<UID>)
    returns (table: Table, used: nat, requests: nat, released: seq<UID>)
    requires DistinctUIDs(nics) && Reusable(existing, gw)
    ensures Results(gw, existing, nics, granted, table, used, requests, released)
    ensures forall i, j | Position(table, i, j) ::
              var s := table[i].sections[j];
              exists n, k ::
                && n in nics && s.target.Some? && s.target.value.uid == n.uid && gw.family !in n.publicFamilies
                && 0 <= k < |n.ips| && n.ips[k].Family() == gw.family
                && (forall h | 0 <= h < k :: n.ips[h].Family() != gw.family)
                && (if Claimer(n.nats, gw.family).Some? then Claimer(n.nats, gw.family).value.uid == gw.uid
                    else !n.deleting && n.uid in granted)
                && (if Claimer(n.nats, gw.family).Some? && n.uid in existing then
                      Alloc(table[i].ip, s) == existing[n.uid]
                    else
                      && s.target == Some(TargetRef(n.uid, n.name, n.nodeRef)) && s.ip == n.ips[k]
                      && table[i].ip in gw.ips && 1024 <= s.port && s.endPort == s.port + gw.width - 1 <= 65535
                      && (s.port - 1024) % gw.width == 0)
    ensures requests == |set n | n in nics
                             && gw.family !in n.publicFamilies && (exists a :: a in n.ips && a.Family() == gw.family)
                             && (if Claimer(n.nats, gw.family).Some?
                                 then Claimer(n.nats, gw.family).value.uid == gw.uid else !n.deleting)
                           :: n.uid|
  {
    hide *;
    var byIP;
    ghost var o;
    byIP, used, requests, released, o := Allocate(gw, nics, existing, granted);
    PlacedSlots(byIP, o.rows, gw);
    table := BuildTable(byIP, o.rows);
    ResultsOf(gw, existing, nics, granted, table, o);
    RequestsAre(gw, existing, nics, granted, o);
    TableMeans(gw, existing, nics, granted, o, table);
  }

  lemma TakenOverKeys(rows: map<UID, Alloc>, existing: map<UID, Alloc>, uids: set<UID>)
    requires TakenOver(rows, existing, uids)
    ensures rows.Keys == uids && forall u | u in uids :: u in existing && rows[u] == existing[u]
  {
  }

  lemma TotalIs(mgr: AllocationManager, gw: Gateway)
    requires mgr.Valid() && mgr.IPs() == CurrentIPs(gw) && mgr.portsPerNetworkInterface == gw.width
    ensures mgr.Total() == TotalSlots(gw)
  {
    mgr.TotalCountsSlots();
  }

  /** Placed rows take one slot each, and no address lists a port twice. */
  lemma PlacedSlots(byIP: Nested, rows: map<UID, Alloc>, gw: Gateway)
    requires Placed(byIP, rows, gw)
    ensures |Slots(rows, gw.width)| == |rows|
    ensures Lists(byIP, rows) && PortsDiffer(rows) && forall u | u in rows :: rows[u].For(u)
  {
    SlotsCard(rows, gw.width);
    assert forall u, v | u in rows && v in rows && u != v :: SlotKey(rows[u], gw.width) != SlotKey(rows[v], gw.width);
  }

  lemma NoSlots(gw: Gateway)
    ensures Slots(map[], gw.width) == {}
  {
  }
}
