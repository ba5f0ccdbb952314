/** One reconcile of a NAT gateway (internal/controllers/natgateway_controller.go): read back the
    allocations of the previous table, keep those of network interfaces still claimed, serve the
    rest from what is left, write the new table. */
module NatGateway {
  import opened Wrappers
  import opened Api
  import opened Arithmetic
  import opened Allocation
  import opened NatTable

  datatype Gateway = Gateway(uid: UID, name: string, family: Family, ips: seq<IP>, width: Width)

  ghost function CurrentIPs(gw: Gateway): set<IP> {
    set ip | ip in gw.ips
  }

  /** The API server never stores two objects with one UID. */
  ghost predicate DistinctUIDs(nics: seq<Nic>) {
    forall i, j | 0 <= i < j < |nics| :: nics[i].uid != nics[j].uid
  }

  // ---- Reading back the previous table ---------------------------------------------------

  function SectionRows(n: NatIP): seq<Alloc> {
    seq(|n.sections|, j requires 0 <= j < |n.sections| => Alloc(n.ip, n.sections[j]))
  }

  /** All rows in table order. */
  function Flatten(t: Table): seq<Alloc> {
    if t == [] then [] else Flatten(t[..|t| - 1]) + SectionRows(t[|t| - 1])
  }

  lemma {:induction false} FlattenLists(t: Table)
    ensures forall a :: a in Flatten(t) <==> a in RowSet(t)
  {
    if t != [] {
      var init, n := t[..|t| - 1], |t| - 1;
      FlattenLists(init);
      forall a ensures a in Flatten(t) <==> a in RowSet(t) {
        if a in RowSet(t) {
          var i, j := PlaceOf(t, a);
          if i < n {
            Listed(init, i, j);
          } else {
            assert SectionRows(t[n])[j] == a;
          }
        }
        if a in Flatten(t) {
          if a in Flatten(init) {
            var i, j := PlaceOf(init, a);
            Listed(t, i, j);
          } else {
            var j :| 0 <= j < |t[n].sections| && SectionRows(t[n])[j] == a;
            Listed(t, n, j);
          }
        }
      }
    }
  }

  datatype Scanned = Scanned(taken: set<(IP, nat)>, allocs: map<UID, Alloc>)

  function SlotOf(width: Width, a: Alloc): Option<nat> {
    SlotForPorts(width, a.section.port, a.section.endPort)
  }

  ghost predicate Accepts(ips: seq<IP>, width: Width, a: Alloc) {
    a.ip in ips && a.section.target.Some? && SlotOf(width, a).Some?
  }

  /** What getExistingAllocations makes of one more row. */
  ghost function ScanRow(s: Scanned, a: Alloc, ips: seq<IP>, width: Width): Scanned {
    if Accepts(ips, width, a) && (a.ip, SlotOf(width, a).value) !in s.taken
    then Scanned(s.taken + {(a.ip, SlotOf(width, a).value)}, s.allocs[a.section.target.value.uid := a])
    else s
  }

  /** All rows, in table order. */
  ghost function Scan(rows: seq<Alloc>, ips: seq<IP>, width: Width): Scanned {
    if rows == [] then Scanned({}, map[])
    else ScanRow(Scan(rows[..|rows| - 1], ips, width), rows[|rows| - 1], ips, width)
  }

  lemma ScanOneMore(done: seq<Alloc>, rows: seq<Alloc>, j: nat, ips: seq<IP>, width: Width)
    requires j < |rows|
    ensures Scan(done + rows[..j + 1], ips, width) == ScanRow(Scan(done + rows[..j], ips, width), rows[j], ips, width)
  {
    assert (done + rows[..j + 1])[..|done| + j] == done + rows[..j];
  }

  ghost function Existing(prev: Option<Table>, gw: Gateway): map<UID, Alloc> {
    if prev.None? then map[] else Scan(Flatten(prev.value), gw.ips, gw.width).allocs
  }

  /** Allocations that can be reserved again one by one: each reads as a slot of a current address,
      no two as the same one. */
  ghost predicate Reusable(allocs: map<UID, Alloc>, gw: Gateway) {
    && (forall u | u in allocs :: allocs[u].For(u) && Accepts(gw.ips, gw.width, allocs[u]))
    && (forall u, v | u in allocs && v in allocs && u != v && allocs[u].ip == allocs[v].ip ::
          SlotOf(gw.width, allocs[u]) != SlotOf(gw.width, allocs[v]))
  }

  lemma {:induction false} ScanIsReusable(rows: seq<Alloc>, gw: Gateway)
    ensures var s := Scan(rows, gw.ips, gw.width);
            && Reusable(s.allocs, gw)
            && (forall u | u in s.allocs ::
                s.allocs[u] in rows && (s.allocs[u].ip, SlotOf(gw.width, s.allocs[u]).value) in s.taken)
            && (forall p | p in s.taken :: exists a :: a in rows && a.ip == p.0 && SlotOf(gw.width, a) == Some(p.1))
  {
    if rows != [] {
      var init := rows[..|rows| - 1];
      ScanIsReusable(init, gw);
      assert rows == init + [rows[|rows| - 1]];
    }
  }

  /** Rows for different network interfaces, standing for different slots. */
  ghost predicate Apart(a: Alloc, b: Alloc, width: Width) {
    && (forall u :: a.For(u) ==> !b.For(u))
    && (a.ip == b.ip ==> SlotOf(width, a) != SlotOf(width, b))
  }

  ghost predicate PairwiseApart(rows: seq<Alloc>, width: Width) {
    forall i, j | 0 <= i < j < |rows| :: Apart(rows[i], rows[j], width)
  }

  lemma LastIsNotTaken(init: seq<Alloc>, a: Alloc, gw: Gateway)
    requires Accepts(gw.ips, gw.width, a)
    requires forall b | b in init :: Apart(b, a, gw.width)
    ensures (a.ip, SlotOf(gw.width, a).value) !in Scan(init, gw.ips, gw.width).taken
  {
    hide Scan, SlotOf, Reusable;
    ScanIsReusable(init, gw);
  }

  /** What is acceptable: a target, a current address, and as many of the ephemeral ports as there are
      now for an interface, at least two. */
  lemma AcceptsMeans(ips: seq<IP>, width: Width, a: Alloc)
    ensures Accepts(ips, width, a) <==>
              && a.ip in ips && a.section.target.Some?
              && width >= 2 && 1024 <= a.section.port && a.section.endPort == a.section.port + width - 1 <= 65535
  {
    PortsRoundTrip(width, a.section.port, a.section.endPort);
  }

  /** An acceptable row is read back if no earlier row of its address reads as the same slot, and no
      later row has the same target. */
  lemma {:induction false} FirstIsReadBack(rows: seq<Alloc>, gw: Gateway, p: nat, u: UID)
    requires p < |rows| && Accepts(gw.ips, gw.width, rows[p]) && rows[p].For(u)
    requires forall q | 0 <= q < p && rows[q].ip == rows[p].ip :: SlotOf(gw.width, rows[q]) != SlotOf(gw.width, rows[p])
    requires forall q | p < q < |rows| :: !rows[q].For(u)
    ensures u in Scan(rows, gw.ips, gw.width).allocs && Scan(rows, gw.ips, gw.width).allocs[u] == rows[p]
  {
    var n := |rows| - 1;
    if p < n {
      FirstIsReadBack(rows[..n], gw, p, u);
    } else {
      hide SlotOf;
      ScanIsReusable(rows[..n], gw);
    }
  }

  /** Rows that are all acceptable and pairwise apart are all read back. */
  lemma {:induction false} ScanIsComplete(rows: seq<Alloc>, gw: Gateway)
    requires forall a | a in rows :: Accepts(gw.ips, gw.width, a)
    requires PairwiseApart(rows, gw.width)
    ensures forall a, u | a in rows && a.For(u) ::
              u in Scan(rows, gw.ips, gw.width).allocs && Scan(rows, gw.ips, gw.width).allocs[u] == a
  {
    if rows != [] {
      hide SlotOf, Accepts;
      var n := |rows| - 1;
      var init, a := rows[..n], rows[n];
      assert rows == init + [a];
      assert PairwiseApart(init, gw.width);
      forall b | b in init ensures Apart(b, a, gw.width) {
        var i :| 0 <= i < n && init[i] == b;
        assert Apart(rows[i], rows[n], gw.width);
      }
      ScanIsComplete(init, gw);
      LastIsNotTaken(init, a, gw);
      AcceptedRow(init, a, gw);
    }
  }

  lemma AcceptedRow(init: seq<Alloc>, a: Alloc, gw: Gateway)
    requires Accepts(gw.ips, gw.width, a)
    requires (a.ip, SlotOf(gw.width, a).value) !in Scan(init, gw.ips, gw.width).taken
    ensures Scan(init + [a], gw.ips, gw.width).allocs ==
              Scan(init, gw.ips, gw.width).allocs[a.section.target.value.uid := a]
  {
    assert (init + [a])[..|init|] == init;
  }

  /** getExistingAllocations. */
  method GetExistingAllocations(prev: Option<Table>, gw: Gateway) returns (allocs: map<UID, Alloc>)
    ensures allocs == Existing(prev, gw)
  {
    allocs := map[];
    if prev.None? {
      return;
    }
    var t := prev.value;
    var mgr := new AllocationManager(gw.width, gw.ips);
    for i := 0 to |t|
      invariant fresh(mgr.slots) && mgr.Valid() && mgr.IPs() == CurrentIPs(gw)
      invariant Scan(Flatten(t[..i]), gw.ips, gw.width) == Scanned(mgr.Taken(), allocs)
    {
      assert t[..i + 1][..i] == t[..i];
      ghost var done, rows := Flatten(t[..i]), SectionRows(t[i]);
      assert Flatten(t[..i + 1]) == done + rows;
      if !mgr.HasIP(t[i].ip) {
        SkipRows(done, rows, gw);
        continue;
      }
      allocs := ReadSections(mgr, t[i], allocs, done, gw);
    }
    assert t[..|t|] == t;
  }

  /** The inner loop: the sections of one current address. */
  method ReadSections(mgr: AllocationManager, n: NatIP, before: map<UID, Alloc>, ghost done: seq<Alloc>,
                      ghost gw: Gateway)
    returns (allocs: map<UID, Alloc>)
    requires mgr.Valid() && mgr.IPs() == CurrentIPs(gw) && n.ip in mgr.IPs()
    requires mgr.portsPerNetworkInterface == gw.width
    requires Scan(done, gw.ips, gw.width) == Scanned(mgr.Taken(), before)
    modifies mgr.slots
    ensures mgr.Valid() && mgr.IPs() == old(mgr.IPs())
    ensures Scan(done + SectionRows(n), gw.ips, gw.width) == Scanned(mgr.Taken(), allocs)
  {
    allocs := before;
    ghost var rows := SectionRows(n);
    assert done + rows[..0] == done;
    for j := 0 to |n.sections|
      invariant mgr.Valid() && mgr.IPs() == old(mgr.IPs())
      invariant Scan(done + rows[..j], gw.ips, gw.width) == Scanned(mgr.Taken(), allocs)
    {
      var tgt := n.sections[j];
      ScanOneMore(done, rows, j, gw.ips, gw.width);
      if tgt.target.None? {
        continue;
      }
      var ok := mgr.Use(n.ip, tgt.port, tgt.endPort);
      if ok {
        allocs := allocs[tgt.target.value.uid := Alloc(n.ip, tgt)];
      }
    }
    assert rows[..|n.sections|] == rows;
  }

  lemma {:induction false} SkipRows(done: seq<Alloc>, rows: seq<Alloc>, gw: Gateway)
    requires forall a | a in rows :: a.ip !in gw.ips
    ensures Scan(done + rows, gw.ips, gw.width) == Scan(done, gw.ips, gw.width)
  {
    if rows != [] {
      var n := |rows| - 1;
      SkipRows(done, rows[..n], gw);
      assert (done + rows)[..|done| + n] == done + rows[..n];
    } else {
      assert done + rows == done;
    }
  }

  // ---- Which network interfaces ask for a range -------------------------------------------

  /** getNicIP: the first address of the gateway's family, or the zero address. */
  function NicIP(ips: seq<IP>, family: Family): IP {
    if ips == [] then Unset
    else if ips[0].Family() == family then ips[0]
    else NicIP(ips[1..], family)
  }

  lemma {:induction false} NicIPIs(ips: seq<IP>, family: Family) returns (k: nat)
    ensures (exists i :: 0 <= i < |ips| && ips[i].Family() == family) ==>
              && k < |ips| && NicIP(ips, family) == ips[k] && ips[k].Family() == family
              && forall i | 0 <= i < k :: ips[i].Family() != family
    ensures !(exists i :: 0 <= i < |ips| && ips[i].Family() == family) ==> NicIP(ips, family) == Unset
  {
    k := 0;
    if ips != [] && ips[0].Family() != family {
      k := NicIPIs(ips[1..], family);
      k := k + 1;
      assert forall i | 0 < i < |ips| :: ips[i] == ips[1..][i - 1];
    }
  }

  /** natGatewayNetworkInterfaceSelector. */
  predicate Selects(gw: Gateway, nic: Nic) {
    && (exists i :: 0 <= i < |nic.ips| && nic.ips[i].Family() == gw.family)
    && gw.family !in nic.publicFamilies
  }

  predicate Ours(gw: Gateway, nic: Nic) {
    var claimer := Claimer(nic.nats, gw.family);
    claimer.Some? && claimer.value.uid == gw.uid
  }

  /** Claimed by the gateway, matching, and with an allocation to keep. */
  predicate Keeps(gw: Gateway, existing: map<UID, Alloc>, nic: Nic) {
    Ours(gw, nic) && Selects(gw, nic) && nic.uid in existing
  }

  /** Claimed by the gateway and matching, but without an allocation (processClaimed). */
  predicate Waits(gw: Gateway, existing: map<UID, Alloc>, nic: Nic) {
    Ours(gw, nic) && Selects(gw, nic) && nic.uid !in existing
  }

  /** Unclaimed, matching and not being deleted (processFree). */
  predicate IsFree(gw: Gateway, nic: Nic) {
    Claimer(nic.nats, gw.family).None? && Selects(gw, nic) && !nic.deleting
  }

  predicate Requests(gw: Gateway, nic: Nic) {
    (Ours(gw, nic) && Selects(gw, nic)) || IsFree(gw, nic)
  }

  predicate Unwanted(gw: Gateway, nic: Nic) {
    Ours(gw, nic) && !Selects(gw, nic)
  }

  ghost function Filtered(nics: seq<Nic>, p: Nic -> bool): seq<Nic> {
    if nics == [] then []
    else Filtered(nics[..|nics| - 1], p) + if p(nics[|nics| - 1]) then [nics[|nics| - 1]] else []
  }

  lemma {:induction false} FilteredKeeps(nics: seq<Nic>, p: Nic -> bool)
    ensures forall n :: n in Filtered(nics, p) <==> n in nics && p(n)
    ensures DistinctUIDs(nics) ==> DistinctUIDs(Filtered(nics, p))
  {
    if nics != [] {
      var init, last := nics[..|nics| - 1], nics[|nics| - 1];
      FilteredKeeps(init, p);
      assert nics == init + [last];
      if DistinctUIDs(nics) {
        assert forall n | n in init :: n.uid != last.uid;
        assert forall n | n in Filtered(init, p) :: n in init;
      }
    }
  }

  ghost function UIDs(nics: seq<Nic>): set<UID> {
    if nics == [] then {} else UIDs(nics[..|nics| - 1]) + {nics[|nics| - 1].uid}
  }

  lemma {:induction false} UIDsAreListed(nics: seq<Nic>)
    ensures forall u :: u in UIDs(nics) <==> exists n :: n in nics && n.uid == u
  {
    if nics != [] {
      var init, last := nics[..|nics| - 1], nics[|nics| - 1];
      UIDsAreListed(init);
      assert nics == init + [last];
      assert last in nics;
      forall u ensures u in UIDs(nics) <==> exists n :: n in nics && n.uid == u {
        if n :| n in nics && n.uid == u {
          assert n == last || n in init;
        }
      }
    }
  }

  lemma {:induction false} UIDsCard(nics: seq<Nic>)
    requires DistinctUIDs(nics)
    ensures |UIDs(nics)| == |nics|
  {
    if nics != [] {
      var init, last := nics[..|nics| - 1], nics[|nics| - 1];
      UIDsCard(init);
      UIDsAreListed(init);
    }
  }

  ghost function Kept(gw: Gateway, existing: map<UID, Alloc>, nics: seq<Nic>): seq<Nic> {
    Filtered(nics, n => Keeps(gw, existing, n))
  }

  ghost function Waiting(gw: Gateway, existing: map<UID, Alloc>, nics: seq<Nic>): seq<Nic> {
    Filtered(nics, n => Waits(gw, existing, n))
  }

  ghost function Unwanteds(gw: Gateway, nics: seq<Nic>): seq<Nic> {
    Filtered(nics, n => Unwanted(gw, n))
  }

  ghost function Frees(gw: Gateway, nics: seq<Nic>): seq<Nic> {
    Filtered(nics, n => IsFree(gw, n))
  }

  // ---- The outcome of one reconcile --------------------------------------------------------

  ghost function TotalSlots(gw: Gateway): nat {
    |CurrentIPs(gw)| * SlotsPerIP(gw.width)
  }

  /** The slot a range starts in. */
  function Offset(width: Width, port: int): nat {
    if port < MIN_EPHEMERAL_PORT then 0 else (port - MIN_EPHEMERAL_PORT) / width
  }

  function SlotKey(a: Alloc, width: Width): (IP, nat) {
    (a.ip, Offset(width, a.section.port))
  }

  /** The slots the rows stand for. */
  ghost function Slots(rows: map<UID, Alloc>, width: Width): set<(IP, nat)> {
    set u | u in rows :: SlotKey(rows[u], width)
  }

  ghost predicate DistinctSlots(rows: map<UID, Alloc>, width: Width) {
    forall u, v | u in rows && v in rows && u != v :: SlotKey(rows[u], width) != SlotKey(rows[v], width)
  }

  /** A row given out anew: the network interface's data over an aligned range of some address. */
  ghost predicate FreshRow(gw: Gateway, nic: Nic, a: Alloc) {
    && a.ip in gw.ips
    && Aligned(gw.width, a.section.port, a.section.endPort)
    && a.section.ip == NicIP(nic.ips, gw.family)
    && a.section.target == Some(TargetRef(nic.uid, nic.name, nic.nodeRef))
  }

  /** rows: what the table will list; served: how many of the waiting ones got a range; tried: for
      how many of the free ones a claim was attempted; used, requests: what the status reports;
      released: the network interfaces whose claim was given up, in order. */
  datatype Outcome = Outcome(rows: map<UID, Alloc>, served: nat, tried: nat, used: nat, requests: nat,
                             released: seq<UID>)

  function UIDList(nics: seq<Nic>): seq<UID> {
    seq(|nics|, i requires 0 <= i < |nics| => nics[i].uid)
  }

  /** Which rows the table lists: those kept, unchanged; the first of the waiting; and those of the
      free ones tried whose claim succeeded. Rows given out anew stand for slots of their own. */
  ghost predicate RowsAre(kept: seq<Nic>, waiting: seq<Nic>, frees: seq<Nic>, gw: Gateway, existing: map<UID, Alloc>,
                          granted: set<UID>, rows: map<UID, Alloc>) {
    && rows.Keys == UIDs(kept) + UIDs(waiting) + UIDs(frees) * granted
    && (forall n | n in kept :: n.uid in rows && n.uid in existing && rows[n.uid] == existing[n.uid])
    && (forall n | n in waiting || n in frees :: n.uid in rows ==> FreshRow(gw, n, rows[n.uid]))
    && (forall u | u in rows :: rows[u].For(u))
    && DistinctSlots(rows, gw.width)
  }

  /** manageNATTable as a relation between what it reads and what it leaves. `granted` are the
      network interfaces whose claim succeeds. */
  ghost predicate Managed(gw: Gateway, existing: map<UID, Alloc>, nics: seq<Nic>, granted: set<UID>, o: Outcome) {
    var kept, waiting, frees := Kept(gw, existing, nics), Waiting(gw, existing, nics), Frees(gw, nics);
    && o.served <= |waiting| && o.tried <= |frees|
    && RowsAre(kept, waiting[..o.served], frees[..o.tried], gw, existing, granted, o.rows)
    // One slot may be held for a claim that failed, with no further one to try.
    && o.used == |o.rows| + (if o.tried > 0 && frees[o.tried - 1].uid !in granted then 1 else 0)
    && o.used <= TotalSlots(gw)
    && (o.served < |waiting| ==> o.tried == 0 && o.used == TotalSlots(gw))
    && (o.served == |waiting| && o.tried < |frees| ==> |o.rows| == o.used == TotalSlots(gw))
    && o.requests == |kept| + |waiting| + |frees|
    && o.released == UIDList(Unwanteds(gw, nics)) + UIDList(waiting[o.served..])
  }

  lemma AddUID(nics: seq<Nic>, nic: Nic)
    ensures UIDs(nics + [nic]) == UIDs(nics) + {nic.uid}
    ensures UIDList(nics + [nic]) == UIDList(nics) + [nic.uid]
  {
    assert (nics + [nic])[..|nics|] == nics;
  }

  lemma OneMoreNic(gw: Gateway, existing: map<UID, Alloc>, nics: seq<Nic>, i: nat)
    requires i < |nics|
    ensures var nic := nics[i];
            && |Kept(gw, existing, nics[..i + 1])| ==
                |Kept(gw, existing, nics[..i])| + (if Keeps(gw, existing, nic) then 1 else 0)
            && UIDs(Kept(gw, existing, nics[..i + 1])) ==
                UIDs(Kept(gw, existing, nics[..i])) + (if Keeps(gw, existing, nic) then {nic.uid} else {})
            && Waiting(gw, existing, nics[..i + 1]) ==
                Waiting(gw, existing, nics[..i]) + (if Waits(gw, existing, nic) then [nic] else [])
            && Frees(gw, nics[..i + 1]) == Frees(gw, nics[..i]) + (if IsFree(gw, nic) then [nic] else [])
            && UIDList(Unwanteds(gw, nics[..i + 1])) ==
                UIDList(Unwanteds(gw, nics[..i])) + (if Unwanted(gw, nic) then [nic.uid] else [])
  {
    assert nics[..i + 1][..i] == nics[..i];
    assert Kept(gw, existing, nics[..i + 1]) ==
        Kept(gw, existing, nics[..i]) + (if Keeps(gw, existing, nics[i]) then [nics[i]] else []);
    assert Kept(gw, existing, nics[..i]) + [] == Kept(gw, existing, nics[..i]);
    AddUID(Kept(gw, existing, nics[..i]), nics[i]);
    AddUID(Unwanteds(gw, nics[..i]), nics[i]);
  }

  lemma NotYetKept(gw: Gateway, existing: map<UID, Alloc>, nics: seq<Nic>, i: nat)
    requires i < |nics| && DistinctUIDs(nics)
    ensures nics[i].uid !in UIDs(Kept(gw, existing, nics[..i]))
  {
    UIDsAreListed(Kept(gw, existing, nics[..i]));
    FilteredKeeps(nics[..i], n => Keeps(gw, existing, n));
  }

  /** A row in a slot of its own. */
  lemma AddRow(rows: map<UID, Alloc>, uid: UID, a: Alloc, width: Width)
    requires DistinctSlots(rows, width)
    requires uid !in rows && SlotKey(a, width) !in Slots(rows, width)
    ensures var rows' := rows[uid := a];
            && Slots(rows', width) == Slots(rows, width) + {SlotKey(a, width)}
            && DistinctSlots(rows', width)
            && |rows'| == |rows| + 1
  {
    var rows' := rows[uid := a];
    forall k ensures k in Slots(rows', width) <==> k in Slots(rows, width) || k == SlotKey(a, width) {
      if k in Slots(rows, width) {
        var u :| u in rows && SlotKey(rows[u], width) == k;
        assert rows'[u] == rows[u];
      }
      if k == SlotKey(a, width) {
        assert rows'[uid] == a;
      }
    }
  }

  lemma SlotReads(width: Width, a: Alloc)
    ensures SlotOf(width, a).Some? ==> (a.ip, SlotOf(width, a).value) == SlotKey(a, width)
  {
  }

  lemma SlotPorts(width: Width, slot: nat)
    requires slot < SlotsPerIP(width)
    ensures var (port, endPort) := PortsForSlot(width, slot);
              Aligned(width, port, endPort) && Offset(width, port) == slot
  {
    SlotRoundTrip(width, slot);
    SlotBound(width, slot);
    QuotientIsUnique(slot * width, width, slot);
  }

  /** The rows placed so far, as the nested map lists them, with their slots. */
  ghost predicate Placed(byIP: Nested, rows: map<UID, Alloc>, gw: Gateway) {
    Lists(byIP, rows) && DistinctSlots(rows, gw.width) && forall u | u in rows :: rows[u].For(u)
  }

  lemma Place(byIP: Nested, rows: map<UID, Alloc>, gw: Gateway, uid: UID, a: Alloc)
    requires Placed(byIP, rows, gw) && uid !in rows && a.For(uid) && SlotKey(a, gw.width) !in Slots(rows, gw.width)
    ensures var rows' := rows[uid := a];
            && Placed(AddAlloc(byIP, a.ip, uid, a.section), rows', gw)
            && Slots(rows', gw.width) == Slots(rows, gw.width) + {SlotKey(a, gw.width)}
            && |rows'| == |rows| + 1
  {
    AddRow(rows, uid, a, gw.width);
    AddAllocLists(byIP, rows, a.ip, uid, a.section);
  }

  /** The rows are the given network interfaces' existing allocations. */
  ghost predicate TakenOver(rows: map<UID, Alloc>, existing: map<UID, Alloc>, uids: set<UID>) {
    rows.Keys == uids && forall u | u in rows :: u in existing && rows[u] == existing[u]
  }

  lemma TakeOne(rows: map<UID, Alloc>, existing: map<UID, Alloc>, uids: set<UID>, uid: UID)
    requires TakenOver(rows, existing, uids) && uid in existing
    ensures TakenOver(rows[uid := existing[uid]], existing, uids + {uid})
  {
    assert rows[uid := existing[uid]].Keys == rows.Keys + {uid};
  }

  lemma SlotsDiffer(rows: map<UID, Alloc>, existing: map<UID, Alloc>, uids: set<UID>, gw: Gateway, uid: UID)
    requires Reusable(existing, gw) && TakenOver(rows, existing, uids) && uid in existing && uid !in uids
    ensures SlotKey(existing[uid], gw.width) !in Slots(rows, gw.width)
    ensures SlotOf(gw.width, existing[uid]).Some? &&
              (existing[uid].ip, SlotOf(gw.width, existing[uid]).value) == SlotKey(existing[uid], gw.width)
  {
    SlotReads(gw.width, existing[uid]);
    forall u | u in rows ensures SlotKey(rows[u], gw.width) != SlotKey(existing[uid], gw.width) {
      SlotReads(gw.width, rows[u]);
    }
  }

  /** Re-uses the allocation of one network interface. The source ignores whether the reservation
      succeeds; it always does. */
  method KeepOne(mgr: AllocationManager, ghost gw: Gateway, uid: UID, existing: map<UID, Alloc>, byIP: Nested,
                 ghost rows: map<UID, Alloc>, ghost uids: set<UID>)
    returns (byIP': Nested, reserved: bool, ghost rows': map<UID, Alloc>)
    requires mgr.Valid() && mgr.IPs() == CurrentIPs(gw) && mgr.portsPerNetworkInterface == gw.width
    requires mgr.Taken() == Slots(rows, gw.width)
    requires Reusable(existing, gw) && uid in existing && uid !in uids
    requires TakenOver(rows, existing, uids)
    requires Placed(byIP, rows, gw)
    modifies mgr.slots
    ensures reserved
    ensures mgr.Valid() && mgr.IPs() == old(mgr.IPs())
    ensures TakenOver(rows', existing, uids + {uid})
    ensures mgr.Taken() == Slots(rows', gw.width)
    ensures Placed(byIP', rows', gw)
  {
    var alloc := existing[uid];
    SlotsDiffer(rows, existing, uids, gw, uid);
    TakeOne(rows, existing, uids, uid);
    reserved := mgr.Use(alloc.ip, alloc.section.port, alloc.section.endPort);
    Place(byIP, rows, gw, uid, alloc);
    byIP' := AddAlloc(byIP, alloc.ip, alloc.section.target.value.uid, alloc.section);
    rows' := rows[uid := alloc];
  }

  lemma NothingKept(gw: Gateway, existing: map<UID, Alloc>, nics: seq<Nic>)
    ensures Kept(gw, existing, nics[..0]) == Waiting(gw, existing, nics[..0]) == Frees(gw, nics[..0]) == []
    ensures UIDList(Unwanteds(gw, nics[..0])) == []
    ensures TakenOver(map[], existing, UIDs(Kept(gw, existing, nics[..0])))
    ensures Placed(map[], map[], gw) && Slots(map[], gw.width) == {}
  {
  }

  /** The first loop of manageNATTable: sort the network interfaces and keep what can be kept. */
  method KeepExisting(mgr: AllocationManager, gw: Gateway, nics: seq<Nic>, existing: map<UID, Alloc>)
    returns (byIP: Nested, waiting: seq<Nic>, frees: seq<Nic>, requests: nat, released: seq<UID>,
             ghost rows: map<UID, Alloc>)
    requires mgr.Valid() && mgr.IPs() == CurrentIPs(gw) && mgr.portsPerNetworkInterface == gw.width && mgr.Taken() == {}
    requires DistinctUIDs(nics) && Reusable(existing, gw)
    modifies mgr.slots
    ensures mgr.Valid() && mgr.IPs() == old(mgr.IPs()) && mgr.Taken() == Slots(rows, gw.width)
    ensures waiting == Waiting(gw, existing, nics) && frees == Frees(gw, nics)
    ensures requests == |Kept(gw, existing, nics)| + |waiting| + |frees|
    ensures released == UIDList(Unwanteds(gw, nics))
    ensures TakenOver(rows, existing, UIDs(Kept(gw, existing, nics)))
    ensures Placed(byIP, rows, gw)
  {
    hide Placed, TakenOver, Reusable, DistinctUIDs, Slots, UIDs, UIDList, Kept, Waiting, Frees, Unwanteds, Selects,
        Claimer;
    byIP, waiting, frees, requests, released, rows := map[], [], [], 0, [], map[];
    NothingKept(gw, existing, nics);
    for i := 0 to |nics|
      invariant mgr.Valid() && mgr.IPs() == old(mgr.IPs()) && mgr.Taken() == Slots(rows, gw.width)
      invariant waiting == Waiting(gw, existing, nics[..i]) && frees == Frees(gw, nics[..i])
      invariant requests == |Kept(gw, existing, nics[..i])| + |waiting| + |frees|
      invariant released == UIDList(Unwanteds(gw, nics[..i]))
      invariant TakenOver(rows, existing, UIDs(Kept(gw, existing, nics[..i])))
      invariant Placed(byIP, rows, gw)
    {
      var nic := nics[i];
      OneMoreNic(gw, existing, nics, i);
      var claimer := Claimer(nic.nats, gw.family);
      if claimer.Some? {
        if claimer.value.uid != gw.uid {
          continue;
        }
        if Selects(gw, nic) {
          requests := requests + 1;
          if nic.uid in existing {
            var reserved;
            NotYetKept(gw, existing, nics, i);
            byIP, reserved, rows := KeepOne(mgr, gw, nic.uid, existing, byIP, rows,
                                            UIDs(Kept(gw, existing, nics[..i])));
            continue;
          }
          waiting := waiting + [nic];
          continue;
        }
        released := released + [nic.uid];
        continue;
      }
      if !Selects(gw, nic) || nic.deleting {
        continue;
      }
      requests := requests + 1;
      frees := frees + [nic];
    }
    assert nics[..|nics|] == nics;
  }
}
