/** Inputs at which a NAT table is not what one might expect
    (internal/controllers/natgateway_controller.go). */
module NatExamples {
  import opened Wrappers
  import opened Api
  import opened Allocation
  import opened NatTable
  import opened NatGateway
  import opened NatReconcile
  import opened NatProofs
  import opened NatFixedPoint

  /** A gateway with one address, */
  function TheGateway(width: Width): Gateway {
    Gateway("g", "g", IPv4, [V4(1)], width)
  }

  /** an interface it has claimed, */
  function Claimed(uid: UID, addr: nat, node: string): Nic {
    Nic(uid, uid, node, [V4(addr)], [], [Nat(IPv4, ClaimRef("g", "g"))], false)
  }

  /** and a row for such an interface. */
  function RowFor(uid: UID, addr: nat, node: string, port: int, endPort: int): Alloc {
    Alloc(V4(1), Section(V4(addr), port, endPort, Some(TargetRef(uid, uid, node))))
  }

  // ---- Groups of claimed interfaces --------------------------------------------------------------

  lemma ClaimedIsOurs(width: Width, existing: map<UID, Alloc>, n: Nic, uid: UID, addr: nat, node: string)
    requires n == Claimed(uid, addr, node)
    ensures var gw := TheGateway(width);
            && (Keeps(gw, existing, n) <==> uid in existing) && (Waits(gw, existing, n) <==> uid !in existing)
            && !IsFree(gw, n) && !Unwanted(gw, n) && NicIP(n.ips, IPv4) == V4(addr)
  {
    assert n.ips[0].Family() == IPv4;
  }

  lemma FilteredOne(p: Nic -> bool, n: Nic)
    ensures Filtered([n], p) == if p(n) then [n] else []
  {
    assert [n][..0] == [];
  }

  lemma FilteredTwo(p: Nic -> bool, m: Nic, n: Nic)
    ensures Filtered([m, n], p) == (if p(m) then [m] else []) + (if p(n) then [n] else [])
  {
    FilteredOne(p, m);
    assert [m, n][..1] == [m];
  }

  lemma OneClaimed(width: Width, existing: map<UID, Alloc>, u: UID, addr: nat, node: string)
    ensures var gw, n := TheGateway(width), Claimed(u, addr, node);
            && Kept(gw, existing, [n]) == (if u in existing then [n] else [])
            && Waiting(gw, existing, [n]) == (if u in existing then [] else [n])
            && Frees(gw, [n]) == [] && Unwanteds(gw, [n]) == []
  {
    hide Keeps, Waits, IsFree, Unwanted, Filtered;
    var gw, n := TheGateway(width), Claimed(u, addr, node);
    ClaimedIsOurs(width, existing, n, u, addr, node);
    FilteredOne(x => Keeps(gw, existing, x), n);
    FilteredOne(x => Waits(gw, existing, x), n);
    FilteredOne(x => IsFree(gw, x), n);
    FilteredOne(x => Unwanted(gw, x), n);
  }

  lemma TwoClaimed(width: Width, existing: map<UID, Alloc>, m: Nic, n: Nic, u: UID, v: UID, addr: nat, bddr: nat,
                   node: string)
    requires m == Claimed(u, addr, node) && n == Claimed(v, bddr, node)
    ensures var gw := TheGateway(width);
            && Kept(gw, existing, [m, n]) == (if u in existing then [m] else []) + (if v in existing then [n] else [])
            && Waiting(gw, existing, [m, n]) ==
                (if u in existing then [] else [m]) + (if v in existing then [] else [n])
            && Frees(gw, [m, n]) == [] && Unwanteds(gw, [m, n]) == []
  {
    hide Keeps, Waits, IsFree, Unwanted, Filtered;
    var gw := TheGateway(width);
    ClaimedIsOurs(width, existing, m, u, addr, node);
    ClaimedIsOurs(width, existing, n, v, bddr, node);
    FilteredTwo(x => Keeps(gw, existing, x), m, n);
    FilteredTwo(x => Waits(gw, existing, x), m, n);
    FilteredTwo(x => IsFree(gw, x), m, n);
    FilteredTwo(x => Unwanted(gw, x), m, n);
  }

  lemma SlotsOfTheGateway(width: Width)
    ensures TotalSlots(TheGateway(width)) == SlotsPerIP(width)
  {
    assert CurrentIPs(TheGateway(width)) == {V4(1)};
  }

  lemma UIDsOf(m: Nic, n: Nic)
    ensures UIDs([]) == {} && UIDs([m]) == {m.uid} && UIDs([m, n]) == {m.uid, n.uid}
    ensures UIDList([]) == []
  {
    assert [m][..0] == [] && [m, n][..1] == [m];
  }

  // ---- A row that does not describe its interface ------------------------------------------------

  /** An interface gets a row; its address and node change; the next reconcile reads the row back and
      keeps it as it is. */
  lemma KeptRowGoesStale(t: Table)
    requires t == [NatIP(V4(1), [RowFor("u", 2, "node1", 1024, 1087).section])]
    ensures var gw, before, after := TheGateway(64), Claimed("u", 2, "node1"), Claimed("u", 3, "node2");
            var rows := map["u" := RowFor("u", 2, "node1", 1024, 1087)];
            && Managed(gw, Existing(None, gw), [before], {}, Outcome(rows, 1, 0, 1, 1, [])) && Represents(t, rows)
            && Managed(gw, Existing(Some(t), gw), [after], {}, Outcome(rows, 0, 0, 1, 1, []))
            && Describes(gw, rows["u"], before) && !Describes(gw, rows["u"], after)
  {
    hide Managed, Existing, Represents, Kept, Waiting, Frees, Unwanteds, TotalSlots, RowsAre, UIDs;
    var gw, before, after := TheGateway(64), Claimed("u", 2, "node1"), Claimed("u", 3, "node2");
    var rows := map["u" := RowFor("u", 2, "node1", 1024, 1087)];
    assert SlotsPerIP(64) == 1008;
    SlotsOfTheGateway(64);
    assert Existing(None, gw) == map[] by { NothingExists(gw); }
    OneClaimed(64, map[], "u", 2, "node1");
    UIDsOf(before, before);
    NewRow(before, rows);
    assert [before][..1] == [before] && [before][1..] == [];
    IsManaged(gw, map[], [before], {}, [before], [], Outcome(rows, 1, 0, 1, 1, []));
    OneRowTable(t, rows);
    ReadBack(gw, before, rows, t);
    OneClaimed(64, rows, "u", 3, "node2");
    OldRow(after, rows);
    IsManaged(gw, rows, [after], {}, [], [], Outcome(rows, 0, 0, 1, 1, []));
  }

  lemma NothingExists(gw: Gateway)
    ensures Existing(None, gw) == map[]
  {
  }

  lemma NewRow(n: Nic, rows: map<UID, Alloc>)
    requires n == Claimed("u", 2, "node1") && rows == map["u" := RowFor("u", 2, "node1", 1024, 1087)]
    ensures RowsAre([], [n], [], TheGateway(64), map[], {}, rows) && Describes(TheGateway(64), rows["u"], n)
  {
    UIDsOf(n, n);
    assert V4(1) in TheGateway(64).ips;
    assert FreshRow(TheGateway(64), n, rows["u"]);
  }

  lemma OldRow(n: Nic, rows: map<UID, Alloc>)
    requires n == Claimed("u", 3, "node2") && rows == map["u" := RowFor("u", 2, "node1", 1024, 1087)]
    ensures RowsAre([n], [], [], TheGateway(64), rows, {}, rows) && !Describes(TheGateway(64), rows["u"], n)
  {
    UIDsOf(n, n);
  }

  lemma OneRowTable(t: Table, rows: map<UID, Alloc>)
    requires t == [NatIP(V4(1), [RowFor("u", 2, "node1", 1024, 1087).section])]
    requires rows == map["u" := RowFor("u", 2, "node1", 1024, 1087)]
    ensures Represents(t, rows)
  {
    assert Position(t, 0, 0) && Row(t, 0, 0) == rows["u"];
    assert RowSet(t) == {rows["u"]};
    assert rows.Values == {rows["u"]};
  }

  lemma ReadBack(gw: Gateway, n: Nic, rows: map<UID, Alloc>, t: Table)
    requires gw.width >= 2 && Represents(t, rows)
    requires exists o :: Managed(gw, map[], [n], {}, o) && o.rows == rows
    ensures Existing(Some(t), gw) == rows
  {
    hide Managed, Represents, Existing, GoodRows;
    var o :| Managed(gw, map[], [n], {}, o) && o.rows == rows;
    OutcomeIsGood(gw, map[], [n], {}, o);
    ReadBackIsExact(t, rows, gw);
  }

  // ---- One port an interface ---------------------------------------------------------------------

  /** With one port an interface the second reconcile does not keep the table: listed the other way
      round, two interfaces change places. Everything else the fixed point asks for holds. */
  lemma OnePortIsNoFixedPoint(prev: Option<Table>, t: Table, t': Table)
    requires Represents(t, map["a" := RowFor("a", 2, "n", 1024, 1024), "b" := RowFor("b", 3, "n", 1025, 1025)])
    requires Represents(t', map["b" := RowFor("b", 3, "n", 1024, 1024), "a" := RowFor("a", 2, "n", 1025, 1025)])
    ensures var gw, a, b := TheGateway(1), Claimed("a", 2, "n"), Claimed("b", 3, "n");
            var rows := map["a" := RowFor("a", 2, "n", 1024, 1024), "b" := RowFor("b", 3, "n", 1025, 1025)];
            var rows' := map["b" := RowFor("b", 3, "n", 1024, 1024), "a" := RowFor("a", 2, "n", 1025, 1025)];
            && Managed(gw, Existing(prev, gw), [a, b], {}, Outcome(rows, 2, 0, 2, 2, []))
            && Settled(gw, [a, b], rows, [b, a])
            && Managed(gw, Existing(Some(t), gw), [b, a], {}, Outcome(rows', 2, 0, 2, 2, []))
            && t != t'
  {
    hide Managed, Existing, Represents, Settled;
    var gw, a, b := TheGateway(1), Claimed("a", 2, "n"), Claimed("b", 3, "n");
    OnePortForgets(prev, gw);
    OnePortForgets(Some(t), gw);
    TwoServed(a, b, "a", "b", 2, 3,
              map["a" := RowFor("a", 2, "n", 1024, 1024), "b" := RowFor("b", 3, "n", 1025, 1025)]);
    TwoServed(b, a, "b", "a", 3, 2,
              map["b" := RowFor("b", 3, "n", 1024, 1024), "a" := RowFor("a", 2, "n", 1025, 1025)]);
    StillSettled(a, b, map["a" := RowFor("a", 2, "n", 1024, 1024), "b" := RowFor("b", 3, "n", 1025, 1025)]);
    DifferentTables(t, t');
  }

  lemma TwoServed(m: Nic, n: Nic, u: UID, v: UID, addr: nat, bddr: nat, rows: map<UID, Alloc>)
    requires u != v && m == Claimed(u, addr, "n") && n == Claimed(v, bddr, "n")
    requires rows == map[u := RowFor(u, addr, "n", 1024, 1024), v := RowFor(v, bddr, "n", 1025, 1025)]
    ensures Managed(TheGateway(1), map[], [m, n], {}, Outcome(rows, 2, 0, 2, 2, []))
  {
    hide Managed, Kept, Waiting, Frees, Unwanteds, TotalSlots, RowsAre, UIDs;
    var gw := TheGateway(1);
    assert SlotsPerIP(1) == 64512;
    SlotsOfTheGateway(1);
    TwoClaimed(1, map[], m, n, u, v, addr, bddr, "n");
    UIDsOf(m, n);
    TwoNewRows(m, n, u, v, addr, bddr, rows);
    assert [m] + [n] == [m, n] && [m, n][..2] == [m, n] && [m, n][2..] == [];
    assert |rows| == 2 by { assert rows.Keys == {u, v}; }
    IsManaged(gw, map[], [m, n], {}, [m, n], [], Outcome(rows, 2, 0, 2, 2, []));
  }

  lemma TwoNewRows(m: Nic, n: Nic, u: UID, v: UID, addr: nat, bddr: nat, rows: map<UID, Alloc>)
    requires u != v && m == Claimed(u, addr, "n") && n == Claimed(v, bddr, "n")
    requires rows == map[u := RowFor(u, addr, "n", 1024, 1024), v := RowFor(v, bddr, "n", 1025, 1025)]
    ensures RowsAre([], [m, n], [], TheGateway(1), map[], {}, rows)
  {
    UIDsOf(m, n);
    assert V4(1) in TheGateway(1).ips;
    assert FreshRow(TheGateway(1), m, rows[u]) && FreshRow(TheGateway(1), n, rows[v]);
    assert SlotKey(rows[u], 1) == (V4(1), 0) && SlotKey(rows[v], 1) == (V4(1), 1);
  }

  lemma StillSettled(a: Nic, b: Nic, rows: map<UID, Alloc>)
    requires a == Claimed("a", 2, "n") && b == Claimed("b", 3, "n") && rows.Keys == {"a", "b"}
    ensures Settled(TheGateway(1), [a, b], rows, [b, a])
  {
    assert a in [a, b] && b in [a, b] && a in [b, a] && b in [b, a];
    assert SettledNic(TheGateway(1), a, rows, a) && SettledNic(TheGateway(1), b, rows, b);
  }

  lemma DifferentTables(t: Table, t': Table)
    requires Represents(t, map["a" := RowFor("a", 2, "n", 1024, 1024), "b" := RowFor("b", 3, "n", 1025, 1025)])
    requires Represents(t', map["b" := RowFor("b", 3, "n", 1024, 1024), "a" := RowFor("a", 2, "n", 1025, 1025)])
    ensures t != t'
  {
    var rows := map["a" := RowFor("a", 2, "n", 1024, 1024), "b" := RowFor("b", 3, "n", 1025, 1025)];
    assert rows["a"] in rows.Values;
  }

  // ---- A table that is not aligned ---------------------------------------------------------------

  /** A table somebody else wrote, with a range that starts in the middle of the first slot and ends in
      the second: it is read back, and the second slot is given to another interface, the ranges
      overlapping. */
  lemma UnalignedTableOverlaps(t: Table)
    requires t == [NatIP(V4(1), [RowFor("a", 2, "n", 1026, 1029).section])]
    ensures var gw, a, b := TheGateway(4), Claimed("a", 2, "n"), Claimed("b", 3, "n");
            var rows := map["a" := RowFor("a", 2, "n", 1026, 1029), "b" := RowFor("b", 3, "n", 1028, 1031)];
            && !AlignedForSome(Some(t))
            && Managed(gw, Existing(Some(t), gw), [a, b], {}, Outcome(rows, 1, 0, 2, 2, []))
            && Overlap(1026, 1029, 1028, 1031)
            && forall t' | Represents(t', rows) :: !Safe(t', gw.ips, gw.width)
  {
    hide Managed, Existing, Represents, Kept, Waiting, Frees, Unwanteds, TotalSlots, RowsAre, UIDs, Safe,
        AlignedForSome;
    var gw, a, b := TheGateway(4), Claimed("a", 2, "n"), Claimed("b", 3, "n");
    var earlier := map["a" := RowFor("a", 2, "n", 1026, 1029)];
    var rows := map["a" := RowFor("a", 2, "n", 1026, 1029), "b" := RowFor("b", 3, "n", 1028, 1031)];
    assert SlotsPerIP(4) == 16128;
    SlotsOfTheGateway(4);
    UnalignedIsRead(t, earlier);
    assert !AlignedForSome(Some(t)) by { NotAligned(t); }
    assert "a" in earlier && "b" !in earlier by { assert "a"[0] != "b"[0]; }
    TwoClaimed(4, earlier, a, b, "a", "b", 2, 3, "n");
    UIDsOf(a, b);
    UIDsOf(b, a);
    OldAndNewRow(a, b, earlier, rows);
    assert [b][..1] == [b] && [b][1..] == [] && [a] + [] == [a] && [] + [b] == [b];
    assert |rows| == 2 by { assert rows.Keys == {"a", "b"}; }
    IsManaged(gw, earlier, [a, b], {}, [b], [], Outcome(rows, 1, 0, 2, 2, []));
    forall t' | Represents(t', rows) ensures !Safe(t', gw.ips, gw.width) {
      UnalignedIsUnsafe(t', rows);
    }
  }

  lemma NotAligned(t: Table)
    requires t == [NatIP(V4(1), [RowFor("a", 2, "n", 1026, 1029).section])]
    ensures !AlignedForSome(Some(t))
  {
    forall width: Width ensures !AlignedTable(t, width) {
      assert Position(t, 0, 0);
      if width == 4 {
        assert (1026 - 1024) % 4 != 0;
      }
    }
  }

  lemma OneRowIsFlat(a: Alloc)
    ensures Flatten([NatIP(a.ip, [a.section])]) == [a]
  {
    var t := [NatIP(a.ip, [a.section])];
    assert t[..0] == [] && SectionRows(t[0]) == [a];
  }

  lemma OneRowIsScanned(a: Alloc, ips: seq<IP>, width: Width)
    requires Accepts(ips, width, a)
    ensures Scan([a], ips, width).allocs == map[a.section.target.value.uid := a]
  {
    hide SlotOf;
    assert [a][..0] == [];
    assert Scan([], ips, width) == Scanned({}, map[]);
  }

  lemma UnalignedIsRead(t: Table, rows: map<UID, Alloc>)
    requires t == [NatIP(V4(1), [RowFor("a", 2, "n", 1026, 1029).section])]
    requires rows == map["a" := RowFor("a", 2, "n", 1026, 1029)]
    ensures Existing(Some(t), TheGateway(4)) == rows
  {
    hide Flatten, Scan;
    var gw, a := TheGateway(4), rows["a"];
    OneRowIsFlat(a);
    assert Accepts(gw.ips, 4, a) by { assert gw.ips[0] == V4(1); }
    OneRowIsScanned(a, gw.ips, 4);
  }

  lemma OldAndNewRow(a: Nic, b: Nic, existing: map<UID, Alloc>, rows: map<UID, Alloc>)
    requires a == Claimed("a", 2, "n") && b == Claimed("b", 3, "n")
    requires existing == map["a" := RowFor("a", 2, "n", 1026, 1029)]
    requires rows == map["a" := RowFor("a", 2, "n", 1026, 1029), "b" := RowFor("b", 3, "n", 1028, 1031)]
    ensures RowsAre([a], [b], [], TheGateway(4), existing, {}, rows)
  {
    assert "a"[0] != "b"[0];
    UIDsOf(a, b);
    UIDsOf(b, a);
    assert V4(1) in TheGateway(4).ips;
    assert FreshRow(TheGateway(4), b, rows["b"]);
    assert SlotKey(rows["a"], 4) == (V4(1), 0) && SlotKey(rows["b"], 4) == (V4(1), 1);
  }

  lemma UnalignedIsUnsafe(t: Table, rows: map<UID, Alloc>)
    requires rows == map["a" := RowFor("a", 2, "n", 1026, 1029), "b" := RowFor("b", 3, "n", 1028, 1031)]
    requires Represents(t, rows)
    ensures !Safe(t, TheGateway(4).ips, 4)
  {
    assert rows["a"] in rows.Values;
    assert rows["a"] == RowFor("a", 2, "n", 1026, 1029) by { assert "a"[0] != "b"[0]; }
    var i, j := PlaceOf(t, rows["a"]);
  }
}
