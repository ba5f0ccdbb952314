/** How many network interfaces a reconcile serves, and that reconciling again what it wrote
    writes the same table. */
module NatFixedPoint {
  import opened Wrappers
  import opened Api
  import opened Allocation
  import opened NatTable
  import opened NatGateway
  import opened NatReconcile
  import opened NatProofs

  // ---- Counting ------------------------------------------------------------------------------

  function Min(a: int, b: int): int {
    if a < b then a else b
  }

  lemma MinIs(a: int, b: int)
    ensures Min(a, b) == if a < b then a else b
  {
  }

  ghost predicate AllGranted(gw: Gateway, nics: seq<Nic>, granted: set<UID>) {
    forall n | n in nics && IsFree(gw, n) :: n.uid in granted
  }

  /** What an outcome says, without its definition. */
  lemma OutcomeFacts(gw: Gateway, existing: map<UID, Alloc>, nics: seq<Nic>, granted: set<UID>, o: Outcome)
    requires Managed(gw, existing, nics, granted, o)
    ensures o.served <= |Waiting(gw, existing, nics)| && o.tried <= |Frees(gw, nics)|
    ensures o.rows.Keys == UIDs(Kept(gw, existing, nics)) + UIDs(Waiting(gw, existing, nics)[..o.served]) +
              UIDs(Frees(gw, nics)[..o.tried]) * granted
    ensures |o.rows| <= o.used <= TotalSlots(gw)
    ensures o.used == |o.rows| ||
              (o.tried > 0 && Frees(gw, nics)[o.tried - 1].uid !in granted && o.used == |o.rows| + 1)
    ensures o.served < |Waiting(gw, existing, nics)| ==> o.tried == 0 && |o.rows| == o.used == TotalSlots(gw)
    ensures o.served == |Waiting(gw, existing, nics)| && o.tried < |Frees(gw, nics)| ==>
              |o.rows| == o.used == TotalSlots(gw)
    ensures o.requests == |Kept(gw, existing, nics)| + |Waiting(gw, existing, nics)| + |Frees(gw, nics)|
    ensures o.released == UIDList(Unwanteds(gw, nics)) + UIDList(Waiting(gw, existing, nics)[o.served..])
  {
    hide Kept, Waiting, Frees, Unwanteds, UIDs, UIDList, TotalSlots, FreshRow, DistinctSlots;
  }

  lemma SameUID(nics: seq<Nic>, n: Nic)
    requires DistinctUIDs(nics) && n in nics
    ensures forall m | m in nics && m.uid == n.uid :: m == n
  {
  }

  /** Being in a group is having one's UID in it. */
  lemma InGroup(all: seq<Nic>, group: seq<Nic>, n: Nic)
    requires DistinctUIDs(all) && n in all && forall m | m in group :: m in all
    ensures n.uid in UIDs(group) <==> n in group
  {
    hide *;
    SameUID(all, n);
    UIDsAreListed(group);
  }

  /** Which of the network interfaces have a row. */
  lemma HasRow(gw: Gateway, existing: map<UID, Alloc>, nics: seq<Nic>, granted: set<UID>, o: Outcome, n: Nic)
    requires DistinctUIDs(nics) && Managed(gw, existing, nics, granted, o) && n in nics
    ensures o.served <= |Waiting(gw, existing, nics)| && o.tried <= |Frees(gw, nics)|
    ensures n.uid in o.rows <==>
              || Keeps(gw, existing, n)
              || n in Waiting(gw, existing, nics)[..o.served]
              || (n in Frees(gw, nics)[..o.tried] && n.uid in granted)
  {
    hide *;
    OutcomeFacts(gw, existing, nics, granted, o);
    Members(gw, existing, nics);
    var kept, waiting, frees := Kept(gw, existing, nics), Waiting(gw, existing, nics)[..o.served],
        Frees(gw, nics)[..o.tried];
    assert n.uid in o.rows <==>
        n.uid in UIDs(kept) || n.uid in UIDs(waiting) || (n.uid in UIDs(frees) && n.uid in granted);
    InGroup(nics, kept, n);
    assert forall m | m in waiting :: m in Waiting(gw, existing, nics);
    InGroup(nics, waiting, n);
    assert forall m | m in frees :: m in Frees(gw, nics);
    InGroup(nics, frees, n);
  }

  lemma PrefixCard(nics: seq<Nic>, i: nat)
    requires i <= |nics| && DistinctUIDs(nics)
    ensures |UIDs(nics[..i])| == i && UIDs(nics[..i]) <= UIDs(nics)
  {
    PrefixUIDs(nics, i);
    UIDsCard(nics[..i]);
  }

  lemma DisjointCard<T>(a: set<T>, b: set<T>, c: set<T>)
    requires a !! b !! c
    ensures |a + b + c| == |a| + |b| + |c|
  {
  }

  lemma GrantedAmongTried(gw: Gateway, nics: seq<Nic>, granted: set<UID>, tried: nat)
    requires DistinctUIDs(nics) && tried <= |Frees(gw, nics)|
    ensures |UIDs(Frees(gw, nics)[..tried]) * granted| <= tried
    ensures AllGranted(gw, nics, granted) ==> |UIDs(Frees(gw, nics)[..tried]) * granted| == tried
  {
    hide UIDs, Frees, IsFree, DistinctUIDs;
    GroupsAreDisjoint(gw, map[], nics);
    var frees := Frees(gw, nics)[..tried];
    PrefixCard(Frees(gw, nics), tried);
    K.SubsetCard(UIDs(frees) * granted, UIDs(frees));
    if AllGranted(gw, nics, granted) {
      Members(gw, map[], nics);
      UIDsAreListed(frees);
      assert forall m | m in frees :: m in Frees(gw, nics);
      assert UIDs(frees) * granted == UIDs(frees);
    }
  }

  /** How many rows there are: the kept, the served and the granted. */
  lemma RowTotal(gw: Gateway, existing: map<UID, Alloc>, nics: seq<Nic>, granted: set<UID>, o: Outcome)
    requires DistinctUIDs(nics) && Managed(gw, existing, nics, granted, o)
    ensures o.tried <= |Frees(gw, nics)|
    ensures |o.rows| == |Kept(gw, existing, nics)| + o.served + |UIDs(Frees(gw, nics)[..o.tried]) * granted|
  {
    hide *;
    var kept, waiting, frees := Kept(gw, existing, nics), Waiting(gw, existing, nics), Frees(gw, nics);
    OutcomeFacts(gw, existing, nics, granted, o);
    GroupsAreDisjoint(gw, existing, nics);
    UIDsCard(kept);
    PrefixCard(waiting, o.served);
    PrefixCard(frees, o.tried);
    DisjointCard(UIDs(kept), UIDs(waiting[..o.served]), UIDs(frees[..o.tried]) * granted);
    assert |o.rows| == |o.rows.Keys|;
  }

  /** The status counts at most one slot more than there are sections, and never more than there
      are slots; when no claim fails, as many sections are written as there are requests or slots,
      whichever is less, and the status counts exactly those. */
  lemma SectionsWritten(gw: Gateway, existing: map<UID, Alloc>, nics: seq<Nic>, granted: set<UID>, o: Outcome, t: Table)
    requires DistinctUIDs(nics) && Managed(gw, existing, nics, granted, o) && Represents(t, o.rows)
    ensures |Flatten(t)| == |o.rows| <= o.requests
    ensures |Flatten(t)| <= o.used <= |Flatten(t)| + 1 && o.used <= TotalSlots(gw)
    ensures AllGranted(gw, nics, granted) ==> |Flatten(t)| == o.used == Min(o.requests, TotalSlots(gw))
  {
    hide *;
    OutcomeFacts(gw, existing, nics, granted, o);
    RowTotal(gw, existing, nics, granted, o);
    GrantedAmongTried(gw, nics, granted, o.tried);
    FlattenCard(t, o.rows);
    if AllGranted(gw, nics, granted) {
      UsedIsRows(gw, existing, nics, granted, o);
      MinIs(o.requests, TotalSlots(gw));
    }
  }

  /** A claimed, matching network interface is released only when every slot of every address is
      in use by some other one. */
  lemma ReleasedOnlyWhenFull(gw: Gateway, existing: map<UID, Alloc>, nics: seq<Nic>, granted: set<UID>, o: Outcome,
                             n: Nic)
    requires DistinctUIDs(nics) && Managed(gw, existing, nics, granted, o)
    requires n in nics && Ours(gw, n) && Selects(gw, n)
    ensures n.uid in o.released <==> n.uid !in o.rows
    ensures n.uid in o.released ==> |o.rows| == o.used == TotalSlots(gw)
  {
    hide *;
    var waiting, frees := Waiting(gw, existing, nics), Frees(gw, nics);
    assert o.served <= |waiting| && o.released == UIDList(Unwanteds(gw, nics)) + UIDList(waiting[o.served..])
           && (o.served < |waiting| ==> |o.rows| == o.used == TotalSlots(gw))
             by { OutcomeFacts(gw, existing, nics, granted, o); }
    var served, left := waiting[..o.served], waiting[o.served..];
    assert n.uid in UIDList(Unwanteds(gw, nics)) <==> n in Unwanteds(gw, nics)
      by { ListedInGroup(gw, existing, nics, Unwanteds(gw, nics), n); }
    assert n.uid in UIDList(left) <==> n in left by { ListedInGroup(gw, existing, nics, left, n); }
    assert n.uid in o.rows <==> Keeps(gw, existing, n) || n in served
      by { RowOfOurs(gw, existing, nics, granted, o, n); }
    assert n !in Unwanteds(gw, nics) && (n in waiting <==> !Keeps(gw, existing, n)) by {
      Members(gw, existing, nics);
      OursIs(gw, existing, n);
    }
    assert n in waiting <==> n in served || n in left by { assert waiting == served + left; }
    assert !(n in served && n in left) by {
      GroupsAreDisjoint(gw, existing, nics);
      DistinctParts(waiting, o.served);
    }
  }

  /** Released are exactly the interfaces claimed by the gateway that have no address of its family left,
      or a public one, or get no row. */
  lemma ReleasedAre(gw: Gateway, existing: map<UID, Alloc>, nics: seq<Nic>, granted: set<UID>, o: Outcome, n: Nic)
    requires DistinctUIDs(nics) && Managed(gw, existing, nics, granted, o) && n in nics
    ensures n.uid in o.released <==>
              && Claimer(n.nats, gw.family).Some? && Claimer(n.nats, gw.family).value.uid == gw.uid
              && (gw.family in n.publicFamilies || (forall a | a in n.ips :: a.Family() != gw.family)
                  || n.uid !in o.rows)
  {
    hide *;
    assert Ours(gw, n) <==>
        Claimer(n.nats, gw.family).Some? && Claimer(n.nats, gw.family).value.uid == gw.uid by { OursMeans(gw, n); }
    SelectsByMember(gw, n);
    if Ours(gw, n) && Selects(gw, n) {
      ReleasedOnlyWhenFull(gw, existing, nics, granted, o, n);
    } else {
      var waiting := Waiting(gw, existing, nics);
      OutcomeFacts(gw, existing, nics, granted, o);
      ListedInGroup(gw, existing, nics, Unwanteds(gw, nics), n);
      ListedInGroup(gw, existing, nics, waiting[o.served..], n);
      Members(gw, existing, nics);
      assert n in waiting[o.served..] ==> n in waiting;
      GroupOf(gw, existing, n);
    }
  }

  lemma OursMeans(gw: Gateway, n: Nic)
    ensures Ours(gw, n) <==> Claimer(n.nats, gw.family).Some? && Claimer(n.nats, gw.family).value.uid == gw.uid
  {
  }

  lemma GroupOf(gw: Gateway, existing: map<UID, Alloc>, n: Nic)
    ensures Unwanted(gw, n) <==> Ours(gw, n) && !Selects(gw, n)
    ensures Waits(gw, existing, n) ==> Ours(gw, n) && Selects(gw, n)
  {
  }

  lemma ListedInGroup(gw: Gateway, existing: map<UID, Alloc>, nics: seq<Nic>, group: seq<Nic>, n: Nic)
    requires DistinctUIDs(nics) && n in nics
    requires group == Unwanteds(gw, nics) ||
              exists i :: 0 <= i <= |Waiting(gw, existing, nics)| && group == Waiting(gw, existing, nics)[i..]
    ensures n.uid in UIDList(group) <==> n in group
  {
    hide *;
    Members(gw, existing, nics);
    InList(nics, group, n);
  }

  lemma RowOfOurs(gw: Gateway, existing: map<UID, Alloc>, nics: seq<Nic>, granted: set<UID>, o: Outcome, n: Nic)
    requires DistinctUIDs(nics) && Managed(gw, existing, nics, granted, o) && n in nics && Ours(gw, n) && Selects(gw, n)
    ensures o.served <= |Waiting(gw, existing, nics)|
    ensures n.uid in o.rows <==> Keeps(gw, existing, n) || n in Waiting(gw, existing, nics)[..o.served]
  {
    hide *;
    HasRow(gw, existing, nics, granted, o, n);
    Members(gw, existing, nics);
    OursIs(gw, existing, n);
    assert forall m | m in Frees(gw, nics)[..o.tried] :: m in Frees(gw, nics);
  }

  lemma OursIs(gw: Gateway, existing: map<UID, Alloc>, n: Nic)
    requires Ours(gw, n) && Selects(gw, n)
    ensures !Unwanted(gw, n) && !IsFree(gw, n) && (Waits(gw, existing, n) <==> !Keeps(gw, existing, n))
  {
    hide Selects, Claimer;
  }

  lemma InList(all: seq<Nic>, group: seq<Nic>, n: Nic)
    requires DistinctUIDs(all) && n in all && forall m | m in group :: m in all
    ensures n.uid in UIDList(group) <==> n in group
  {
    hide *;
    SameUID(all, n);
    UIDListIs(group);
  }

  lemma UIDListIs(nics: seq<Nic>)
    ensures forall u :: u in UIDList(nics) <==> exists m :: m in nics && m.uid == u
  {
    forall u ensures u in UIDList(nics) <==> exists m :: m in nics && m.uid == u {
      if m :| m in nics && m.uid == u {
        var i :| 0 <= i < |nics| && nics[i] == m;
        assert UIDList(nics)[i] == u;
      }
      if u in UIDList(nics) {
        var i :| 0 <= i < |nics| && UIDList(nics)[i] == u;
        assert nics[i] in nics;
      }
    }
  }

  lemma DistinctParts(nics: seq<Nic>, i: nat)
    requires DistinctUIDs(nics) && i <= |nics|
    ensures forall m, n | m in nics[..i] && n in nics[i..] :: m.uid != n.uid
  {
    forall m, n | m in nics[..i] && n in nics[i..] ensures m.uid != n.uid {
      var j :| 0 <= j < i && nics[j] == m;
      var k :| 0 <= k < |nics| - i && nics[i..][k] == n;
      assert nics[i + k].uid != nics[j].uid;
    }
  }

  // ---- Reading back what was written -----------------------------------------------------------

  ghost predicate NoRepeats<T>(s: seq<T>) {
    forall i, j | 0 <= i < j < |s| :: s[i] != s[j]
  }

  lemma {:induction false} FlattenOnce(t: Table)
    requires Canonical(t)
    ensures NoRepeats(Flatten(t))
  {
    if t != [] {
      var init, last := t[..|t| - 1], t[|t| - 1];
      FlattenOnce(init);
      FlattenLists(init);
      forall a | a in Flatten(init) ensures a !in SectionRows(last) {
        var i, j := PlaceOf(init, a);
        LessIsTotalOrder(init[i].ip, last.ip, last.ip);
      }
      assert NoRepeats(SectionRows(last));
      JoinOnce(Flatten(init), SectionRows(last));
    }
  }

  lemma JoinOnce<T>(a: seq<T>, b: seq<T>)
    requires NoRepeats(a) && NoRepeats(b) && forall x | x in a :: x !in b
    ensures NoRepeats(a + b)
  {
    forall i, j | 0 <= i < j < |a + b| ensures (a + b)[i] != (a + b)[j] {
      if i < |a| <= j {
        assert a[i] in a && b[j - |a|] in b;
      }
    }
  }

  lemma {:induction false} OnceCard<T>(s: seq<T>)
    requires NoRepeats(s)
    ensures |set x | x in s| == |s|
  {
    if s != [] {
      var init, last := s[..|s| - 1], s[|s| - 1];
      OnceCard(init);
      assert s == init + [last];
      assert (set x | x in s) == (set x | x in init) + {last};
    }
  }

  lemma ValuesCard(rows: map<UID, Alloc>)
    requires forall u | u in rows :: rows[u].For(u)
    ensures |rows.Values| == |rows|
    decreases |rows|
  {
    if rows != map[] {
      var u :| u in rows;
      var rest := rows - {u};
      assert rest[u := rows[u]] == rows;
      assert forall v | v in rest :: rest[v] == rows[v];
      ValuesCard(rest);
      assert rows[u] !in rest.Values;
      assert |rows| == |rest| + 1;
      forall a ensures a in rows.Values <==> a in rest.Values + {rows[u]} {
        if a in rest.Values {
          var v :| v in rest && rest[v] == a;
          assert rows[v] == a;
        }
      }
      assert rows.Values == rest.Values + {rows[u]};
    } else {
      assert rows.Values == {};
    }
  }

  lemma FlattenCard(t: Table, rows: map<UID, Alloc>)
    requires Represents(t, rows)
    ensures |Flatten(t)| == |rows|
  {
    FlattenOnce(t);
    OnceCard(Flatten(t));
    FlattenLists(t);
    ValuesCard(rows);
    assert (set a | a in Flatten(t)) == rows.Values;
  }

  lemma GoodRowSlot(rows: map<UID, Alloc>, gw: Gateway, u: UID)
    requires GoodRows(rows, gw) && gw.width >= 2 && u in rows
    ensures Accepts(gw.ips, gw.width, rows[u])
    ensures (rows[u].ip, SlotOf(gw.width, rows[u]).value) == SlotKey(rows[u], gw.width)
  {
    PortsRoundTrip(gw.width, rows[u].section.port, rows[u].section.endPort);
    SlotReads(gw.width, rows[u]);
  }

  lemma GoodRowsSlotsDiffer(rows: map<UID, Alloc>, gw: Gateway, u: UID, v: UID)
    requires GoodRows(rows, gw) && gw.width >= 2 && u in rows && v in rows && u != v
    ensures Apart(rows[u], rows[v], gw.width)
  {
    GoodRowSlot(rows, gw, u);
    GoodRowSlot(rows, gw, v);
    assert SlotKey(rows[u], gw.width) != SlotKey(rows[v], gw.width);
  }

  /** A table of good rows, of at least two ports each, is read back exactly. */
  lemma ReadBackIsExact(t: Table, rows: map<UID, Alloc>, gw: Gateway)
    requires Represents(t, rows) && GoodRows(rows, gw) && gw.width >= 2
    ensures Existing(Some(t), gw) == rows
  {
    hide GoodRows, Scan, Apart, Accepts, SlotOf, Canonical, Reusable;
    FlattenOnce(t);
    FlattenLists(t);
    var f := Flatten(t);
    forall a | a in f ensures Accepts(gw.ips, gw.width, a) {
      var u :| u in rows && rows[u] == a;
      GoodRowSlot(rows, gw, u);
    }
    forall i, j | 0 <= i < j < |f| ensures Apart(f[i], f[j], gw.width) {
      assert f[i] in f && f[j] in f && f[i] != f[j];
      var u :| u in rows && rows[u] == f[i];
      var v :| v in rows && rows[v] == f[j];
      GoodRowsSlotsDiffer(rows, gw, u, v);
    }
    ScanIsComplete(f, gw);
    ScanIsReusable(f, gw);
    var back := Existing(Some(t), gw);
    forall u | u in rows ensures u in back && back[u] == rows[u] {
      assert rows[u] in rows.Values;
    }
    forall u | u in back ensures u in rows {
      assert back[u] in f && back[u].For(u);
      var v :| v in rows && rows[v] == back[u];
    }
  }

  lemma {:induction false} ScanNothing(rows: seq<Alloc>, gw: Gateway)
    requires forall a | a in rows :: !Accepts(gw.ips, gw.width, a)
    ensures Scan(rows, gw.ips, gw.width) == Scanned({}, map[])
  {
    if rows != [] {
      ScanNothing(rows[..|rows| - 1], gw);
    }
  }

  /** With one port per network interface nothing is ever read back, whatever the table. */
  lemma OnePortForgets(prev: Option<Table>, gw: Gateway)
    requires gw.width == 1
    ensures Existing(prev, gw) == map[]
  {
    if prev.Some? {
      forall a | a in Flatten(prev.value) ensures !Accepts(gw.ips, gw.width, a) {
        PortsRoundTrip(gw.width, a.section.port, a.section.endPort);
      }
      ScanNothing(Flatten(prev.value), gw);
    }
  }

  // ---- Rows and what became of their interfaces --------------------------------------------------

  /** The row describes the interface as it is. */
  predicate Describes(gw: Gateway, a: Alloc, n: Nic) {
    a.section.ip == NicIP(n.ips, gw.family) && a.section.target == Some(TargetRef(n.uid, n.name, n.nodeRef))
  }

  /** Kept rows are copied, not renewed: a row describes its interface exactly when it is a new one
      or described it already. After a change of address or node it never does again. */
  lemma RowIsCurrent(gw: Gateway, existing: map<UID, Alloc>, nics: seq<Nic>, granted: set<UID>, o: Outcome, n: Nic)
    requires DistinctUIDs(nics) && Managed(gw, existing, nics, granted, o) && n in nics && n.uid in o.rows
    ensures Describes(gw, o.rows[n.uid], n) <==> (Keeps(gw, existing, n) ==> Describes(gw, existing[n.uid], n))
    ensures Keeps(gw, existing, n) ==> o.rows[n.uid] == existing[n.uid]
  {
    hide Kept, Waiting, Frees, Unwanteds, UIDs, UIDList, TotalSlots, DistinctSlots, DistinctUIDs, Keeps, NicIP;
    HasRow(gw, existing, nics, granted, o, n);
    Members(gw, existing, nics);
    if Keeps(gw, existing, n) {
      KeptHaveExisting(gw, existing, n);
    }
  }

  lemma KeptHaveExisting(gw: Gateway, existing: map<UID, Alloc>, n: Nic)
    requires Keeps(gw, existing, n)
    ensures n.uid in existing
  {
  }

  // ---- The fixed point --------------------------------------------------------------------------

  /** The network interfaces as a second reconcile finds them when nothing but the first one's
      claims and releases changed them, listed in any order: those with a row are claimed; of the
      others, a claim of this gateway may or may not have been given up. */
  ghost predicate Settled(gw: Gateway, before: seq<Nic>, rows: map<UID, Alloc>, after: seq<Nic>) {
    && (forall u | u in rows :: exists n :: n in after && n.uid == u)
    && (forall n | n in after :: exists m :: m in before && SettledNic(gw, m, rows, n))
  }

  ghost predicate SettledNic(gw: Gateway, m: Nic, rows: map<UID, Alloc>, n: Nic) {
    && n == m.(nats := n.nats)
    && (n.uid in rows ==> Ours(gw, n))
    && (n.uid !in rows ==>
        Claimer(n.nats, gw.family) == Claimer(m.nats, gw.family) ||
        (Ours(gw, m) && Claimer(n.nats, gw.family).None?))
  }

  /** Those with a row wanted one. */
  lemma RowsAreRequested(gw: Gateway, existing: map<UID, Alloc>, nics: seq<Nic>, granted: set<UID>, o: Outcome, n: Nic)
    requires DistinctUIDs(nics) && Managed(gw, existing, nics, granted, o) && n in nics && n.uid in o.rows
    ensures Requests(gw, n) && Selects(gw, n)
  {
    hide Managed, Kept, Waiting, Frees, Unwanteds, DistinctUIDs, Selects, Claimer;
    HasRow(gw, existing, nics, granted, o, n);
    Members(gw, existing, nics);
    assert forall m | m in Waiting(gw, existing, nics)[..o.served] :: m in Waiting(gw, existing, nics);
    assert forall m | m in Frees(gw, nics)[..o.tried] :: m in Frees(gw, nics);
  }

  /** Those that wanted a row and did not get one, every claim having succeeded, found the table
      full. */
  lemma UnservedMeansFull(gw: Gateway, existing: map<UID, Alloc>, nics: seq<Nic>, granted: set<UID>, o: Outcome, n: Nic)
    requires DistinctUIDs(nics) && Managed(gw, existing, nics, granted, o) && AllGranted(gw, nics, granted)
    requires n in nics && Requests(gw, n) && n.uid !in o.rows
    ensures |o.rows| == TotalSlots(gw)
  {
    hide Managed, Kept, Waiting, Frees, Unwanteds, UIDs, UIDList, DistinctUIDs, Selects, Claimer, TotalSlots;
    OutcomeFacts(gw, existing, nics, granted, o);
    UsedIsRows(gw, existing, nics, granted, o);
    HasRow(gw, existing, nics, granted, o, n);
    Members(gw, existing, nics);
    var waiting, frees := Waiting(gw, existing, nics), Frees(gw, nics);
    assert o.served == |waiting| ==> waiting[..o.served] == waiting;
    assert o.tried == |frees| ==> frees[..o.tried] == frees;
  }

  lemma RowHasNic(gw: Gateway, existing: map<UID, Alloc>, nics: seq<Nic>, granted: set<UID>, o: Outcome, u: UID)
    returns (n: Nic)
    requires Managed(gw, existing, nics, granted, o) && u in o.rows
    ensures n in nics && n.uid == u
  {
    hide Managed, Kept, Waiting, Frees, Unwanteds, UIDs, UIDList, TotalSlots, Keeps, Waits, IsFree, Unwanted;
    var kept, waiting, frees := Kept(gw, existing, nics), Waiting(gw, existing, nics), Frees(gw, nics);
    OutcomeFacts(gw, existing, nics, granted, o);
    Members(gw, existing, nics);
    UIDsAreListed(kept);
    UIDsAreListed(waiting[..o.served]);
    UIDsAreListed(frees[..o.tried]);
    n :| n in kept + waiting + frees && n.uid == u;
  }

  /** A network interface that a second reconcile finds wanting, and that has no row, wanted one
      before: the table is full. */
  lemma WantingMeansFull(gw: Gateway, existing: map<UID, Alloc>, nics: seq<Nic>, granted: set<UID>, o: Outcome,
                         nics': seq<Nic>, n: Nic)
    requires DistinctUIDs(nics) && Managed(gw, existing, nics, granted, o) && AllGranted(gw, nics, granted)
    requires Settled(gw, nics, o.rows, nics')
    requires n in nics' && Requests(gw, n) && n.uid !in o.rows
    ensures |o.rows| == TotalSlots(gw)
  {
    hide Managed, AllGranted, TotalSlots, Claimer;
    var m :| m in nics && SettledNic(gw, m, o.rows, n);
    UnservedMeansFull(gw, existing, nics, granted, o, m);
  }

  /** Every row of the first reconcile is kept by the second. */
  lemma RowsSurvive(gw: Gateway, existing: map<UID, Alloc>, nics: seq<Nic>, granted: set<UID>, o: Outcome,
                    nics': seq<Nic>, granted': set<UID>, o': Outcome)
    requires DistinctUIDs(nics) && Managed(gw, existing, nics, granted, o)
    requires Settled(gw, nics, o.rows, nics')
    requires Managed(gw, o.rows, nics', granted', o')
    ensures forall u | u in o.rows :: u in o'.rows && o'.rows[u] == o.rows[u]
  {
    hide FreshRow, DistinctSlots, TotalSlots, Claimer, UIDs, Waiting, Frees, Unwanteds;
    FilteredKeeps(nics', n => Keeps(gw, o.rows, n));
    forall u | u in o.rows ensures u in o'.rows && o'.rows[u] == o.rows[u] {
      var n :| n in nics' && n.uid == u;
      var m :| m in nics && SettledNic(gw, m, o.rows, n);
      RowsAreRequested(gw, existing, nics, granted, o, m);
      assert n in Kept(gw, o.rows, nics');
    }
  }

  lemma MoreRows(rows: map<UID, Alloc>, rows': map<UID, Alloc>, u: UID)
    requires u in rows' && u !in rows && forall v | v in rows :: v in rows'
    ensures |rows| < |rows'|
  {
    K.SubsetCard(rows.Keys + {u}, rows'.Keys);
    assert |rows| == |rows.Keys| && |rows'| == |rows'.Keys|;
  }

  /** With every claim granted no slot is left pending. */
  lemma UsedIsRows(gw: Gateway, existing: map<UID, Alloc>, nics: seq<Nic>, granted: set<UID>, o: Outcome)
    requires Managed(gw, existing, nics, granted, o) && AllGranted(gw, nics, granted)
    ensures o.used == |o.rows|
  {
    hide RowsAre, TotalSlots, Kept, Waiting, Unwanteds;
    FilteredKeeps(nics, m => IsFree(gw, m));
    assert o.tried > 0 ==> Frees(gw, nics)[o.tried - 1] in Frees(gw, nics);
  }

  /** The second reconcile counts the same slots. */
  lemma UsedAgain(gw: Gateway, existing: map<UID, Alloc>, nics: seq<Nic>, granted: set<UID>, o: Outcome,
                  nics': seq<Nic>, granted': set<UID>, o': Outcome)
    requires DistinctUIDs(nics) && Managed(gw, existing, nics, granted, o) && AllGranted(gw, nics, granted)
    requires DistinctUIDs(nics') && Settled(gw, nics, o.rows, nics')
    requires Managed(gw, o.rows, nics', granted', o') && o'.rows == o.rows
    ensures o'.used == |o.rows|
  {
    hide RowsAre, TotalSlots, Kept, Waiting, Unwanteds, AllGranted, Claimer, Selects;
    FilteredKeeps(nics', m => IsFree(gw, m));
    if o'.used != |o.rows| {
      var n := Frees(gw, nics')[o'.tried - 1];
      assert n in Frees(gw, nics');
      var m :| m in nics && SettledNic(gw, m, o.rows, n);
      WantingMeansFull(gw, existing, nics, granted, o, nics', n);
    }
  }

  /** With at least two ports per network interface, every claim granted and nothing else changed,
      a second reconcile keeps every row: each network interface has exactly the address and ports
      it had, and the table written is the one that was read. */
  lemma ReconcileIsFixedPoint(prev: Option<Table>, gw: Gateway, nics: seq<Nic>, granted: set<UID>, t: Table, o: Outcome,
                              nics': seq<Nic>, granted': set<UID>, t': Table, o': Outcome)
    requires gw.width >= 2 && AlignedForSome(prev)
    requires DistinctUIDs(nics) && DistinctUIDs(nics') && AllGranted(gw, nics, granted)
    requires Managed(gw, Existing(prev, gw), nics, granted, o) && Represents(t, o.rows)
    requires Settled(gw, nics, o.rows, nics')
    requires Managed(gw, Existing(Some(t), gw), nics', granted', o') && Represents(t', o'.rows)
    ensures o'.rows == o.rows && t' == t && o'.used == o.used
  {
    hide Managed, Represents, Existing, GoodRows, TotalSlots, Settled, AllGranted, DistinctUIDs, AlignedForSome;
    var existing := Existing(prev, gw);
    ExistingIsReusable(prev, gw);
    ReadBackIsAligned(prev, gw);
    OutcomeIsGood(gw, existing, nics, granted, o);
    ReadBackIsExact(t, o.rows, gw);
    RowsSurvive(gw, existing, nics, granted, o, nics', granted', o');
    forall u | u in o'.rows ensures u in o.rows {
      if u !in o.rows {
        var n := RowHasNic(gw, o.rows, nics', granted', o', u);
        RowsAreRequested(gw, o.rows, nics', granted', o', n);
        WantingMeansFull(gw, existing, nics, granted, o, nics', n);
        MoreRows(o.rows, o'.rows, u);
        UsedBounds(gw, o.rows, nics', granted', o');
      }
    }
    assert o'.rows == o.rows;
    UsedIsRows(gw, existing, nics, granted, o);
    UsedAgain(gw, existing, nics, granted, o, nics', granted', o');
    SameRowsSameTable(t, t', o.rows);
  }

  lemma UsedBounds(gw: Gateway, existing: map<UID, Alloc>, nics: seq<Nic>, granted: set<UID>, o: Outcome)
    requires Managed(gw, existing, nics, granted, o)
    ensures |o.rows| <= o.used <= TotalSlots(gw)
  {
  }

  lemma SameRowsSameTable(t: Table, t': Table, rows: map<UID, Alloc>)
    requires Represents(t, rows) && Represents(t', rows)
    ensures t' == t
  {
    TableIsDetermined(t, t');
  }
}
