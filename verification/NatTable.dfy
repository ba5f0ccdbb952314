/** NAT tables: their rows, their canonical order, and what makes one safe
    (api/core/v1alpha1/nattable_types.go, applyNATTable in natgateway_controller.go). */
module NatTable {
  import opened Wrappers
  import opened Api
  import opened Allocation
  import opened Sequences

  datatype TargetRef = TargetRef(uid: UID, name: string, nodeRef: string)

  datatype Section = Section(ip: IP, port: int, endPort: int, target: Option<TargetRef>)

  datatype NatIP = NatIP(ip: IP, sections: seq<Section>)

  type Table = seq<NatIP>

  /** A section together with the NAT IP it is listed under (natIPAllocation). */
  datatype Alloc = Alloc(ip: IP, section: Section) {
    predicate For(uid: UID) {
      section.target.Some? && section.target.value.uid == uid
    }
  }

  ghost predicate Position(t: Table, i: int, j: int) {
    0 <= i < |t| && 0 <= j < |t[i].sections|
  }

  ghost function Row(t: Table, i: int, j: int): Alloc
    requires Position(t, i, j)
  {
    Alloc(t[i].ip, t[i].sections[j])
  }

  ghost function RowSet(t: Table): set<Alloc> {
    set i, j | 0 <= i < |t| && 0 <= j < |t[i].sections| :: Row(t, i, j)
  }

  lemma Listed(t: Table, i: int, j: int)
    requires Position(t, i, j)
    ensures Row(t, i, j) in RowSet(t)
  {
  }

  lemma PlaceOf(t: Table, a: Alloc) returns (i: int, j: int)
    requires a in RowSet(t)
    ensures Position(t, i, j) && Row(t, i, j) == a
  {
    i, j :| 0 <= i < |t| && 0 <= j < |t[i].sections| && Row(t, i, j) == a;
  }

  predicate PortsAscend(s: seq<Section>) {
    forall j, l | 0 <= j < l < |s| :: s[j].port < s[l].port
  }

  /** The order tables are written in: addresses ascend, ports ascend within an address, and an
      address without sections is not listed. */
  ghost predicate Canonical(t: Table) {
    && (forall i, k | 0 <= i < k < |t| :: t[i].ip.Less(t[k].ip))
    && (forall i | 0 <= i < |t| :: t[i].sections != [] && PortsAscend(t[i].sections))
  }

  /** A table that lists exactly the given rows, one a network interface. */
  ghost predicate Represents(t: Table, rows: map<UID, Alloc>) {
    && Canonical(t)
    && RowSet(t) == rows.Values
    && forall u | u in rows :: rows[u].For(u)
  }

  /** What the table promises the nodes: every range is one slot of the current width inside the
      ephemeral ports of a current address, no two ranges of an address overlap, and no network
      interface is listed twice. */
  ghost predicate Safe(t: Table, ips: seq<IP>, width: Width) {
    && (forall i, j | Position(t, i, j) ::
          && t[i].ip in ips
          && t[i].sections[j].target.Some?
          && Aligned(width, t[i].sections[j].port, t[i].sections[j].endPort))
    && (forall i, j, k, l | Position(t, i, j) && Position(t, k, l) && (i, j) != (k, l) ::
          && t[i].sections[j].target != t[k].sections[l].target
          && (t[i].sections[j].target.Some? && t[k].sections[l].target.Some? ==>
                t[i].sections[j].target.value.uid != t[k].sections[l].target.value.uid)
          && (t[i].ip == t[k].ip ==>
                !Overlap(t[i].sections[j].port, t[i].sections[j].endPort, t[k].sections[l].port,
                         t[k].sections[l].endPort)))
  }

  /** What a table for the rows is: addresses ascending and none without sections, ports ascending, each
      section the row of an interface and each row a section. */
  lemma RepresentsMeans(t: Table, rows: map<UID, Alloc>)
    requires Represents(t, rows)
    ensures forall i, k | 0 <= i < k < |t| :: t[i].ip.Less(t[k].ip)
    ensures forall i | 0 <= i < |t| :: t[i].sections != []
    ensures forall i, j, l | 0 <= i < |t| && 0 <= j < l < |t[i].sections| ::
              t[i].sections[j].port < t[i].sections[l].port
    ensures forall i, j | 0 <= i < |t| && 0 <= j < |t[i].sections| ::
              Alloc(t[i].ip, t[i].sections[j]) in rows.Values
    ensures forall u | u in rows ::
              && rows[u].section.target.Some? && rows[u].section.target.value.uid == u
              && exists i, j :: 0 <= i < |t| && 0 <= j < |t[i].sections| && rows[u] == Alloc(t[i].ip, t[i].sections[j])
  {
    forall i, j | 0 <= i < |t| && 0 <= j < |t[i].sections| ensures Alloc(t[i].ip, t[i].sections[j]) in rows.Values {
      assert Row(t, i, j) in RowSet(t);
    }
    forall u | u in rows
      ensures exists i, j :: 0 <= i < |t| && 0 <= j < |t[i].sections| && rows[u] == Alloc(t[i].ip, t[i].sections[j])
    {
      assert rows[u] in RowSet(t);
    }
  }

  /** What is safe, section by section: a current address, a slot of the ports from 1024 to 65535, and
      with any other section different interfaces and, on one address, ports. */
  lemma SafeMeans(t: Table, ips: seq<IP>, width: Width, i: int, j: int)
    requires Safe(t, ips, width) && Position(t, i, j)
    ensures var s := t[i].sections[j];
            && t[i].ip in ips && s.target.Some?
            && 1024 <= s.port && s.endPort == s.port + width - 1 <= 65535 && (s.port - 1024) % width == 0
            && forall k, l | 0 <= k < |t| && 0 <= l < |t[k].sections| && (k, l) != (i, j) ::
                 var r := t[k].sections[l];
                 && r.target.Some? && r.target.value.uid != s.target.value.uid
                 && (t[k].ip == t[i].ip ==> s.endPort < r.port || r.endPort < s.port)
  {
    forall k, l | 0 <= k < |t| && 0 <= l < |t[k].sections| && (k, l) != (i, j)
      ensures t[k].sections[l].target.Some? && t[k].sections[l].target.value.uid != t[i].sections[j].target.value.uid
      ensures t[k].ip == t[i].ip ==>
                t[i].sections[j].endPort < t[k].sections[l].port || t[k].sections[l].endPort < t[i].sections[j].port
    {
      assert Position(t, k, l);
    }
  }

  /** Sequences in strictly ascending order with the same elements are equal. */
  lemma {:induction false} AscendingIsUnique<T(!new)>(a: seq<T>, b: seq<T>, less: (T, T) -> bool)
    requires forall i, j | 0 <= i < j < |a| :: less(a[i], a[j])
    requires forall i, j | 0 <= i < j < |b| :: less(b[i], b[j])
    requires forall x, y :: !(less(x, y) && less(y, x))
    requires forall x :: x in a <==> x in b
    ensures a == b
  {
    assert b == [] || b[0] in b;
    if a != [] {
      assert a[0] in b && b[0] in a;
      assert a[0] == b[0];
      forall x ensures x in a[1..] <==> x in b[1..] {
        assert x in a <==> x == a[0] || x in a[1..];
        assert x in b <==> x == b[0] || x in b[1..];
        assert !less(a[0], a[0]);
      }
      AscendingIsUnique(a[1..], b[1..], less);
    }
  }

  function Addresses(t: Table): seq<IP> {
    seq(|t|, i requires 0 <= i < |t| => t[i].ip)
  }

  lemma SameAddresses(s: Table, t: Table)
    requires Canonical(s) && Canonical(t) && RowSet(s) <= RowSet(t)
    ensures forall x | x in Addresses(s) :: x in Addresses(t)
  {
    forall x | x in Addresses(s) ensures x in Addresses(t) {
      var i :| 0 <= i < |s| && Addresses(s)[i] == x;
      Listed(s, i, 0);
      var k, l := PlaceOf(t, Row(s, i, 0));
      assert Addresses(t)[k] == x;
    }
  }

  lemma SameSections(s: Table, t: Table, i: nat)
    requires Canonical(s) && Canonical(t) && RowSet(s) <= RowSet(t)
    requires i < |s| && i < |t| && s[i].ip == t[i].ip
    ensures forall x | x in s[i].sections :: x in t[i].sections
  {
    forall x | x in s[i].sections ensures x in t[i].sections {
      var j :| 0 <= j < |s[i].sections| && s[i].sections[j] == x;
      Listed(s, i, j);
      var k, l := PlaceOf(t, Row(s, i, j));
      LessIsTotalOrder(t[k].ip, t[i].ip, t[i].ip);
    }
  }

  lemma SameAddressList(s: Table, t: Table)
    requires Canonical(s) && Canonical(t) && RowSet(s) == RowSet(t)
    ensures Addresses(s) == Addresses(t)
  {
    SameAddresses(s, t);
    SameAddresses(t, s);
    var less := (x: IP, y: IP) => x.Less(y);
    forall x, y ensures !(less(x, y) && less(y, x)) {
      LessIsTotalOrder(x, y, x);
    }
    AscendingIsUnique(Addresses(s), Addresses(t), less);
  }

  /** A table is determined by its rows: the order in which the maps were iterated leaves no
      trace in what is written. */
  lemma TableIsDetermined(s: Table, t: Table)
    requires Canonical(s) && Canonical(t) && RowSet(s) == RowSet(t)
    ensures s == t
  {
    SameAddressList(s, t);
    assert |s| == |Addresses(s)| == |Addresses(t)| == |t|;
    forall i | 0 <= i < |s| ensures s[i] == t[i] {
      assert Addresses(s)[i] == Addresses(t)[i];
      SameSections(s, t, i);
      SameSections(t, s, i);
      AscendingIsUnique(s[i].sections, t[i].sections, (x: Section, y: Section) => x.port < y.port);
    }
  }

  /** Different places of a table hold rows of different network interfaces. */
  lemma PlacesDiffer(t: Table, rows: map<UID, Alloc>, i: int, j: int, k: int, l: int) returns (u: UID, v: UID)
    requires Represents(t, rows)
    requires Position(t, i, j) && Position(t, k, l) && (i, j) != (k, l)
    ensures u in rows && v in rows && u != v && rows[u] == Row(t, i, j) && rows[v] == Row(t, k, l)
  {
    Listed(t, i, j);
    Listed(t, k, l);
    u :| u in rows && rows[u] == Row(t, i, j);
    v :| v in rows && rows[v] == Row(t, k, l);
    LessIsTotalOrder(t[i].ip, t[k].ip, t[k].ip);
  }

  // ---- Writing a table ------------------------------------------------------------------

  /** The nested map a table is built from: per address, per network interface. */
  type Nested = map<IP, map<UID, Section>>

  ghost predicate Lists(byIP: Nested, rows: map<UID, Alloc>) {
    && (forall ip | ip in byIP :: byIP[ip] != map[])
    && (forall ip, u | ip in byIP && u in byIP[ip] :: u in rows && rows[u] == Alloc(ip, byIP[ip][u]))
    && (forall u | u in rows :: rows[u].ip in byIP && u in byIP[rows[u].ip])
  }

  /** addAlloc. */
  function AddAlloc(byIP: Nested, ip: IP, uid: UID, section: Section): Nested {
    byIP[ip := (if ip in byIP then byIP[ip] else map[])[uid := section]]
  }

  lemma AddAllocLists(byIP: Nested, rows: map<UID, Alloc>, ip: IP, uid: UID, section: Section)
    requires Lists(byIP, rows) && uid !in rows
    ensures Lists(AddAlloc(byIP, ip, uid, section), rows[uid := Alloc(ip, section)])
  {
    var byIP', rows' := AddAlloc(byIP, ip, uid, section), rows[uid := Alloc(ip, section)];
    assert uid in byIP'[ip];
    forall u | u in rows' ensures rows'[u].ip in byIP' && u in byIP'[rows'[u].ip] {
      if u != uid {
        assert rows'[u] == rows[u];
      }
    }
    forall i, u | i in byIP' && u in byIP'[i] ensures u in rows' && rows'[u] == Alloc(i, byIP'[i][u]) {
      if i == ip && u == uid {
      } else {
        assert i in byIP && u in byIP[i];
      }
    }
  }

  ghost predicate PortsDiffer(rows: map<UID, Alloc>) {
    forall u, v | u in rows && v in rows && u != v && rows[u].ip == rows[v].ip ::
        rows[u].section.port != rows[v].section.port
  }

  /** Puts a section in its place by port. */
  method InsertSection(s: seq<Section>, x: Section) returns (r: seq<Section>)
    requires PortsAscend(s) && forall y | y in s :: y.port != x.port
    ensures PortsAscend(r) && forall y :: y in r <==> y in s || y == x
  {
    var n := 0;
    while n < |s| && s[n].port < x.port
      invariant 0 <= n <= |s| && forall j | 0 <= j < n :: s[j].port < x.port
    {
      n := n + 1;
    }
    forall j | n <= j < |s| ensures x.port < s[j].port {
      assert s[n] in s;
    }
    InsertedInPlace(s, n, x, (a: Section, b: Section) => a.port < b.port);
    r := s[..n] + [x] + s[n..];
  }

  method SortSections(m: map<UID, Section>) returns (s: seq<Section>)
    requires forall u, v | u in m && v in m && u != v :: m[u].port != m[v].port
    ensures PortsAscend(s) && forall x :: x in s <==> x in m.Values
  {
    s := [];
    var rest := m.Keys;
    while rest != {}
      invariant rest <= m.Keys
      invariant PortsAscend(s)
      invariant forall x :: x in s <==> exists u :: u in m && u !in rest && m[u] == x
    {
      var u :| u in rest;
      rest := rest - {u};
      s := InsertSection(s, m[u]);
    }
  }

  ghost predicate Ascends(t: Table) {
    forall i, k | 0 <= i < k < |t| :: t[i].ip.Less(t[k].ip)
  }

  method InsertIP(t: Table, x: NatIP) returns (r: Table)
    requires Ascends(t) && forall y | y in t :: y.ip != x.ip
    ensures Ascends(r) && forall y :: y in r <==> y in t || y == x
  {
    var n := 0;
    while n < |t| && t[n].ip.Less(x.ip)
      invariant 0 <= n <= |t| && forall j | 0 <= j < n :: t[j].ip.Less(x.ip)
    {
      n := n + 1;
    }
    forall j | n <= j < |t| ensures x.ip.Less(t[j].ip) {
      assert t[n] in t;
      LessIsTotalOrder(x.ip, t[n].ip, t[j].ip);
    }
    InsertedInPlace(t, n, x, (a: NatIP, b: NatIP) => a.ip.Less(b.ip));
    r := t[..n] + [x] + t[n..];
  }

  /** applyNATTable: the table written for the given rows, whatever the map iteration order. */
  method BuildTable(byIP: Nested, ghost rows: map<UID, Alloc>) returns (t: Table)
    requires Lists(byIP, rows) && PortsDiffer(rows)
    requires forall u | u in rows :: rows[u].For(u)
    ensures Represents(t, rows)
  {
    t := [];
    var rest := byIP.Keys;
    while rest != {}
      invariant rest <= byIP.Keys
      invariant Ascends(t)
      invariant forall y | y in t :: y.ip in byIP && y.ip !in rest
      invariant forall y | y in t :: PortsAscend(y.sections) && forall x :: x in y.sections <==> x in byIP[y.ip].Values
      invariant forall ip | ip in byIP && ip !in rest :: exists y :: y in t && y.ip == ip
    {
      var ip :| ip in rest;
      rest := rest - {ip};
      assert forall u, v | u in byIP[ip] && v in byIP[ip] && u != v :: byIP[ip][u].port != byIP[ip][v].port by {
        forall u, v | u in byIP[ip] && v in byIP[ip] && u != v ensures byIP[ip][u].port != byIP[ip][v].port {
          assert rows[u].section.port != rows[v].section.port;
        }
      }
      var sections := SortSections(byIP[ip]);
      ghost var before := t;
      t := InsertIP(t, NatIP(ip, sections));
      assert NatIP(ip, sections) in t;
      assert forall y | y in before :: y in t;
    }
    Written(t, byIP, rows);
  }

  lemma Written(t: Table, byIP: Nested, rows: map<UID, Alloc>)
    requires Lists(byIP, rows) && Ascends(t)
    requires forall y | y in t :: y.ip in byIP
    requires forall y | y in t :: PortsAscend(y.sections) && forall x :: x in y.sections <==> x in byIP[y.ip].Values
    requires forall ip | ip in byIP :: exists y :: y in t && y.ip == ip
    ensures Canonical(t) && RowSet(t) == rows.Values
  {
    forall i | 0 <= i < |t| ensures t[i].sections != [] && PortsAscend(t[i].sections) {
      assert t[i] in t;
      var u :| u in byIP[t[i].ip];
      assert byIP[t[i].ip][u] in byIP[t[i].ip].Values;
    }
    hide RowSet;
    WrittenAreRows(t, byIP, rows);
    RowsAreWritten(t, byIP, rows);
  }

  lemma WrittenAreRows(t: Table, byIP: Nested, rows: map<UID, Alloc>)
    requires Lists(byIP, rows) && Ascends(t)
    requires forall y | y in t :: y.ip in byIP
    requires forall y | y in t :: PortsAscend(y.sections) && forall x :: x in y.sections <==> x in byIP[y.ip].Values
    requires forall ip | ip in byIP :: exists y :: y in t && y.ip == ip
    ensures forall a | a in RowSet(t) :: a in rows.Values
  {
    forall a | a in RowSet(t) ensures a in rows.Values {
      var i, j := PlaceOf(t, a);
      assert t[i] in t && t[i].sections[j] in byIP[t[i].ip].Values;
      var u :| u in byIP[t[i].ip] && byIP[t[i].ip][u] == t[i].sections[j];
      assert rows[u] == a;
    }
  }

  lemma RowsAreWritten(t: Table, byIP: Nested, rows: map<UID, Alloc>)
    requires Lists(byIP, rows) && Ascends(t)
    requires forall y | y in t :: y.ip in byIP
    requires forall y | y in t :: PortsAscend(y.sections) && forall x :: x in y.sections <==> x in byIP[y.ip].Values
    requires forall ip | ip in byIP :: exists y :: y in t && y.ip == ip
    ensures forall a | a in rows.Values :: a in RowSet(t)
  {
    forall a | a in rows.Values ensures a in RowSet(t) {
      var u :| u in rows && rows[u] == a;
      var y :| y in t && y.ip == a.ip;
      assert byIP[a.ip][u] in byIP[a.ip].Values && byIP[a.ip][u] == a.section;
      var i :| 0 <= i < |t| && t[i] == y;
      var j :| 0 <= j < |y.sections| && y.sections[j] == a.section;
      assert Row(t, i, j) == a;
    }
  }
}
