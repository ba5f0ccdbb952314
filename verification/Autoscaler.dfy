/** Scaling a NAT gateway's addresses to its requests
    (internal/controllers/natgatewayautoscaler_controller.go). */
module Autoscaler {
  import opened Wrappers
  import opened Api
  import opened Arithmetic
  import A = Allocation

  /** Go's integer division, which truncates toward zero. */
  function TruncDiv(a: int, b: int): int
    requires b > 0
  {
    if a >= 0 then a / b else -((-a) / b)
  }

  /** The number of addresses for the requests, before clamping. */
  function Unclamped(slotsPerIP: int, current: int, requests: int): int
    requires slotsPerIP > 0
  {
    current - TruncDiv(slotsPerIP * current - requests, slotsPerIP)
  }

  function Clamp(minIPs: Option<int>, maxIPs: Option<int>, d: int): int {
    var atLeast := if minIPs.Some? && d < minIPs.value then minIPs.value else d;
    if maxIPs.Some? && maxIPs.value < atLeast then maxIPs.value else atLeast
  }

  /** determineDesiredNumberOfIPs. With no slots per address it divides by zero. */
  function DesiredNumberOfIPs(width: A.Width, minIPs: Option<int>, maxIPs: Option<int>, current: int,
                              requests: int): int
    requires A.SlotsPerIP(width) > 0
  {
    Clamp(minIPs, maxIPs, Unclamped(A.SlotsPerIP(width), current, requests))
  }

  /** The unclamped number is within one address of what the requests need: rounded up when the
      current addresses suffice, rounded down, because division truncates, when they do not. */
  lemma UnclampedIsNear(s: int, current: int, requests: int)
    requires s > 0
    ensures var d := Unclamped(s, current, requests);
            && -s < d * s - requests < s
            && (s * current >= requests ==> d * s >= requests)
            && (s * current <= requests ==> d * s <= requests)
  {
    var diff := s * current - requests;
    if diff >= 0 {
      DivMod(diff, s);
      Distribute(current, diff / s, s);
    } else {
      DivMod(-diff, s);
      Distribute(current, -((-diff) / s), s);
    }
  }

  /** The unclamped number need not suffice for the requests: it does exactly when the present
      addresses do, or the requests fill a whole number of addresses. */
  lemma SufficesExactly(s: int, current: int, requests: int)
    requires s > 0
    ensures Unclamped(s, current, requests) * s >= requests <==> s * current >= requests || requests % s == 0
  {
    var d := Unclamped(s, current, requests);
    UnclampedIsNear(s, current, requests);
    if s * current < requests {
      if requests % s == 0 {
        DivMod(requests, s);
        NearIsUnique(s, d, requests / s, requests);
      } else if d * s >= requests {
        QuotientIsUnique(requests, s, d);
      }
    }
  }

  lemma FewerServeLess(s: int, a: int, b: int)
    requires s > 0 && a <= b
    ensures a * s <= b * s
  {
    if a < b {
      MulGap(a, b, s);
    }
  }

  /** With the bounds: the maximum must leave room, and either the present addresses suffice, the
      requests fill whole addresses, or the minimum suffices. */
  lemma DesiredSuffices(width: A.Width, minIPs: Option<int>, maxIPs: Option<int>, current: int, requests: int)
    requires A.SlotsPerIP(width) > 0
    ensures var s := A.SlotsPerIP(width);
            DesiredNumberOfIPs(width, minIPs, maxIPs, current, requests) * s >= requests <==>
              && (maxIPs.Some? ==> maxIPs.value * s >= requests)
              && (s * current >= requests || requests % s == 0 || (minIPs.Some? && minIPs.value * s >= requests))
  {
    hide Unclamped;
    var s := A.SlotsPerIP(width);
    var u := Unclamped(s, current, requests);
    SufficesExactly(s, current, requests);
    var atLeast := if minIPs.Some? && u < minIPs.value then minIPs.value else u;
    if minIPs.Some? {
      FewerServeLess(s, if u < minIPs.value then u else minIPs.value, atLeast);
    }
    if maxIPs.Some? {
      var d := if maxIPs.value < atLeast then maxIPs.value else atLeast;
      FewerServeLess(s, d, if maxIPs.value < atLeast then atLeast else maxIPs.value);
    }
  }

  /** With 64 slots an address, 100 requests and one address, nothing is ever added: 36 requests go
      unserved for good, unless a minimum forces more. */
  lemma StaysTooFew()
    ensures A.SlotsPerIP(1008) == 64
    ensures DesiredNumberOfIPs(1008, None, None, 1, 100) == 1
    ensures DesiredNumberOfIPs(1008, None, None, 0, 100) == 1
    ensures 64 * 1 < 100
  {
    assert A.SlotsPerIP(1008) == 64;
    assert TruncDiv(-36, 64) == 0 && TruncDiv(-100, 64) == -1;
  }

  lemma Distribute(a: int, b: int, s: int)
    ensures (a - b) * s == a * s - b * s
    ensures (-b) * s == -(b * s) && s * a == a * s
    ensures (-(-b)) * s == b * s
  {
  }

  /** A multiple of s closer than s to the requests, on a given side of them, is unique. */
  lemma NearIsUnique(s: int, d: int, e: int, requests: int)
    requires s > 0 && -s < d * s - requests < s && -s < e * s - requests < s
    requires (d * s >= requests && e * s >= requests) || (d * s <= requests && e * s <= requests)
    ensures d == e
  {
    if d < e {
      MulGap(d, e, s);
    } else if e < d {
      MulGap(e, d, s);
    }
  }

  lemma ClampedSettles(s: int, minIPs: Option<int>, maxIPs: Option<int>, current: int, requests: int)
    requires s > 0
    ensures var d := Clamp(minIPs, maxIPs, Unclamped(s, current, requests));
            Clamp(minIPs, maxIPs, Unclamped(s, d, requests)) == d
  {
    hide Unclamped;
    var u := Unclamped(s, current, requests);
    var d := Clamp(minIPs, maxIPs, u);
    var v := Unclamped(s, d, requests);
    UnclampedIsNear(s, current, requests);
    UnclampedIsNear(s, d, requests);
    Distribute(d, 0, s);
    if d == u {
      NearIsUnique(s, u, v, requests);
    } else if d < u {
      // Cut down to the maximum: the second step still wants at least as many.
      MulGap(d, u, s);
      if v < d {
        MulGap(v, d, s);
      }
    } else {
      // Raised to the minimum: the second step still wants no more.
      MulGap(u, d, s);
      if d < v {
        MulGap(d, v, s);
      }
    }
  }

  /** The maximum is never exceeded, and the minimum is kept if the maximum allows it; a number between
      them is the unclamped one, which is within one address of the requests. */
  lemma StaysInBounds(width: A.Width, minIPs: Option<int>, maxIPs: Option<int>, current: int, requests: int)
    requires A.SlotsPerIP(width) > 0
    ensures var d, s := DesiredNumberOfIPs(width, minIPs, maxIPs, current, requests), A.SlotsPerIP(width);
            && (maxIPs.Some? ==> d <= maxIPs.value)
            && (minIPs.Some? ==> d >= minIPs.value || (maxIPs.Some? && d == maxIPs.value))
            && ((minIPs.Some? ==> d > minIPs.value) && (maxIPs.Some? ==> d < maxIPs.value) ==>
                d * s - requests < s && requests - d * s < s)
  {
    UnclampedIsNear(A.SlotsPerIP(width), current, requests);
  }

  /** For unchanged requests a second step changes nothing, whatever the bounds: a number that does
      not suffice stays as well. */
  lemma ScalingSettles(width: A.Width, minIPs: Option<int>, maxIPs: Option<int>, current: int, requests: int)
    requires A.SlotsPerIP(width) > 0
    ensures var d := DesiredNumberOfIPs(width, minIPs, maxIPs, current, requests);
            DesiredNumberOfIPs(width, minIPs, maxIPs, d, requests) == d
  {
    ClampedSettles(A.SlotsPerIP(width), minIPs, maxIPs, current, requests);
  }

  // ---- The address list ---------------------------------------------------------------------

  datatype GatewayIP = GatewayIP(name: string, ip: IP)

  ghost predicate DistinctNames(ips: seq<GatewayIP>) {
    forall i, j | 0 <= i < j < |ips| :: ips[i].name != ips[j].name
  }

  function Names(ips: seq<GatewayIP>): set<string> {
    set i | 0 <= i < |ips| :: ips[i].name
  }

  ghost function NewNames(draws: seq<string>, existing: set<string>): set<string> {
    (set i | 0 <= i < |draws| :: draws[i]) - existing
  }

  /** generateNewNATGatewayIPs: draws names until enough new ones came up. The source draws at
      random without end; `draws` is what it draws, and None says they were too few. */
  method GenerateNewIPs(ips: seq<GatewayIP>, ct: nat, draws: seq<string>) returns (r: Option<seq<GatewayIP>>)
    ensures r.Some? <==> |NewNames(draws, Names(ips))| >= ct
    ensures r.Some? ==>
              && |r.value| == ct && DistinctNames(r.value)
              && forall k | 0 <= k < ct :: r.value[k].ip == Unset && r.value[k].name in NewNames(draws, Names(ips))
  {
    hide NewNames, DistinctNames, Names;
    var existing := Names(ips);
    var picked: seq<GatewayIP> := [];
    var names: set<string> := {};
    var n := 0;
    NoDraws(draws, existing);
    assert DistinctNames(picked) by { NoNames(); }
    while |picked| != ct && n < |draws|
      invariant 0 <= n <= |draws| && |picked| <= ct
      invariant names == NewNames(draws[..n], existing) && |names| == |picked|
      invariant DistinctNames(picked)
      invariant forall k | 0 <= k < |picked| :: picked[k].ip == Unset && picked[k].name in names
      decreases |draws| - n
    {
      var name := draws[n];
      OneMoreDraw(draws, n, existing);
      if name !in existing && name !in names {
        AppendName(picked, names, name);
        picked := picked + [GatewayIP(name, Unset)];
        names := names + {name};
      }
      n := n + 1;
    }
    assert n == |draws| ==> draws[..n] == draws;
    DrawsGrow(draws, n, existing);
    r := if |picked| == ct then Some(picked) else None;
  }

  lemma NoNames()
    ensures DistinctNames([])
  {
  }

  lemma AppendName(picked: seq<GatewayIP>, names: set<string>, name: string)
    requires DistinctNames(picked) && name !in names && forall k | 0 <= k < |picked| :: picked[k].name in names
    ensures DistinctNames(picked + [GatewayIP(name, Unset)])
  {
  }

  lemma NoDraws(draws: seq<string>, existing: set<string>)
    ensures NewNames(draws[..0], existing) == {}
  {
  }

  lemma OneMoreDraw(draws: seq<string>, n: nat, existing: set<string>)
    requires n < |draws|
    ensures NewNames(draws[..n + 1], existing) == NewNames(draws[..n], existing) + ({draws[n]} - existing)
  {
    forall x ensures x in NewNames(draws[..n + 1], existing) <==>
        x in NewNames(draws[..n], existing) + ({draws[n]} - existing) {
      if x in NewNames(draws[..n + 1], existing) {
        var i :| 0 <= i < n + 1 && draws[..n + 1][i] == x;
        assert i < n ==> draws[..n][i] == x;
      }
      if x in NewNames(draws[..n], existing) {
        var i :| 0 <= i < n && draws[..n][i] == x;
        assert draws[..n + 1][i] == x;
      }
      assert draws[..n + 1][n] == draws[n];
    }
  }

  lemma DrawsGrow(draws: seq<string>, n: nat, existing: set<string>)
    requires n <= |draws|
    ensures NewNames(draws[..n], existing) <= NewNames(draws, existing)
    ensures |NewNames(draws[..n], existing)| <= |NewNames(draws, existing)|
  {
    var a, b := NewNames(draws[..n], existing), NewNames(draws, existing);
    assert forall i | 0 <= i < n :: draws[..n][i] == draws[i];
    assert a <= b;
    assert b == a + (b - a);
  }

  /** manageNATGatewayIPs: the new address list. It has the desired length, extends the old list or
      is cut from it at the end, and repeats no name if the old one did not. A negative maximum is
      refused by validation; with one the source would slice out of bounds. */
  method ManageIPs(ips: seq<GatewayIP>, width: A.Width, minIPs: Option<int>, maxIPs: Option<int>, requests: int,
                   draws: seq<string>)
    returns (r: Option<seq<GatewayIP>>)
    requires A.SlotsPerIP(width) > 0
    requires requests >= 0 && (maxIPs.Some? ==> maxIPs.value >= 0)
    ensures var d := DesiredNumberOfIPs(width, minIPs, maxIPs, |ips|, requests);
            && (r.None? <==> d > |ips| && |NewNames(draws, Names(ips))| < d - |ips|)
            && (r.Some? ==>
                && |r.value| == d
                && (if d <= |ips| then r.value == ips[..d] else ips <= r.value)
                && (DistinctNames(ips) ==> DistinctNames(r.value)))
  {
    var desired := DesiredNumberOfIPs(width, minIPs, maxIPs, |ips|, requests);
    DesiredIsNatural(width, minIPs, maxIPs, |ips|, requests);
    var diff := |ips| - desired;
    if diff < 0 {
      var added := GenerateNewIPs(ips, -diff, draws);
      if added.None? {
        return None;
      }
      r := Some(ips + added.value);
      assert forall k | 0 <= k < |added.value| :: added.value[k].name !in Names(ips);
    } else if diff > 0 {
      r := Some(ips[..|ips| - diff]);
    } else {
      r := Some(ips);
    }
  }

  lemma DesiredIsNatural(width: A.Width, minIPs: Option<int>, maxIPs: Option<int>, current: nat, requests: nat)
    requires A.SlotsPerIP(width) > 0 && (maxIPs.Some? ==> maxIPs.value >= 0)
    ensures DesiredNumberOfIPs(width, minIPs, maxIPs, current, requests) >= 0
  {
    var s := A.SlotsPerIP(width);
    UnclampedIsNear(s, current, requests);
    var u := Unclamped(s, current, requests);
    if u < 0 {
      MulGap(u, 0, s);
    }
  }
}
