/** Facts about sequences that more than one component needs. */
module Sequences {
  /** Putting `x` between what precedes it and what follows it keeps all pairs related. */
  lemma InsertedInPlace<T>(s: seq<T>, n: nat, x: T, less: (T, T) -> bool)
    requires n <= |s|
    requires forall i, j | 0 <= i < j < |s| :: less(s[i], s[j])
    requires forall j | 0 <= j < n :: less(s[j], x)
    requires forall j | n <= j < |s| :: less(x, s[j])
    ensures var r := s[..n] + [x] + s[n..];
            && (forall i, j | 0 <= i < j < |r| :: less(r[i], r[j]))
            && (forall y :: y in r <==> y in s || y == x)
  {
    var r := s[..n] + [x] + s[n..];
    assert s == s[..n] + s[n..];
    forall i, j | 0 <= i < j < |r| ensures less(r[i], r[j]) {
      assert r[i] == if i < n then s[i] else if i == n then x else s[i - 1];
      assert r[j] == if j < n then s[j] else if j == n then x else s[j - 1];
    }
  }

  ghost function Joined<T>(parts: seq<seq<T>>): seq<T> {
    if parts == [] then [] else Joined(parts[..|parts| - 1]) + parts[|parts| - 1]
  }

  lemma JoinedMore<T>(parts: seq<seq<T>>)
    ensures parts == [] ==> Joined(parts) == []
    ensures parts != [] ==> Joined(parts) == Joined(parts[..|parts| - 1]) + parts[|parts| - 1]
  {
  }

  /** Of parts with at most one element each, the places of those that have one. */
  lemma {:induction false} PlacesOf<T>(parts: seq<seq<T>>) returns (from: seq<nat>)
    requires forall i | 0 <= i < |parts| :: |parts[i]| <= 1
    ensures |from| == |Joined(parts)| && forall k, l | 0 <= k < l < |from| :: from[k] < from[l]
    ensures forall p: nat :: p in from <==> p < |parts| && parts[p] != []
    ensures forall k | 0 <= k < |from| :: from[k] in from && parts[from[k]][0] == Joined(parts)[k]
  {
    hide Joined;
    from := [];
    JoinedMore(parts);
    if parts != [] {
      var n := |parts| - 1;
      var init := parts[..n];
      from := PlacesOf(init);
      if parts[n] == [] {
        assert Joined(parts) == Joined(init);
      } else {
        OneMorePlace(from, Joined(init), n, parts[n][0]);
        assert parts[n] == [parts[n][0]];
        from := from + [n];
      }
    }
  }

  lemma OneMorePlace<T>(from: seq<nat>, values: seq<T>, n: nat, value: T)
    requires |from| == |values| && (forall k | 0 <= k < |from| :: from[k] < n)
    requires forall k, l | 0 <= k < l < |from| :: from[k] < from[l]
    ensures forall k, l | 0 <= k < l <= |from| :: (from + [n])[k] < (from + [n])[l]
    ensures forall p :: p in from + [n] <==> p in from || p == n
    ensures forall k | 0 <= k < |from| :: (from + [n])[k] == from[k] && (values + [value])[k] == values[k]
    ensures (from + [n])[|from|] == n && (values + [value])[|from|] == value
  {
  }
}
