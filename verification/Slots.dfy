/** The slot allocator with a random start (utils/slots/slots.go). The bit set grows when a bit
    beyond its length is set; random numbers are passed in. */
module Slots {
  import opened Wrappers
  import opened Arithmetic

  type Bits = seq<bool>

  function CountSet(bits: Bits): (n: nat)
    ensures n <= |bits|
  {
    if bits == [] then 0 else CountSet(bits[..|bits| - 1]) + if bits[|bits| - 1] then 1 else 0
  }

  /** Bits beyond the length are clear. */
  predicate Test(bits: Bits, index: nat) {
    index < |bits| && bits[index]
  }

  function Set(bits: Bits, index: nat): Bits {
    if index < |bits| then bits[index := true]
    else bits + seq(index - |bits|, _ => false) + [true]
  }

  ghost predicate ClearFrom(bits: Bits, from: nat) {
    exists k :: from <= k < |bits| && !bits[k]
  }

  lemma {:induction false} CountAfterUpdate(bits: Bits, index: nat, b: bool)
    requires index < |bits| && bits[index] != b
    ensures CountSet(bits[index := b]) == CountSet(bits) + if b then 1 else -1
  {
    var l := |bits| - 1;
    if index < l {
      CountAfterUpdate(bits[..l], index, b);
      assert bits[index := b][..l] == bits[..l][index := b];
    } else {
      assert bits[index := b][..l] == bits[..l];
    }
  }

  lemma {:induction false} CountAfterPadding(bits: Bits, n: nat)
    ensures CountSet(bits + seq(n, _ => false)) == CountSet(bits)
  {
    var padded := bits + seq(n, _ => false);
    if n == 0 {
      assert padded == bits;
    } else {
      CountAfterPadding(bits, n - 1);
      assert padded[..|padded| - 1] == bits + seq(n - 1, _ => false);
    }
  }

  lemma CountAfterSet(bits: Bits, index: nat)
    requires !Test(bits, index)
    ensures CountSet(Set(bits, index)) == CountSet(bits) + 1
  {
    if index < |bits| {
      CountAfterUpdate(bits, index, true);
    } else {
      var padded := bits + seq(index - |bits|, _ => false);
      CountAfterPadding(bits, index - |bits|);
      assert (padded + [true])[..|padded|] == padded;
    }
  }

  lemma {:induction false} FullIsAllSet(bits: Bits)
    ensures CountSet(bits) == |bits| <==> !ClearFrom(bits, 0)
  {
    if bits != [] {
      var l := |bits| - 1;
      FullIsAllSet(bits[..l]);
      assert forall k | 0 <= k < l :: bits[..l][k] == bits[k];
    }
  }

  // ---- The scan --------------------------------------------------------------------------------

  lemma Wraps(x: nat, n: nat)
    requires 0 < n && x < 2 * n
    ensures x % n == if x < n then x else x - n
  {
    QuotientIsUnique(x, n, if x < n then 0 else 1);
  }

  /** The j-th index of a scan that starts in the middle. */
  function Place(lo: nat, n: nat, start: nat, j: nat): nat
    requires start < n && j < n
  {
    lo + if start + j < n then start + j else start + j - n
  }

  /** One pass over n indices from `lo`, starting anywhere and wrapping around, meets each of them:
      it finds a clear bit exactly when there is one, and the one it starts at if that is clear. */
  method Scan(bits: Bits, lo: nat, n: nat, start: nat) returns (r: Option<nat>)
    requires start < n
    ensures r.Some? <==> exists k :: lo <= k < lo + n && !Test(bits, k)
    ensures r.Some? ==> lo <= r.value < lo + n && !Test(bits, r.value)
    ensures !Test(bits, lo + start) ==> r == Some(lo + start)
  {
    for i := 0 to n
      invariant forall j: nat | j < i :: Test(bits, Place(lo, n, start, j))
    {
      Wraps(start + i, n);
      var idx := lo + ((start + i) % n);
      assert idx == Place(lo, n, start, i);
      if !Test(bits, idx) {
        assert i > 0 ==> Test(bits, Place(lo, n, start, 0));
        return Some(idx);
      }
    }
    forall k | lo <= k < lo + n ensures Test(bits, k) {
      var j := if k - lo >= start then k - lo - start else k - lo - start + n;
      assert k == Place(lo, n, start, j);
    }
    r := None;
  }

  datatype Next = Found(index: nat) | Nothing | Panic

  lemma ClearIsUntested(bits: Bits, from: nat)
    ensures ClearFrom(bits, from) <==> exists k :: from <= k < |bits| && !Test(bits, k)
  {
    if k :| from <= k < |bits| && !Test(bits, k) {
      assert !bits[k];
    }
    if k :| from <= k < |bits| && !bits[k] {
      assert !Test(bits, k);
    }
  }

  /** NextClear of the random strategy with an offset; a random number below zero or less panics. The
      second scan looks again where the first has been, not below the offset. */
  method NextClear(bits: Bits, offset: nat, start: nat, start2: nat) returns (r: Next)
    requires offset < |bits| ==> start < |bits| - offset
    requires 0 < offset ==> start2 < offset
    ensures r == Panic <==> offset >= |bits| || (offset == 0 && !ClearFrom(bits, 0))
    ensures offset < |bits| && ClearFrom(bits, offset) ==> r.Found? && offset <= r.index < |bits| && !bits[r.index]
    ensures offset < |bits| && !bits[offset + start] ==> r == Found(offset + start)
    ensures 0 < offset < |bits| && !ClearFrom(bits, offset) ==>
              (r.Found? <==> |bits| < 2 * offset) && (r.Found? ==> |bits| <= r.index < 2 * offset)
  {
    if offset >= |bits| {
      return Panic;
    }
    var first := Scan(bits, offset, |bits| - offset, start);
    ClearIsUntested(bits, offset);
    if first.Some? {
      return Found(first.value);
    }
    if offset == 0 {
      return Panic;
    }
    var second := Scan(bits, offset, offset, start2);
    if |bits| < 2 * offset {
      assert offset <= |bits| < offset + offset && !Test(bits, |bits|);
    }
    r := if second.Some? then Found(second.value) else Nothing;
  }

  // ---- The allocator ---------------------------------------------------------------------------

  class Slots {
    const offset: nat
    var count: int
    var bits: Bits

    ghost predicate Valid()
      reads this
    {
      count == CountSet(bits)
    }

    constructor (len: nat, offset: nat)
      ensures Valid() && this.offset == offset && |bits| == len && !exists k :: 0 <= k < len && bits[k]
    {
      this.offset := offset;
      count := 0;
      bits := seq(len, _ => false);
      new;
      CountAfterPadding([], len);
      assert bits == [] + bits;
    }

    method Reset()
      requires Valid()
      modifies this
      ensures Valid() && |bits| == |old(bits)| && !exists k :: 0 <= k < |bits| && bits[k]
    {
      count := 0;
      bits := seq(|bits|, _ => false);
      CountAfterPadding([], |bits|);
      assert bits == [] + bits;
    }

    /** None for an index out of range; false for one already taken. */
    method Allocate(index: int) returns (r: Option<bool>)
      requires Valid()
      modifies this
      ensures Valid()
      ensures r.None? <==> !(0 <= index < |old(bits)|)
      ensures r.Some? ==> r.value == !old(bits)[index]
      ensures bits == if r == Some(true) then old(bits)[index := true] else old(bits)
    {
      if index < 0 || index >= |bits| {
        return None;
      }
      if Test(bits, index) {
        return Some(false);
      }
      CountAfterSet(bits, index);
      bits := Set(bits, index);
      count := count + 1;
      r := Some(true);
    }

    /** Without an offset it fails only when all slots are taken, and otherwise takes a free one. With
        one, lower slots are never given out: when the upper ones are taken, it fails, or, when the
        offset is more than half of the length, takes a slot beyond the end. */
    method AllocateNext(start: nat, start2: nat) returns (r: Next)
      requires Valid()
      requires offset < |bits| ==> start < |bits| - offset
      requires 0 < offset ==> start2 < offset
      modifies this
      ensures Valid()
      ensures r.Found? ==> !Test(old(bits), r.index) && bits == Set(old(bits), r.index) && offset <= r.index
      ensures !r.Found? ==> bits == old(bits) && count == old(count)
      ensures !ClearFrom(old(bits), 0) ==> r == Nothing
      ensures offset == 0 && ClearFrom(old(bits), 0) ==> r.Found? && r.index < |old(bits)|
      ensures ClearFrom(old(bits), 0) ==> (r == Panic <==> offset >= |old(bits)|)
      ensures offset < |old(bits)| && ClearFrom(old(bits), offset) ==> r.Found? && r.index < |old(bits)|
      ensures 0 < offset < |old(bits)| && ClearFrom(old(bits), 0) && !ClearFrom(old(bits), offset) ==>
                (r.Found? <==> |old(bits)| < 2 * offset) && (r.Found? ==> |old(bits)| <= r.index)
    {
      FullIsAllSet(bits);
      assert ClearFrom(bits, offset) ==> ClearFrom(bits, 0);
      if count >= |bits| {
        return Nothing;
      }
      r := NextClear(bits, offset, start, start2);
      if r.Found? {
        CountAfterSet(bits, r.index);
        bits := Set(bits, r.index);
        count := count + 1;
      }
    }

    /** Nothing happens for an index that is not taken or out of range. */
    method Release(index: int)
      requires Valid()
      modifies this
      ensures Valid()
      ensures bits == if 0 <= index < |old(bits)| then old(bits)[index := false] else old(bits)
    {
      if index < 0 || !Test(bits, index) {
        return;
      }
      CountAfterUpdate(bits, index, false);
      bits := bits[index := false];
      count := count - 1;
    }

    method Has(index: int) returns (b: bool)
      ensures b <==> 0 <= index < |bits| && bits[index]
    {
      b := index >= 0 && Test(bits, index);
    }

    /** The taken slots in order, up to the first for which `f` is false. */
    method Iterate(f: int -> bool) returns (seen: seq<int>, all: bool)
      ensures all <==> forall k | 0 <= k < |bits| && bits[k] :: f(k)
      ensures all ==> forall k :: k in seen <==> 0 <= k < |bits| && bits[k]
      ensures !all ==> seen != [] && var last := seen[|seen| - 1];
                && 0 <= last < |bits| && bits[last] && !f(last)
                && (forall k | 0 <= k < last && bits[k] :: f(k))
                && forall k :: k in seen <==> 0 <= k <= last && bits[k]
      ensures forall i, j | 0 <= i < j < |seen| :: seen[i] < seen[j]
    {
      seen := [];
      for i := 0 to |bits|
        invariant forall k | 0 <= k < i && bits[k] :: f(k)
        invariant forall k :: k in seen <==> 0 <= k < i && bits[k]
        invariant forall i, j | 0 <= i < j < |seen| :: seen[i] < seen[j]
      {
        if bits[i] {
          assert forall j | 0 <= j < |seen| :: seen[j] in seen;
          seen := seen + [i];
          if !f(i) {
            return seen, false;
          }
        }
      }
      all := true;
    }

    method Free() returns (n: int)
      requires Valid()
      ensures n == |bits| - CountSet(bits) && (n == 0 <==> !ClearFrom(bits, 0))
    {
      FullIsAllSet(bits);
      n := |bits| - count;
    }
  }
}
