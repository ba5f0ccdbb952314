/** A pool of numbered slots for each of a set of keys (utils/container/slots.go).

    The pool is one set of taken (key, slot) pairs; the bit sets, the counter and the set of
    keys with room left are three views of it that `Use` and `UseNextFree` keep in step. */
module KeySlots {
  import opened Wrappers

  /** All pairs of a key and a slot below `n`. */
  ghost function Grid<K>(keys: set<K>, n: nat): set<(K, nat)> {
    set k, i: nat | k in keys && 0 <= i < n :: (k, i)
  }

  lemma {:induction false} RowCard<K>(k: K, n: nat)
    ensures |Grid({k}, n)| == n
  {
    if n == 0 {
      assert Grid({k}, 0) == {};
    } else {
      RowCard(k, n - 1);
      assert Grid({k}, n) == Grid({k}, n - 1) + {(k, n - 1)};
    }
  }

  lemma {:induction false} GridCard<K>(keys: set<K>, n: nat)
    ensures |Grid(keys, n)| == |keys| * n
  {
    if keys == {} {
      assert Grid(keys, n) == {};
    } else {
      var k :| k in keys;
      GridCard(keys - {k}, n);
      RowCard(k, n);
      assert Grid(keys, n) == Grid(keys - {k}, n) + Grid({k}, n);
      assert |keys - {k}| == |keys| - 1;
    }
  }

  /** A subset of a finite set is the whole of it exactly when the sizes agree. */
  lemma SubsetCard<T>(a: set<T>, b: set<T>)
    requires a <= b
    ensures |a| <= |b|
    ensures |a| == |b| <==> a == b
  {
    assert |b| == |a| + |b - a| by { assert b == a + (b - a); }
    if |a| == |b| {
      assert b - a == {};
    }
  }

  predicate HasClear(bits: seq<bool>) {
    exists i :: 0 <= i < |bits| && !bits[i]
  }

  /** The pairs whose bit is set. */
  ghost function TakenIn<K>(m: map<K, seq<bool>>): set<(K, nat)> {
    set k, i: nat | k in m && 0 <= i < |m[k]| && m[k][i] :: (k, i)
  }

  /** The keys with a clear bit. */
  ghost function RoomyIn<K>(m: map<K, seq<bool>>): set<K> {
    set k | k in m && HasClear(m[k])
  }

  lemma SetBit<K>(m: map<K, seq<bool>>, key: K, slot: nat)
    requires key in m && slot < |m[key]| && !m[key][slot]
    ensures var m' := m[key := m[key][slot := true]];
            && TakenIn(m') == TakenIn(m) + {(key, slot)}
            && key in RoomyIn(m)
            && RoomyIn(m') == if HasClear(m'[key]) then RoomyIn(m) else RoomyIn(m) - {key}
    ensures (key, slot) !in TakenIn(m)
  {
    var m' := m[key := m[key][slot := true]];
    forall p ensures p in TakenIn(m') <==> p in TakenIn(m) + {(key, slot)} {
    }
  }

  /** What is taken lies in the grid, and fills it exactly when no key has room left. */
  lemma TakenWithinGrid<K>(m: map<K, seq<bool>>, n: nat)
    requires forall k | k in m :: |m[k]| == n
    ensures |TakenIn(m)| <= |m| * n
    ensures |TakenIn(m)| == |m| * n <==> TakenIn(m) == Grid(m.Keys, n)
    ensures |TakenIn(m)| < |m| * n <==> RoomyIn(m) != {}
  {
    assert |m| == |m.Keys|;
    GridCard(m.Keys, n);
    SubsetCard(TakenIn(m), Grid(m.Keys, n));
    if k :| k in RoomyIn(m) {
      var i: nat :| i < n && !m[k][i];
      assert (k, i) in Grid(m.Keys, n) && (k, i) !in TakenIn(m);
    } else {
      forall p | p in Grid(m.Keys, n) ensures p in TakenIn(m) {
        assert p.0 !in RoomyIn(m);
      }
    }
  }

  class KeySlots<K(==)> {
    const slotsPerKey: nat
    var used: nat
    var slotsByKey: map<K, seq<bool>>
    var freeKeys: set<K>

    /** The abstract value: which slots of which keys are in use. */
    ghost function Taken(): set<(K, nat)>
      reads this
    {
      TakenIn(slotsByKey)
    }

    ghost function Keys(): set<K>
      reads this
    {
      slotsByKey.Keys
    }

    ghost predicate Valid()
      reads this
    {
      && (forall k | k in slotsByKey :: |slotsByKey[k]| == slotsPerKey)
      && used == |Taken()|
      // With no slots at all a key is never removed from freeKeys.
      && freeKeys == (if slotsPerKey == 0 then Keys() else RoomyIn(slotsByKey))
    }

    constructor (slotsPerKey: nat, keys: seq<K>)
      ensures Valid()
      ensures this.slotsPerKey == slotsPerKey
      ensures Keys() == (set k | k in keys)
      ensures Taken() == {}
    {
      var slots: map<K, seq<bool>> := map[];
      var free: set<K> := {};
      for n := 0 to |keys|
        invariant slots.Keys == free == (set k | k in keys[..n])
        invariant forall k | k in slots :: slots[k] == seq(slotsPerKey, i => false)
      {
        if keys[n] !in slots {
          slots := slots[keys[n] := seq(slotsPerKey, i => false)];
          free := free + {keys[n]};
        }
      }
      assert keys[..|keys|] == keys;
      assert TakenIn(slots) == {};
      assert slotsPerKey > 0 ==> forall k | k in slots :: !slots[k][0];
      this.slotsPerKey := slotsPerKey;
      used := 0;
      slotsByKey := slots;
      freeKeys := free;
    }

    predicate HasKey(k: K)
      reads this
    {
      k in slotsByKey
    }

    function Total(): nat
      reads this
    {
      |slotsByKey| * slotsPerKey
    }

    function Used(): nat
      reads this
    {
      used
    }

    /** Takes one slot of one key; refused for an unknown key, a slot out of range and a slot
        already in use, in which cases nothing changes. */
    method Use(key: K, slot: nat) returns (ok: bool)
      requires Valid()
      modifies this
      ensures Valid() && Keys() == old(Keys())
      ensures ok <==> key in old(Keys()) && slot < slotsPerKey && (key, slot) !in old(Taken())
      ensures ok ==> Taken() == old(Taken()) + {(key, slot)}
      ensures !ok ==> Taken() == old(Taken())
    {
      if slot >= slotsPerKey || key !in slotsByKey || slotsByKey[key][slot] {
        return false;
      }
      SetBit(slotsByKey, key, slot);
      slotsByKey := slotsByKey[key := slotsByKey[key][slot := true]];
      used := used + 1;
      if !HasClear(slotsByKey[key]) {
        freeKeys := freeKeys - {key};
      }
      ok := true;
    }

    /** Takes the lowest clear slot of some key with room left, in no particular key order; fails
        exactly when every slot of every key is in use. */
    method UseNextFree() returns (key: Option<K>, slot: nat)
      requires Valid()
      modifies this
      ensures Valid() && Keys() == old(Keys())
      ensures key.Some? <==> old(Used()) < old(Total())
      ensures key.Some? ==> key.value in old(Keys()) && slot < slotsPerKey && (key.value, slot) !in old(Taken())
      ensures key.Some? ==> forall i: nat | i < slot :: (key.value, i) in old(Taken())
      ensures key.Some? ==> Taken() == old(Taken()) + {(key.value, slot)}
      ensures key.None? ==> Taken() == old(Taken())
    {
      hide Grid;
      TakenWithinGrid(slotsByKey, slotsPerKey);
      var rest := freeKeys;
      while rest != {}
        invariant unchanged(this) && rest <= freeKeys
        invariant forall k | k in freeKeys && k !in rest :: k in slotsByKey && !HasClear(slotsByKey[k])
        decreases rest
      {
        var k :| k in rest;
        rest := rest - {k};
        var next, found := NextClear(slotsByKey[k]);
        if found {
          assert forall i: nat | i < next :: (k, i) in Taken();
          var _ := Use(k, next);
          return Some(k), next;
        }
      }
      key, slot := None, 0;
      assert rest == {} && forall k | k in RoomyIn(slotsByKey) :: k in freeKeys && k !in rest;
      assert RoomyIn(slotsByKey) == {};
    }
  }

  /** The lowest clear bit (the bit set library's NextClear(0)). */
  method NextClear(bits: seq<bool>) returns (slot: nat, ok: bool)
    ensures ok <==> HasClear(bits)
    ensures ok ==> slot < |bits| && !bits[slot] && forall i | 0 <= i < slot :: bits[i]
  {
    slot := 0;
    while slot < |bits| && bits[slot]
      invariant slot <= |bits|
      invariant forall i | 0 <= i < slot :: bits[i]
    {
      slot := slot + 1;
    }
    ok := slot < |bits|;
  }
}
