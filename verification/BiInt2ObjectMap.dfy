/** Hash map from pairs of ints to non-null objects: open addressing, linear probing, deletion by
    backward shift, growth by doubling, and compaction. */
module BiInt2ObjectMap {
  import opened Wrappers
  import opened JavaInt
  import opened Hashing
  import opened Sizing
  import opened ProbeTable

  datatype MapError =
    | IllegalLoadFactor(loadFactor: real)
    | NegativeArraySize
    | MaxCapacityReached(size: nat)

  /** `vs` lists the values of `m`, each entry exactly once. */
  ghost predicate Enumerates<V>(m: map<Pair, V>, ps: seq<Pair>, vs: seq<V>) {
    && |ps| == |vs| == |m|
    && (forall i, j :: 0 <= i < j < |ps| ==> ps[i] != ps[j])
    && (forall i :: 0 <= i < |ps| ==> ps[i] in m && m[ps[i]] == vs[i])
    && (forall p :: p in m ==> p in ps)
  }

  class BiInt2ObjectMap<V> {
    const loadFactor: real
    var resizeThreshold: int
    var size: nat
    var keys: array<int64>
    var values: array<Option<V>>

    ghost var contents: map<Pair, V>
    ghost var Repr: set<object>

    /** The resize threshold is that of the capacity; only a failed compaction makes it negative. */
    ghost predicate Tuned()
      reads this
    {
      ValidLoadFactor(loadFactor) && resizeThreshold == Threshold(values.Length, loadFactor)
    }

    /** The arrays hold `contents`, except that probing need not work. */
    ghost predicate Stores()
      reads this, Repr
      ensures Stores() ==> this in Repr && keys in Repr && values in Repr
    {
      && Repr == {this, keys, values}
      && ValidLoadFactor(loadFactor)
      && MIN_CAPACITY <= values.Length <= Sizing.MAX_CAPACITY
      && IsPow2(values.Length)
      && keys.Length == values.Length
      && size == |contents|
      && (resizeThreshold < 0 || Tuned())
      && Represents(keys[..], values[..], contents)
    }

    /** Moreover every stored key is reachable from its home slot. */
    ghost predicate Working()
      reads this, Repr
      ensures Working() ==> this in Repr && keys in Repr && values in Repr
    {
      Stores() && Table(keys[..], values[..], contents)
    }

    /** Moreover a slot is free, so that every probe ends. */
    ghost predicate Valid()
      reads this, Repr
      ensures Valid() ==> this in Repr && keys in Repr && values in Repr
    {
      Working() && size < values.Length
    }

    /** At most one entry over the threshold, and small enough to be compacted. */
    ghost predicate Compactable()
      reads this, Repr
    {
      Valid() && Tuned() && size <= resizeThreshold + 1 && CanCompact(size, loadFactor)
    }

    /** An empty map with the next power of two at or above the given capacity. */
    constructor (initialCapacity: int32, loadFactor: real)
      requires ValidLoadFactor(loadFactor) && initialCapacity <= Sizing.MAX_CAPACITY
      ensures Valid() && fresh(Repr)
      ensures contents == map[] && this.loadFactor == loadFactor
      ensures Compactable()
      ensures IsLeastPow2(values.Length, Max(MIN_CAPACITY, initialCapacity))
      ensures size <= resizeThreshold
    {
      NextPowerOfTwoIsLeast(Max(MIN_CAPACITY, initialCapacity));
      this.loadFactor := loadFactor;
      var capacity := FindNextPositivePowerOfTwo(Max(MIN_CAPACITY, initialCapacity));
      resizeThreshold := Threshold(capacity, loadFactor);
      size := 0;
      keys := new int64[capacity](_ => 0);
      values := new Option<V>[capacity](_ => None);
      contents := map[];
      new;
      Repr := {this, keys, values};
      ThresholdBelowCapacity(capacity, loadFactor);
      CompactStaysInRange(size, capacity, loadFactor);
    }

    /** Validation, then construction: what a caller of the Java constructor sees. */
    static method Create(initialCapacity: int32, loadFactor: real) returns (r: Result<BiInt2ObjectMap<V>, MapError>)
      ensures r.Success? <==> ValidLoadFactor(loadFactor) && initialCapacity <= Sizing.MAX_CAPACITY
      ensures r.Success? ==> fresh(r.value) && fresh(r.value.Repr) && r.value.Valid() && r.value.contents == map[]
      ensures r.Success? ==>
                && r.value.loadFactor == loadFactor && r.value.Tuned()
                && IsLeastPow2(r.value.values.Length, Max(8, initialCapacity))
      ensures r.Failure? ==> r.error == if ValidLoadFactor(loadFactor) then NegativeArraySize
                                        else IllegalLoadFactor(loadFactor)
    {
      if loadFactor < LEAST_LOAD_FACTOR || loadFactor > GREATEST_LOAD_FACTOR {
        return Failure(IllegalLoadFactor(loadFactor));
      }
      NextPowerOfTwoIsLeast(Max(MIN_CAPACITY, initialCapacity));
      if FindNextPositivePowerOfTwo(Max(MIN_CAPACITY, initialCapacity)) < 0 {
        return Failure(NegativeArraySize);
      }
      var m := new BiInt2ObjectMap<V>(initialCapacity, loadFactor);
      return Success(m);
    }

    /** Drop all entries; only the values are nulled, the keys stay behind stale. */
    method Clear()
      requires Working()
      modifies Repr
      ensures Valid() && Repr == old(Repr)
      ensures contents == map[]
      ensures values.Length == old(values.Length) && resizeThreshold == old(resizeThreshold)
      ensures old(Tuned()) ==> Compactable() && size <= resizeThreshold
    {
      hide Table, Represents, Threshold;
      size := 0;
      forall i | 0 <= i < values.Length {
        values[i] := None;
      }
      EmptyTable<V>(keys[..], values[..]);
      contents := map[];
      ThresholdBelowCapacity(values.Length, loadFactor);
      CompactStaysInRange(size, values.Length, loadFactor);
    }

    /** Rehash with a capacity just large enough for the current size and load factor. It comes to
        an end unless the narrowed capacity is positive and too small for the entries. */
    method Compact() returns (r: Result<(), MapError>)
      requires Working()
      requires var capacity := CompactCapacity(size, loadFactor); capacity < 0 || size <= capacity
      modifies Repr
      ensures Working() && fresh(Repr - old(Repr))
      ensures contents == old(contents) && resizeThreshold == Threshold(CompactCapacity(size, loadFactor), loadFactor)
      ensures r == if CompactCapacity(size, loadFactor) < 0 then Failure(NegativeArraySize) else Success(())
      ensures values.Length == if r.Failure? then old(values.Length) else CompactCapacity(size, loadFactor)
      ensures CanCompact(size, loadFactor) ==> r.Success? && Compactable()
      ensures CanCompact(size, loadFactor) ==>
                forall ideal: int :: IsIdeal(ideal, size, loadFactor) ==> IsLeastPow2(values.Length, Max(8, ideal))
      ensures old(Tuned() && size <= resizeThreshold) ==> r.Success? && values.Length <= old(values.Length)
    {
      hide Table, Represents, Threshold, IsLeastPow2, CompactCapacity, CanCompact, ExactQuotient, IsIdeal, Pow2;
      var capacity := CompactCapacity(size, loadFactor);
      if CanCompact(size, loadFactor) {
        CompactIsIdeal(size, loadFactor);
      }
      CompactCapacityCases(size, loadFactor);
      if resizeThreshold == Threshold(values.Length, loadFactor) && size <= resizeThreshold {
        CompactCapacityShrinks(size, values.Length, loadFactor);
      }
      r := Rehash(capacity);
    }

    /** The probe loop of `put`, `get` and `remove`: walk from the home slot to the key or to
        the null that proves it absent. */
    method Probe(key: int64) returns (index: nat)
      requires Valid()
      ensures index < values.Length
      ensures values[index].Some? <==> Unpack(key) in contents
      ensures values[index].Some? ==> keys[index] == key && values[index].value == contents[Unpack(key)]
      ensures values[index].None? ==> Scanned(keys[..], values[..], key, Home(key, values.Length), index)
    {
      ghost var n, ks, vs := values.Length, keys[..], values[..];
      ghost var e := FreeSlot(ks, vs, contents);
      index := Home(key, values.Length);
      while values[index].Some?
        invariant index < n
        invariant Scanned(ks, vs, key, Home(key, n), index)
        decreases Dist(index, e, n)
      {
        if key == keys[index] {
          assert Occupied(vs, index);
          return;
        }
        ScanStep(ks, vs, key, Home(key, n), index, e);
        index := Next(index, values.Length);
      }
      MissMeansAbsent(ks, vs, contents, key, index);
    }

    /** Store a value. Growing past the largest capacity fails after the value is stored, and may
        leave no slot free. */
    method Put(keyPartA: int32, keyPartB: int32, value: V) returns (r: Result<Option<V>, MapError>)
      requires Valid()
      modifies Repr
      ensures Working() && fresh(Repr - old(Repr))
      ensures size < values.Length ==> Valid()
      ensures contents == old(contents)[(keyPartA, keyPartB) := value]
      ensures r == if size > old(resizeThreshold) && old(values.Length) == Sizing.MAX_CAPACITY
                   then Failure(MaxCapacityReached(size))
                   else Success(Lookup(old(contents), (keyPartA, keyPartB)))
      ensures values.Length == if size > old(resizeThreshold) && r.Success?
                               then 2 * old(values.Length) else old(values.Length)
      ensures old(Tuned()) ==> Tuned()
      ensures r.Success? ==> Valid()
      ensures r.Success? && old(Compactable()) ==> Compactable()
      ensures r.Success? && old(Tuned() && size <= resizeThreshold) ==> size <= resizeThreshold
    {
      hide Table, Represents, Scanned, Threshold, Home, CompoundKey, Unpack, CanCompact, IsPow2;
      var key := CompoundKey(keyPartA, keyPartB);
      UnpackPair(keyPartA, keyPartB);
      var index := Probe(key);
      var oldValue := values[index];
      ghost var ks, vs := keys[..], values[..];
      StoreTable(ks, vs, contents, key, value, index);
      if oldValue == None {
        size := size + 1;
        keys[index] := key;
      }
      values[index] := Some(value);
      assert keys[..] == ks[index := key];
      assert values[..] == vs[index := Some(value)];
      contents := contents[(keyPartA, keyPartB) := value];
      ThresholdBelowCapacity(values.Length, loadFactor);

      if size > resizeThreshold {
        DoublingRaisesThreshold(values.Length, loadFactor);
        var grown := IncreaseCapacity();
        if grown.Failure? {
          return Failure(grown.error);
        }
      }
      if size <= Threshold(values.Length, loadFactor) + (if values.Length < Sizing.MAX_CAPACITY then 1 else 0) {
        CompactStaysInRange(size, values.Length, loadFactor);
      }
      return Success(oldValue);
    }

    /** The value stored under a pair, if any. */
    method Get(keyPartA: int32, keyPartB: int32) returns (value: Option<V>)
      requires Valid()
      ensures value == Lookup(contents, (keyPartA, keyPartB))
    {
      UnpackPair(keyPartA, keyPartB);
      var index := Probe(CompoundKey(keyPartA, keyPartB));
      value := values[index];
    }

    /** Remove a pair: null its slot, then close the hole so that later keys stay reachable. */
    method Remove(keyPartA: int32, keyPartB: int32) returns (value: Option<V>)
      requires Valid()
      modifies Repr
      ensures Valid() && Repr == old(Repr)
      ensures value == Lookup(old(contents), (keyPartA, keyPartB))
      ensures contents == old(contents) - {(keyPartA, keyPartB)}
      ensures resizeThreshold == old(resizeThreshold) && size <= old(size)
      ensures old(Compactable()) ==> Compactable()
    {
      hide Table, Represents, Chain, Homes, Home, Scanned, CompoundKey, Unpack, Threshold;
      UnpackPair(keyPartA, keyPartB);
      var index := Probe(CompoundKey(keyPartA, keyPartB));
      value := values[index];
      if CanCompact(size, loadFactor) && value.Some? {
        FewerCanCompact(size - 1, size, loadFactor);
      }
      if value == None {
        assert contents - {(keyPartA, keyPartB)} == contents;
        return;
      }
      ghost var ks, vs := keys[..], values[..];
      ghost var e := FreeSlot(ks, vs, contents);
      StartRemoval(ks, vs, contents, index);
      values[index] := None;
      assert values[..] == vs[index := None];
      size := size - 1;
      contents := contents - {(keyPartA, keyPartB)};
      CompactChain(index, e);
    }

    /** The stored value, or the one the mapping function yields, which is then stored. */
    method ComputeIfAbsent(keyPartA: int32, keyPartB: int32, mappingFunction: (int32, int32) -> Option<V>)
        returns (r: Result<Option<V>, MapError>)
      requires Valid()
      modifies Repr
      ensures Working() && fresh(Repr - old(Repr))
      ensures size < values.Length ==> Valid()
      ensures var pair := (keyPartA, keyPartB);
              var computed := mappingFunction(keyPartA, keyPartB);
              if pair in old(contents) || computed.None? then
                contents == old(contents) && r == Success(Lookup(old(contents), pair))
              else
                && contents == old(contents)[pair := computed.value]
                && r == if size > old(resizeThreshold) && old(values.Length) == Sizing.MAX_CAPACITY
                        then Failure(MaxCapacityReached(size))
                        else Success(computed)
      ensures r.Success? && old(Compactable()) ==> Compactable()
      ensures r.Success? && old(Tuned() && size <= resizeThreshold) ==> size <= resizeThreshold
    {
      var value := Get(keyPartA, keyPartB);
      if value == None {
        value := mappingFunction(keyPartA, keyPartB);
        if value != None {
          var stored := Put(keyPartA, keyPartB, value.value);
          if stored.Failure? {
            return stored;
          }
        }
      }
      return Success(value);
    }

    /** The values handed to the consumer, in slot order: each entry's value exactly once. */
    method ForEach() returns (visited: seq<V>)
      requires Working()
      ensures exists ps :: Enumerates(contents, ps, visited)
    {
      visited := [];
      ghost var ps: seq<Pair> := [];
      ghost var ks, vs := keys[..], values[..];
      for i := 0 to values.Length
        invariant Visited(ks, vs, i, ps, visited)
      {
        VisitNext(ks, vs, contents, i, ps, visited);
        if values[i].Some? {
          visited := visited + [values[i].value];
          ps := ps + [Unpack(keys[i])];
        }
      }
      AllVisited(ks, vs, contents, ps, visited);
    }

    /** Double the capacity, unless that overflows. */
    method IncreaseCapacity() returns (r: Result<(), MapError>)
      requires Working() && size <= values.Length
      modifies Repr
      ensures Working() && fresh(Repr - old(Repr))
      ensures contents == old(contents) && size == old(size)
      ensures r == if old(values.Length) == Sizing.MAX_CAPACITY
                   then Failure(MaxCapacityReached(size)) else Success(())
      ensures r.Failure? ==> values.Length == old(values.Length) && resizeThreshold == old(resizeThreshold)
      ensures r.Success? ==> values.Length == 2 * old(values.Length) && Tuned()
    {
      hide Table, Represents, Threshold, IsPow2;
      var newCapacity := Wrap32(2 * values.Length);
      if newCapacity < 0 {
        return Failure(MaxCapacityReached(size));
      }
      CapacityStep(values.Length);
      r := Rehash(newCapacity);
    }

    /** Move every entry to fresh arrays of the given capacity. A negative capacity fails after the
        threshold has been changed. */
    method Rehash(newCapacity: int32) returns (r: Result<(), MapError>)
      requires Stores()
      requires newCapacity == -0x8000_0000
            || (MIN_CAPACITY <= newCapacity <= Sizing.MAX_CAPACITY && IsPow2(newCapacity) && size <= newCapacity)
      modifies Repr
      ensures Stores() && fresh(Repr - old(Repr))
      ensures contents == old(contents) && size == old(size)
      ensures resizeThreshold == Threshold(newCapacity, loadFactor)
      ensures r == if newCapacity < 0 then Failure(NegativeArraySize) else Success(())
      ensures if r.Failure? then keys == old(keys) && values == old(values) else values.Length == newCapacity
      ensures r.Failure? ==> keys[..] == old(keys[..]) && values[..] == old(values[..])
      ensures r.Success? ==> Table(keys[..], values[..], contents)
    {
      hide Table, Represents, Threshold;
      if newCapacity < 0 {
        NegativeThreshold(loadFactor);
        resizeThreshold := Threshold(newCapacity, loadFactor);
        return Failure(NegativeArraySize);
      }
      var tempKeys, tempValues := Rehashed(newCapacity);
      resizeThreshold := Threshold(newCapacity, loadFactor);
      keys := tempKeys;
      values := tempValues;
      Repr := {this, keys, values};
      return Success(());
    }

    /** The loop of `rehash`: fresh arrays holding the same entries, each probed for anew. */
    method Rehashed(newCapacity: int) returns (tempKeys: array<int64>, tempValues: array<Option<V>>)
      requires Stores()
      requires MIN_CAPACITY <= newCapacity <= Sizing.MAX_CAPACITY && IsPow2(newCapacity)
      requires size <= newCapacity
      ensures fresh(tempKeys) && fresh(tempValues) && tempKeys.Length == tempValues.Length == newCapacity
      ensures Table(tempKeys[..], tempValues[..], contents)
      ensures Represents(tempKeys[..], tempValues[..], contents)
    {
      tempKeys := new int64[newCapacity](_ => 0);
      tempValues := new Option<V>[newCapacity](_ => None);
      ghost var placed: map<Pair, V> := map[];
      ghost var ks, vs := keys[..], values[..];
      for i := 0 to values.Length
        invariant tempKeys.Length == tempValues.Length == newCapacity
        invariant fresh(tempKeys) && fresh(tempValues)
        invariant Table(tempKeys[..], tempValues[..], placed)
        invariant PlacedBefore(ks, vs, contents, i, placed)
      {
        PlaceNext(ks, vs, contents, i, placed);
        if values[i].Some? {
          PlaceEntry(tempKeys, tempValues, placed, keys[i], values[i].value);
          placed := placed[Unpack(keys[i]) := values[i].value];
        }
      }
      AllPlaced(ks, vs, contents, placed);
    }

    /** Store an entry in the first null at or after its home slot. */
    static method PlaceEntry(ks: array<int64>, vs: array<Option<V>>, ghost m: map<Pair, V>, key: int64, value: V)
      requires 0 < ks.Length == vs.Length <= Sizing.MAX_CAPACITY && IsPow2(vs.Length)
      requires Table(ks[..], vs[..], m) && Unpack(key) !in m && |m| < vs.Length
      modifies ks, vs
      ensures Table(ks[..], vs[..], m[Unpack(key) := value])
    {
      hide Table, Represents, Home, Unpack, Next;
      ghost var n, oldKs, oldVs := vs.Length, ks[..], vs[..];
      ghost var e := FreeInTable(oldKs, oldVs, m);
      var newHash: nat := Home(key, vs.Length);
      while vs[newHash].Some?
        modifies {}
        invariant newHash < n
        invariant Scanned(oldKs, oldVs, key, Home(key, n), newHash)
        decreases Dist(newHash, e, n)
      {
        NotYetPlaced(oldKs, oldVs, m, key, newHash);
        ScanStep(oldKs, oldVs, key, Home(key, n), newHash, e);
        newHash := Next(newHash, vs.Length);
      }
      InsertTable(oldKs, oldVs, m, key, value, newHash);
      ks[newHash] := key;
      vs[newHash] := Some(value);
      assert ks[..] == oldKs[newHash := key];
      assert vs[..] == oldVs[newHash := Some(value)];
    }

    /** Close the hole left at `deleteIndex`; e is a null that ends the chain. */
    method CompactChain(deleteIndex: nat, ghost e: nat)
      requires Stores() && deleteIndex < values.Length
      requires Chain(Homes(keys[..], values.Length), values[..], deleteIndex, deleteIndex)
      requires values[deleteIndex].None?
      requires e < values.Length && e != deleteIndex && values[e].None?
      modifies keys, values
      ensures Stores() && Table(keys[..], values[..], contents)
    {
      hide Represents, Chain, ShouldMove, Home, Homes, Next;
      var hole: nat := deleteIndex;
      var index: nat := deleteIndex;
      ghost var n := values.Length;
      while true
        invariant index < n && hole < n
        invariant Represents(keys[..], values[..], contents)
        invariant Chain(Homes(keys[..], n), values[..], hole, index)
        invariant values[hole].None?
        invariant e != hole && e != index && values[e].None?
        decreases Dist(index, e, n)
      {
        ghost var ks, vs, scan := keys[..], values[..], index;
        NextIsSuccessor(index, n);
        index := Next(index, values.Length);
        if values[index].None? {
          ChainEnd(Homes(ks, n), vs, hole, scan, index);
          break;
        }

        var key := keys[index];
        var hash := Home(key, values.Length);
        ShiftOrStay(ks, vs, contents, hole, scan, index);
        if ShouldMove(index, hash, hole) {
          keys[hole] := key;
          values[hole] := values[index];
          values[index] := None;
          assert keys[..] == ks[hole := ks[index]];
          assert values[..] == vs[hole := vs[index]][index := None];
          hole := index;
        }
      }
    }
  }

  // ---- loops over all slots --------------------------------------------------------------

  /** `placed` holds exactly the entries found in the first `count` slots. */
  ghost predicate PlacedBefore<V>(ks: seq<int64>, vs: seq<Option<V>>, m: map<Pair, V>, count: nat, placed: map<Pair, V>)
    requires |ks| == |vs|
  {
    && (forall p :: p in placed ==> p in m && m[p] == placed[p])
    && (forall i :: Occupied(vs, i) ==> (i < count <==> Unpack(ks[i]) in placed))
  }

  lemma OneMorePlaced<V>(m: map<Pair, V>, placed: map<Pair, V>, p: Pair)
    requires (forall q :: q in placed ==> q in m) && p in m
    ensures p !in placed ==> |placed| < |m|
  {
    if p !in placed {
      SubsetSize(placed.Keys + {p}, m.Keys);
    }
  }

  lemma PlaceNext<V>(ks: seq<int64>, vs: seq<Option<V>>, m: map<Pair, V>, i: nat, placed: map<Pair, V>)
    requires Represents(ks, vs, m) && i < |vs| && PlacedBefore(ks, vs, m, i, placed)
    ensures vs[i].None? ==> PlacedBefore(ks, vs, m, i + 1, placed)
    ensures vs[i].Some? ==> Unpack(ks[i]) !in placed && |placed| < |m|
    ensures vs[i].Some? ==> PlacedBefore(ks, vs, m, i + 1, placed[Unpack(ks[i]) := vs[i].value])
  {
    if vs[i].Some? {
      assert Occupied(vs, i);
      forall j | Occupied(vs, j) && Unpack(ks[j]) == Unpack(ks[i])
        ensures j == i
      {
        UnpackInjective(ks[i], ks[j]);
      }
      OneMorePlaced(m, placed, Unpack(ks[i]));
    } else {
      assert !Occupied(vs, i);
    }
  }

  lemma AllPlaced<V>(ks: seq<int64>, vs: seq<Option<V>>, m: map<Pair, V>, placed: map<Pair, V>)
    requires Represents(ks, vs, m) && PlacedBefore(ks, vs, m, |vs|, placed)
    ensures placed == m
  {
    forall p | p in m
      ensures p in placed
    {
      assert Stored(ks, vs, p);
    }
  }

  lemma FreeInTable<V>(ks: seq<int64>, vs: seq<Option<V>>, m: map<Pair, V>) returns (e: nat)
    requires Table(ks, vs, m) && |m| < |vs|
    ensures e < |vs| && vs[e].None?
  {
    e := FreeSlot(ks, vs, m);
  }

  lemma NotYetPlaced<V>(ks: seq<int64>, vs: seq<Option<V>>, placed: map<Pair, V>, key: int64, index: nat)
    requires |ks| == |vs| && Table(ks, vs, placed) && Unpack(key) !in placed
    requires index < |vs| && vs[index].Some?
    ensures Occupied(vs, index) && ks[index] != key
  {
  }

  /** `ps` and `visited` list the keys and values of the occupied slots before `count`. */
  ghost predicate Visited<V>(ks: seq<int64>, vs: seq<Option<V>>, count: nat, ps: seq<Pair>, visited: seq<V>)
    requires |ks| == |vs|
  {
    && |ps| == |visited|
    && (forall a, b :: 0 <= a < b < |ps| ==> ps[a] != ps[b])
    && (forall a :: 0 <= a < |ps| ==> VisitedAt(ks, vs, count, ps[a], visited[a]))
    && (forall i :: Occupied(vs, i) && i < count ==> Unpack(ks[i]) in ps)
  }

  ghost predicate VisitedAt<V>(ks: seq<int64>, vs: seq<Option<V>>, count: nat, p: Pair, v: V)
    requires |ks| == |vs|
  {
    exists i :: Occupied(vs, i) && i < count && Unpack(ks[i]) == p && vs[i].value == v
  }

  lemma VisitedEarlier<V>(ks: seq<int64>, vs: seq<Option<V>>, m: map<Pair, V>, i: nat, p: Pair, v: V)
    requires Represents(ks, vs, m) && i < |vs| && VisitedAt(ks, vs, i, p, v)
    ensures VisitedAt(ks, vs, i + 1, p, v)
    ensures vs[i].Some? ==> p != Unpack(ks[i])
  {
    var j :| Occupied(vs, j) && j < i && Unpack(ks[j]) == p && vs[j].value == v;
    UnpackInjective(ks[i], ks[j]);
    assert vs[i].Some? ==> Occupied(vs, i);
  }

  lemma VisitedNow<V>(ks: seq<int64>, vs: seq<Option<V>>, i: nat)
    requires |ks| == |vs| && i < |vs|
    ensures Occupied(vs, i) <==> vs[i].Some?
    ensures vs[i].Some? ==> VisitedAt(ks, vs, i + 1, Unpack(ks[i]), vs[i].value)
  {
    assert vs[i].Some? ==> Occupied(vs, i);
  }

  lemma VisitNext<V>(ks: seq<int64>, vs: seq<Option<V>>, m: map<Pair, V>, i: nat, ps: seq<Pair>, visited: seq<V>)
    requires |ks| == |vs| && Represents(ks, vs, m) && i < |vs| && Visited(ks, vs, i, ps, visited)
    ensures vs[i].None? ==> Visited(ks, vs, i + 1, ps, visited)
    ensures vs[i].Some? ==> Visited(ks, vs, i + 1, ps + [Unpack(ks[i])], visited + [vs[i].value])
  {
    hide Represents, VisitedAt, Unpack;
    forall a | 0 <= a < |ps|
      ensures VisitedAt(ks, vs, i + 1, ps[a], visited[a])
      ensures vs[i].Some? ==> ps[a] != Unpack(ks[i])
    {
      VisitedEarlier(ks, vs, m, i, ps[a], visited[a]);
    }
    VisitedNow(ks, vs, i);
  }

  lemma AllVisited<V>(ks: seq<int64>, vs: seq<Option<V>>, m: map<Pair, V>, ps: seq<Pair>, visited: seq<V>)
    requires Represents(ks, vs, m) && Visited(ks, vs, |vs|, ps, visited)
    ensures Enumerates(m, ps, visited)
  {
    forall a | 0 <= a < |ps|
      ensures ps[a] in m && m[ps[a]] == visited[a]
    {
      assert VisitedAt(ks, vs, |vs|, ps[a], visited[a]);
    }
    forall p | p in m
      ensures p in ps
    {
      assert Stored(ks, vs, p);
    }
    DistinctCount(ps);
    assert (set p | p in ps) == m.Keys;
  }
}
