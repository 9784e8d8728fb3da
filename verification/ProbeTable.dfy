/** Open addressing with linear probing, on the contents of the two backing arrays.

    Slot i is occupied when `vs[i]` is not null; the key of an empty slot is stale and means
    nothing. Distances between slots are measured forwards around the ring. */
module ProbeTable {
  import opened Wrappers
  import opened JavaInt
  import opened Hashing
  import opened Sizing

  type Pair = (int32, int32)

  /** The pair of ints that a stored key stands for. */
  function Unpack(key: int64): Pair {
    (KeyPartA(key), KeyPartB(key))
  }

  lemma UnpackInjective(k: int64, k': int64)
    ensures Unpack(k) == Unpack(k') <==> k == k'
  {
    CompoundKeyOnto(k);
    CompoundKeyOnto(k');
  }

  lemma UnpackPair(keyPartA: int32, keyPartB: int32)
    ensures Unpack(CompoundKey(keyPartA, keyPartB)) == (keyPartA, keyPartB)
  {
    CompoundKeyRoundTrip(keyPartA, keyPartB);
  }

  // ---- positions on the ring -------------------------------------------------------------

  /** Slot where the probe for a key starts. */
  function Home(key: int64, n: int): (h: nat)
    requires 0 < n <= MAX_CAPACITY
    ensures h < n
  {
    HashMasked(key, n - 1)
  }

  /** Where the probe for a pair starts, in terms of its two ints: of the 64-bit product of the
      packed pair and 31, the low half is exclusive-ored with the high half, modulo the capacity. */
  lemma HomeOfPair(keyPartA: int32, keyPartB: int32, n: int)
    requires IsPow2(n) && n <= MAX_CAPACITY
    ensures var a: int, b: int := Unsigned32(keyPartA), Unsigned32(keyPartB);
            var low, high := b * 31 % 0x1_0000_0000, (a * 31 + b * 31 / 0x1_0000_0000) % 0x1_0000_0000;
            Home(CompoundKey(keyPartA, keyPartB), n) == BitXor(low, high) % n
  {
    hide CompoundKey, HashMasked, Fold, BitXor;
    var a, b := Unsigned32(keyPartA), Unsigned32(keyPartB);
    CompoundKeyIsSum(keyPartA, keyPartB);
    FoldOfHalves(a, b, CompoundKey(keyPartA, keyPartB));
    var k: nat :| n == Pow2(k);
    SlotIsRemainder(CompoundKey(keyPartA, keyPartB), k, n);
  }

  /** `++index & mask` */
  function Next(index: nat, n: int): nat
    requires 0 < n
  {
    BitAnd(index + 1, n - 1)
  }

  /** Steps from slot a forwards to slot b. */
  function Dist(a: nat, b: nat, n: nat): int {
    if a <= b then b - a else b - a + n
  }

  lemma NextIsSuccessor(index: nat, n: int)
    requires IsPow2(n) && index < n
    ensures Next(index, n) == if index + 1 == n then 0 else index + 1
  {
    var k: nat :| n == Pow2(k);
    MaskIsRemainder(index + 1, k);
    if index + 1 == n {
      DivModUnique(index + 1, n, 1, 0);
    } else {
      DivModUnique(index + 1, n, 0, index + 1);
    }
  }

  // ---- what the arrays mean --------------------------------------------------------------

  ghost predicate Occupied<V>(vs: seq<Option<V>>, i: int) {
    0 <= i < |vs| && vs[i].Some?
  }

  ghost predicate DistinctKeys<V>(ks: seq<int64>, vs: seq<Option<V>>)
    requires |ks| == |vs|
  {
    forall i, j :: Occupied(vs, i) && Occupied(vs, j) && ks[i] == ks[j] ==> i == j
  }

  ghost predicate Stored<V>(ks: seq<int64>, vs: seq<Option<V>>, p: Pair)
    requires |ks| == |vs|
  {
    exists i :: Occupied(vs, i) && Unpack(ks[i]) == p
  }

  /** The occupied slots are the entries of m, each exactly once. */
  ghost predicate Represents<V>(ks: seq<int64>, vs: seq<Option<V>>, m: map<Pair, V>) {
    && |ks| == |vs|
    && DistinctKeys(ks, vs)
    && (forall i :: Occupied(vs, i) ==> Unpack(ks[i]) in m && m[Unpack(ks[i])] == vs[i].value)
    && (forall p :: p in m ==> Stored(ks, vs, p))
  }

  /** Home slots of the keys in `ks`, stale ones included. */
  ghost function Homes(ks: seq<int64>, n: int): (hs: seq<nat>)
    requires 0 < n <= MAX_CAPACITY
    ensures |hs| == |ks|
    ensures forall i :: 0 <= i < |ks| ==> hs[i] == Home(ks[i], n)
  {
    seq(|ks|, i requires 0 <= i < |ks| => Home(ks[i], n))
  }

  /** Every slot from h up to but excluding i is occupied, except possibly the hole. */
  ghost predicate ClearBut<V>(vs: seq<Option<V>>, h: nat, i: nat, hole: int) {
    forall j: nat :: j < |vs| && j != hole && Dist(h, j, |vs|) < Dist(h, i, |vs|) ==> Occupied(vs, j)
  }

  /** Every slot from h up to but excluding i is occupied. */
  ghost predicate ClearPath<V>(vs: seq<Option<V>>, h: nat, i: nat) {
    ClearBut(vs, h, i, -1)
  }

  /** The probe invariant: every stored key is reached from its home without meeting a null. */
  ghost predicate Reachable<V>(hs: seq<nat>, vs: seq<Option<V>>) {
    && |hs| == |vs|
    && (forall i: nat :: i < |hs| ==> hs[i] < |vs|)
    && (forall i: nat :: Occupied(vs, i) ==> ClearPath(vs, hs[i], i))
  }

  ghost predicate Table<V>(ks: seq<int64>, vs: seq<Option<V>>, m: map<Pair, V>) {
    && 0 < |vs| <= MAX_CAPACITY
    && Represents(ks, vs, m)
    && Reachable(Homes(ks, |vs|), vs)
  }

  /** Where a stored pair is found in the arrays: on the way from its home slot to its entry, which
      may go around the end, no slot is empty. */
  lemma EntryIsOnItsPath<V>(ks: seq<int64>, vs: seq<Option<V>>, m: map<Pair, V>, keyPartA: int32, keyPartB: int32)
      returns (i: nat)
    requires Table(ks, vs, m) && (keyPartA, keyPartB) in m
    ensures i < |vs| == |ks| && ks[i] == CompoundKey(keyPartA, keyPartB)
    ensures vs[i] == Some(m[(keyPartA, keyPartB)])
    ensures var home := Home(CompoundKey(keyPartA, keyPartB), |vs|);
            forall j :: 0 <= j < |vs| && (if home <= i then home <= j < i else home <= j || j < i) ==> vs[j].Some?
  {
    hide Home, CompoundKey, Unpack;
    assert Stored(ks, vs, (keyPartA, keyPartB));
    i :| Occupied(vs, i) && Unpack(ks[i]) == (keyPartA, keyPartB);
    UnpackPair(keyPartA, keyPartB);
    UnpackInjective(ks[i], CompoundKey(keyPartA, keyPartB));
    var home := Home(ks[i], |vs|);
    assert ClearPath(vs, home, i);
    forall j | 0 <= j < |vs| && (if home <= i then home <= j < i else home <= j || j < i)
      ensures vs[j].Some?
    {
      assert Dist(home, j, |vs|) < Dist(home, i, |vs|);
      assert Occupied(vs, j);
    }
  }

  lemma EmptyTable<V>(ks: seq<int64>, vs: seq<Option<V>>)
    requires |ks| == |vs| && 0 < |vs| <= MAX_CAPACITY
    requires forall i :: 0 <= i < |vs| ==> vs[i].None?
    ensures Represents(ks, vs, map[]) && Table(ks, vs, map[])
  {
    assert forall i :: !Occupied(vs, i);
  }

  // ---- free slots ------------------------------------------------------------------------

  lemma SubsetSize<T>(a: set<T>, b: set<T>)
    requires a <= b
    ensures |a| <= |b|
  {
    assert b == a + (b - a);
  }

  lemma {:induction false} DistinctCount<T>(s: seq<T>)
    requires forall a, b :: 0 <= a < b < |s| ==> s[a] != s[b]
    ensures |set x | x in s| == |s|
  {
    if s == [] {
      assert (set x | x in s) == {};
    } else {
      var rest := s[..|s| - 1];
      DistinctCount(rest);
      assert (set x | x in s) == (set x | x in rest) + {s[|s| - 1]};
    }
  }

  lemma FullTableCount<V>(ks: seq<int64>, vs: seq<Option<V>>, m: map<Pair, V>)
    requires Represents(ks, vs, m)
    requires forall i :: 0 <= i < |vs| ==> Occupied(vs, i)
    ensures |m| >= |vs|
  {
    var ps := seq(|ks|, i requires 0 <= i < |ks| => Unpack(ks[i]));
    forall i, j | 0 <= i < j < |ps|
      ensures ps[i] != ps[j]
    {
      UnpackInjective(ks[i], ks[j]);
    }
    DistinctCount(ps);
    SubsetSize((set p | p in ps), m.Keys);
  }

  /** Fewer entries than slots leaves a null, which is what ends every probe. */
  lemma FreeSlot<V>(ks: seq<int64>, vs: seq<Option<V>>, m: map<Pair, V>) returns (e: nat)
    requires Represents(ks, vs, m) && |m| < |vs|
    ensures e < |vs| && vs[e].None?
  {
    if forall i :: 0 <= i < |vs| ==> Occupied(vs, i) {
      FullTableCount(ks, vs, m);
      assert false;
    }
    e :| 0 <= e < |vs| && !Occupied(vs, e);
  }

  // ---- lookup ----------------------------------------------------------------------------

  /** A probe that started at `home` and has arrived at `index` met only other keys. */
  ghost predicate Scanned<V>(ks: seq<int64>, vs: seq<Option<V>>, key: int64, home: nat, index: nat)
    requires |ks| == |vs|
  {
    forall j: nat :: j < |vs| && Dist(home, j, |vs|) < Dist(home, index, |vs|)
      ==> Occupied(vs, j) && ks[j] != key
  }

  /** One step of a probe stays in the scan and gets closer to the next null e. */
  lemma ScanStep<V>(ks: seq<int64>, vs: seq<Option<V>>, key: int64, home: nat, index: nat, e: nat)
    requires |ks| == |vs| && IsPow2(|vs|) && home < |vs|
    requires index < |vs| && Scanned(ks, vs, key, home, index)
    requires Occupied(vs, index) && ks[index] != key
    requires e < |vs| && vs[e].None?
    ensures Next(index, |vs|) < |vs|
    ensures Scanned(ks, vs, key, home, Next(index, |vs|))
    ensures 0 <= Dist(Next(index, |vs|), e, |vs|) < Dist(index, e, |vs|)
  {
    NextIsSuccessor(index, |vs|);
    assert Dist(home, e, |vs|) >= Dist(home, index, |vs|) by {
      assert !Occupied(vs, e);
    }
  }

  /** Meeting a null ends the probe: the key is nowhere in the table. */
  lemma MissMeansAbsent<V>(ks: seq<int64>, vs: seq<Option<V>>, m: map<Pair, V>, key: int64, index: nat)
    requires Table(ks, vs, m)
    requires index < |vs| && vs[index].None? && Scanned(ks, vs, key, Home(key, |vs|), index)
    ensures Unpack(key) !in m
  {
    hide Home, Unpack;
    assert !Occupied(vs, index);
    forall i: nat | Occupied(vs, i)
      ensures Unpack(ks[i]) != Unpack(key)
    {
      UnpackInjective(ks[i], key);
      assert ClearPath(vs, Homes(ks, |vs|)[i], i);
    }
    assert !Stored(ks, vs, Unpack(key));
  }

  // ---- insertion -------------------------------------------------------------------------

  lemma InsertRepresents<V>(ks: seq<int64>, vs: seq<Option<V>>, m: map<Pair, V>,
      key: int64, v: V, index: nat)
    requires Represents(ks, vs, m) && Unpack(key) !in m
    requires index < |vs| && vs[index].None?
    ensures Represents(ks[index := key], vs[index := Some(v)], m[Unpack(key) := v])
  {
    var ks', vs', m' := ks[index := key], vs[index := Some(v)], m[Unpack(key) := v];
    assert forall i :: Occupied(vs', i) <==> i == index || Occupied(vs, i);
    forall p | p in m'
      ensures Stored(ks', vs', p)
    {
      if p == Unpack(key) {
        assert Occupied(vs', index);
      } else {
        assert Stored(ks, vs, p);
        var i :| Occupied(vs, i) && Unpack(ks[i]) == p;
        assert Occupied(vs', i) && ks'[i] == ks[i];
      }
    }
    forall i, j | Occupied(vs', i) && Occupied(vs', j) && ks'[i] == ks'[j]
      ensures i == j
    {
    }
  }

  lemma InsertReachable<V>(hs: seq<nat>, vs: seq<Option<V>>, h: nat, v: V, index: nat)
    requires Reachable(hs, vs) && h < |vs|
    requires index < |vs| && ClearPath(vs, h, index)
    ensures Reachable(hs[index := h], vs[index := Some(v)])
  {
    var hs', vs' := hs[index := h], vs[index := Some(v)];
    assert forall j: nat :: Occupied(vs', j) <==> j == index || Occupied(vs, j);
    forall i: nat | Occupied(vs', i)
      ensures ClearPath(vs', hs'[i], i)
    {
      assert ClearPath(vs, hs'[i], i);
    }
  }

  /** Storing a new key in the null that ended its probe. */
  lemma InsertTable<V>(ks: seq<int64>, vs: seq<Option<V>>, m: map<Pair, V>,
      key: int64, v: V, index: nat)
    requires Table(ks, vs, m) && Unpack(key) !in m
    requires index < |vs| && vs[index].None? && Scanned(ks, vs, key, Home(key, |vs|), index)
    ensures Table(ks[index := key], vs[index := Some(v)], m[Unpack(key) := v])
    ensures Represents(ks[index := key], vs[index := Some(v)], m[Unpack(key) := v])
  {
    InsertRepresents(ks, vs, m, key, v, index);
    InsertReachable(Homes(ks, |vs|), vs, Home(key, |vs|), v, index);
    assert Homes(ks[index := key], |vs|) == Homes(ks, |vs|)[index := Home(key, |vs|)];
  }

  /** Overwriting the value of a stored key. */
  lemma ReplaceTable<V>(ks: seq<int64>, vs: seq<Option<V>>, m: map<Pair, V>, v: V, index: nat)
    requires |ks| == |vs| && Table(ks, vs, m) && Occupied(vs, index)
    ensures Table(ks, vs[index := Some(v)], m[Unpack(ks[index]) := v])
    ensures Represents(ks, vs[index := Some(v)], m[Unpack(ks[index]) := v])
  {
    hide Represents, Home, Unpack;
    var key := ks[index];
    RemoveRepresents(ks, vs, m, index);
    InsertRepresents(ks, vs[index := None], m - {Unpack(key)}, key, v, index);
    assert ks[index := key] == ks;
    assert vs[index := None][index := Some(v)] == vs[index := Some(v)];
    assert (m - {Unpack(key)})[Unpack(key) := v] == m[Unpack(key) := v];
    var hs := Homes(ks, |vs|);
    InsertReachable(hs, vs, hs[index], v, index);
    assert hs[index := hs[index]] == hs;
  }

  /** Storing a value where the probe for its key ended. */
  lemma StoreTable<V>(ks: seq<int64>, vs: seq<Option<V>>, m: map<Pair, V>,
      key: int64, v: V, index: nat)
    requires |ks| == |vs| && Table(ks, vs, m) && index < |vs|
    requires vs[index].Some? ==> ks[index] == key
    requires vs[index].None? ==> Unpack(key) !in m && Scanned(ks, vs, key, Home(key, |vs|), index)
    ensures Table(ks[index := key], vs[index := Some(v)], m[Unpack(key) := v])
    ensures Represents(ks[index := key], vs[index := Some(v)], m[Unpack(key) := v])
  {
    hide Table, Represents, Scanned, Home, Unpack;
    if vs[index].None? {
      InsertTable(ks, vs, m, key, v, index);
    } else {
      ReplaceTable(ks, vs, m, v, index);
      assert ks[index := key] == ks;
    }
  }

  // ---- deletion by backward shift --------------------------------------------------------

  /** The test that decides whether an entry moves into the hole. */
  predicate ShouldMove(index: nat, hash: nat, deleteIndex: nat) {
    || (index < hash && (hash <= deleteIndex || deleteIndex <= index))
    || (hash <= deleteIndex && deleteIndex <= index)
  }

  /** The three comparisons say exactly that the hole lies on the entry's probe path. */
  lemma ShouldMoveIffHoleOnPath(index: nat, hash: nat, deleteIndex: nat, n: nat)
    requires index < n && hash < n && deleteIndex < n && index != deleteIndex
    ensures ShouldMove(index, hash, deleteIndex)
       <==> Dist(hash, deleteIndex, n) < Dist(hash, index, n)
  {
  }

  /** While the chain after a hole is being compacted up to slot `scan`: slots between hole and
      scan are occupied, and the hole interrupts only probe paths of entries beyond scan. */
  ghost predicate Chain<V>(hs: seq<nat>, vs: seq<Option<V>>, hole: nat, scan: nat) {
    var n := |vs|;
    && |hs| == n && hole < n && scan < n
    && (forall i: nat :: i < n ==> hs[i] < n)
    && vs[hole].None?
    && (forall j: nat :: j < n && 0 < Dist(hole, j, n) <= Dist(hole, scan, n) ==> Occupied(vs, j))
    && (forall i: nat :: Occupied(vs, i) ==> ClearBut(vs, hs[i], i, hole))
    && (forall i: nat :: Occupied(vs, i) && Dist(hs[i], hole, n) < Dist(hs[i], i, n)
          ==> Dist(hole, i, n) > Dist(hole, scan, n))
  }

  lemma RemoveRepresents<V>(ks: seq<int64>, vs: seq<Option<V>>, m: map<Pair, V>, index: nat)
    requires Represents(ks, vs, m) && Occupied(vs, index)
    ensures Represents(ks, vs[index := None], m - {Unpack(ks[index])})
  {
    var vs', m' := vs[index := None], m - {Unpack(ks[index])};
    assert forall i :: Occupied(vs', i) <==> i != index && Occupied(vs, i);
    forall i | Occupied(vs', i)
      ensures Unpack(ks[i]) in m' && m'[Unpack(ks[i])] == vs'[i].value
    {
      UnpackInjective(ks[i], ks[index]);
    }
    forall p | p in m'
      ensures Stored(ks, vs', p)
    {
      assert Stored(ks, vs, p);
      var i :| Occupied(vs, i) && Unpack(ks[i]) == p;
      assert Occupied(vs', i);
    }
  }

  lemma MoveRepresents<V>(ks: seq<int64>, vs: seq<Option<V>>, m: map<Pair, V>, hole: nat, next: nat)
    requires Represents(ks, vs, m) && hole < |vs| && vs[hole].None? && Occupied(vs, next)
    ensures Represents(ks[hole := ks[next]], vs[hole := vs[next]][next := None], m)
  {
    var key, v := ks[next], vs[next].value;
    var vs1, m1 := vs[next := None], m - {Unpack(key)};
    RemoveRepresents(ks, vs, m, next);
    InsertRepresents(ks, vs1, m1, key, v, hole);
    assert vs1[hole := Some(v)] == vs[hole := vs[next]][next := None];
    assert m1[Unpack(key) := v] == m;
  }

  /** Nulling the removed entry starts a chain. */
  lemma ChainStart<V>(hs: seq<nat>, vs: seq<Option<V>>, index: nat)
    requires Reachable(hs, vs) && index < |vs|
    ensures Chain(hs, vs[index := None], index, index)
  {
    var vs' := vs[index := None];
    assert forall i :: Occupied(vs', i) <==> i != index && Occupied(vs, i);
    forall i: nat | Occupied(vs', i)
      ensures ClearBut(vs', hs[i], i, index)
    {
      assert ClearPath(vs, hs[i], i);
    }
  }

  lemma StartRemoval<V>(ks: seq<int64>, vs: seq<Option<V>>, m: map<Pair, V>, index: nat)
    requires Table(ks, vs, m) && index < |vs| && vs[index].Some?
    ensures Represents(ks, vs[index := None], m - {Unpack(ks[index])})
    ensures Chain(Homes(ks, |vs|), vs[index := None], index, index)
    ensures Unpack(ks[index]) in m && m[Unpack(ks[index])] == vs[index].value
  {
    assert Occupied(vs, index);
    RemoveRepresents(ks, vs, m, index);
    ChainStart(Homes(ks, |vs|), vs, index);
  }

  /** An entry whose path avoids the hole stays. */
  lemma ChainStay<V>(hs: seq<nat>, vs: seq<Option<V>>, hole: nat, scan: nat, next: nat)
    requires Chain(hs, vs, hole, scan)
    requires next == if scan + 1 == |vs| then 0 else scan + 1
    requires Occupied(vs, next) && !ShouldMove(next, hs[next], hole)
    ensures Chain(hs, vs, hole, next)
  {
    ShouldMoveIffHoleOnPath(next, hs[next], hole, |vs|);
  }

  /** An entry whose path crosses the hole moves into it, and leaves a new hole behind. */
  lemma ChainMove<V>(hs: seq<nat>, vs: seq<Option<V>>, hole: nat, scan: nat, next: nat)
    requires Chain(hs, vs, hole, scan)
    requires next == if scan + 1 == |vs| then 0 else scan + 1
    requires Occupied(vs, next) && ShouldMove(next, hs[next], hole)
    ensures Chain(hs[hole := hs[next]], vs[hole := vs[next]][next := None], next, next)
  {
    var n := |vs|;
    ShouldMoveIffHoleOnPath(next, hs[next], hole, n);
    var hs', vs' := hs[hole := hs[next]], vs[hole := vs[next]][next := None];
    assert forall i :: Occupied(vs', i) <==> i == hole || (i != next && Occupied(vs, i));
    forall i: nat | Occupied(vs', i)
      ensures ClearBut(vs', hs'[i], i, next)
    {
      assert ClearBut(vs, hs'[i], if i == hole then next else i, hole);
    }
  }

  /** Reaching a null after the hole ends the chain with the probe invariant restored. */
  lemma ChainEnd<V>(hs: seq<nat>, vs: seq<Option<V>>, hole: nat, scan: nat, next: nat)
    requires Chain(hs, vs, hole, scan)
    requires next == if scan + 1 == |vs| then 0 else scan + 1
    requires vs[next].None?
    ensures Reachable(hs, vs)
  {
    var n := |vs|;
    assert !Occupied(vs, next) && !Occupied(vs, hole);
    forall i: nat | Occupied(vs, i)
      ensures ClearPath(vs, hs[i], i)
    {
      assert ClearBut(vs, hs[i], i, hole);
      if Dist(hs[i], hole, n) < Dist(hs[i], i, n) {
        assert false;
      }
    }
  }

  /** One step of compaction, on keys and values: the entries stay the same in either case. */
  lemma ShiftOrStay<V>(ks: seq<int64>, vs: seq<Option<V>>, m: map<Pair, V>, hole: nat, scan: nat, next: nat)
    requires 0 < |vs| <= MAX_CAPACITY && |ks| == |vs| && Represents(ks, vs, m)
    requires Chain(Homes(ks, |vs|), vs, hole, scan) && hole < |vs| && vs[hole].None?
    requires next == (if scan + 1 == |vs| then 0 else scan + 1) && Occupied(vs, next)
    ensures var ks', vs' := ks[hole := ks[next]], vs[hole := vs[next]][next := None];
            if ShouldMove(next, Home(ks[next], |vs|), hole)
            then Represents(ks', vs', m) && Chain(Homes(ks', |vs|), vs', next, next)
            else Chain(Homes(ks, |vs|), vs, hole, next)
  {
    hide Chain, Represents, ShouldMove, Home;
    var hs := Homes(ks, |vs|);
    if ShouldMove(next, hs[next], hole) {
      MoveRepresents(ks, vs, m, hole, next);
      ChainMove(hs, vs, hole, scan, next);
      assert Homes(ks[hole := ks[next]], |vs|) == hs[hole := hs[next]];
    } else {
      ChainStay(hs, vs, hole, scan, next);
    }
  }
}
