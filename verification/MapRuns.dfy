/** Whole runs of the map against a plain finite map. */
module MapRuns {
  import opened Wrappers
  import opened JavaInt
  import opened Sizing
  import opened ProbeTable
  import opened BiInt2ObjectMap

  datatype Op<V> =
    | Put(a: int32, b: int32, value: V)
    | Get(a: int32, b: int32)
    | Remove(a: int32, b: int32)
    | ComputeIfAbsent(a: int32, b: int32, mappingFunction: (int32, int32) -> Option<V>)
    | Clear
    | Compact

  /** What a caller sees of an operation: its result, and the size afterwards. */
  datatype Reply<V> = Reply(value: Option<V>, size: nat)

  // ---- the plain map ---------------------------------------------------------------------

  function Effect<V>(m: map<Pair, V>, op: Op<V>): map<Pair, V> {
    match op
    case Put(a, b, value) => m[(a, b) := value]
    case Get(a, b) => m
    case Remove(a, b) => m - {(a, b)}
    case ComputeIfAbsent(a, b, f) =>
      if (a, b) in m || f(a, b).None? then m else m[(a, b) := f(a, b).value]
    case Clear => map[]
    case Compact => m
  }

  function Answer<V>(m: map<Pair, V>, op: Op<V>): Option<V> {
    match op
    case Put(a, b, value) => Lookup(m, (a, b))
    case Get(a, b) => Lookup(m, (a, b))
    case Remove(a, b) => Lookup(m, (a, b))
    case ComputeIfAbsent(a, b, f) => if (a, b) in m then Some(m[(a, b)]) else f(a, b)
    case Clear => None
    case Compact => None
  }

  function After<V>(ops: seq<Op<V>>): map<Pair, V> {
    if ops == [] then map[] else Effect(After(ops[..|ops| - 1]), ops[|ops| - 1])
  }

  /** The replies a plain map gives, operation by operation. */
  function Replies<V>(ops: seq<Op<V>>): seq<Reply<V>> {
    if ops == [] then []
    else
      var before, op := ops[..|ops| - 1], ops[|ops| - 1];
      Replies(before) + [Reply(Answer(After(before), op), |After(ops)|)]
  }

  lemma ExtendRun<V>(ops: seq<Op<V>>, i: nat)
    requires i < |ops|
    ensures After(ops[..i + 1]) == Effect(After(ops[..i]), ops[i])
    ensures Replies(ops[..i + 1])
         == Replies(ops[..i]) + [Reply(Answer(After(ops[..i]), ops[i]), |After(ops[..i + 1])|)]
  {
    assert ops[..i + 1][..i] == ops[..i];
  }

  // ---- the hash map ----------------------------------------------------------------------

  /** Perform one operation; None when growth was refused. */
  method Perform<V>(m: BiInt2ObjectMap<V>, op: Op<V>) returns (reply: Option<Reply<V>>)
    requires m.Compactable()
    modifies m.Repr
    ensures m.Working() && fresh(m.Repr - old(m.Repr))
    ensures m.contents == Effect(old(m.contents), op)
    ensures reply.Some? ==> m.Compactable()
    ensures reply.Some? ==> reply.value == Reply(Answer(old(m.contents), op), |m.contents|)
    ensures reply.None? ==> m.size > Threshold(Sizing.MAX_CAPACITY, m.loadFactor)
    ensures reply.Some? && !op.Compact? && old(m.size <= m.resizeThreshold) ==> m.size <= m.resizeThreshold
    ensures m.size <= old(m.size) + 1
  {
    hide Table, Represents, Threshold, CanCompact, CompactCapacity;
    var value := None;
    match op {
      case Put(a, b, v) =>
        var r := m.Put(a, b, v);
        if r.Failure? {
          return None;
        }
        value := r.value;
      case Get(a, b) =>
        value := m.Get(a, b);
      case Remove(a, b) =>
        value := m.Remove(a, b);
      case ComputeIfAbsent(a, b, f) =>
        var r := m.ComputeIfAbsent(a, b, f);
        if r.Failure? {
          return None;
        }
        value := r.value;
      case Clear =>
        m.Clear();
      case Compact =>
        CompactCapacityCases(m.size, m.loadFactor);
        var compacted := m.Compact();
    }
    return Some(Reply(value, m.size));
  }

  /** Over every run, the hash map answers as the plain map does and ends up holding its entries,
      with a free slot and at most one entry over the resize threshold, or none over it in a run
      without compaction. It stops early only when asked to outgrow the largest capacity. Every
      prefix of a run is itself a run, so all this holds after every operation. */
  method Run<V>(initialCapacity: int32, loadFactor: real, ops: seq<Op<V>>)
      returns (m: BiInt2ObjectMap<V>, replies: seq<Reply<V>>, stopped: bool)
    requires ValidLoadFactor(loadFactor) && initialCapacity <= Sizing.MAX_CAPACITY
    ensures fresh(m) && fresh(m.Repr) && m.Working() && m.loadFactor == loadFactor
    ensures |replies| <= |ops| && replies == Replies(ops[..|replies|])
    ensures !stopped ==> replies == Replies(ops) && m.contents == After(ops)
    ensures !stopped ==> m.Compactable() && m.size < m.values.Length && m.size <= m.resizeThreshold + 1
    ensures !stopped && (forall op :: op in ops ==> !op.Compact?) ==> m.size <= m.resizeThreshold
    ensures stopped ==> |replies| < |ops| && m.contents == After(ops[..|replies| + 1])
    ensures stopped ==> Threshold(Sizing.MAX_CAPACITY, loadFactor) < m.size <= |replies| + 1
  {
    hide Table, Represents, Threshold, CanCompact;
    m := new BiInt2ObjectMap<V>(initialCapacity, loadFactor);
    replies, stopped := [], false;
    for i := 0 to |ops|
      invariant fresh(m) && fresh(m.Repr) && m.Compactable() && m.loadFactor == loadFactor
      invariant |replies| == i && replies == Replies(ops[..i])
      invariant m.contents == After(ops[..i]) && m.size <= i
      invariant (forall op :: op in ops ==> !op.Compact?) ==> m.size <= m.resizeThreshold
    {
      ExtendRun(ops, i);
      var reply := Perform(m, ops[i]);
      match reply
      case None =>
        stopped := true;
        return;
      case Some(r) =>
        replies := replies + [r];
    }
    assert ops[..|ops|] == ops;
  }
}
