/** The fixed-layout, big-endian header that carries the ids of a call and its metadata. */
module ProteusMetadata {
  import opened Wrappers
  import opened JavaInt

  const VERSION_SIZE := 2
  const NAMESPACE_ID_SIZE := 4
  const SERVICE_ID_SIZE := 4
  const METHOD_ID_SIZE := 4
  const METADATA_LENGTH_SIZE := 4

  datatype BufferError = IndexOutOfBounds

  // ---- byte order ------------------------------------------------------------------------

  function ShortBytes(x: char16): (s: seq<byte>)
    ensures |s| == 2
  {
    [x / 0x100, x % 0x100]
  }

  function IntBytes(x: int32): (s: seq<byte>)
    ensures |s| == 4
  {
    var u := Unsigned32(x);
    [u / 0x100_0000, u / 0x1_0000 % 0x100, u / 0x100 % 0x100, u % 0x100]
  }

  function BigEndian(b0: int, b1: int, b2: int, b3: int): int {
    b0 * 0x100_0000 + b1 * 0x1_0000 + b2 * 0x100 + b3
  }

  function IntOf(b: seq<byte>): int32
    requires |b| == 4
  {
    Signed32(BigEndian(b[0], b[1], b[2], b[3]))
  }

  lemma IntBytesRoundTrip(x: int32)
    ensures IntOf(IntBytes(x)) == x
  {
    var u: int := Unsigned32(x);
    var low := u / 0x100;
    var mid := low / 0x100;
    var high := mid / 0x100;
    DivModUnique(u, 0x1_0000, mid, low % 0x100 * 0x100 + u % 0x100);
    DivModUnique(u, 0x100_0000, high, mid % 0x100 * 0x1_0000 + low % 0x100 * 0x100 + u % 0x100);
    assert BigEndian(high, mid % 0x100, low % 0x100, u % 0x100) == u;
  }

  lemma IntOfRoundTrip(b: seq<byte>)
    requires |b| == 4
    ensures IntBytes(IntOf(b)) == b
  {
    var b0: int, b1: int, b2: int, b3: int := b[0], b[1], b[2], b[3];
    var u := BigEndian(b0, b1, b2, b3);
    var low, mid := b0 * 0x1_0000 + b1 * 0x100 + b2, b0 * 0x100 + b1;
    DivModUnique(u, 0x100_0000, b0, b1 * 0x1_0000 + b2 * 0x100 + b3);
    DivModUnique(u, 0x1_0000, mid, b2 * 0x100 + b3);
    DivModUnique(u, 0x100, low, b3);
    DivModUnique(mid, 0x100, b0, b1);
    DivModUnique(low, 0x100, mid, b2);
    assert Unsigned32(IntOf(b)) == u;
  }

  /** The 16-bit value at the front of the buffer, sign bit included. */
  function ShortOf(b: seq<byte>): int
    requires |b| == 2
  {
    var u := BigEndian(0, 0, b[0], b[1]);
    if u < 0x8000 then u else u - 0x1_0000
  }

  // ---- reading ---------------------------------------------------------------------------

  function GetInt(b: seq<byte>, offset: nat): Result<int32, BufferError> {
    if offset + 4 <= |b| then Success(IntOf(b[offset..offset + 4])) else Failure(IndexOutOfBounds)
  }

  function Version(b: seq<byte>): Result<int32, BufferError> {
    if |b| < 2 then Failure(IndexOutOfBounds) else Success(ToUnsignedInt(ShortOf(b[..2])))
  }

  function NamespaceId(b: seq<byte>): Result<int32, BufferError> {
    GetInt(b, VERSION_SIZE)
  }

  function ServiceId(b: seq<byte>): Result<int32, BufferError> {
    GetInt(b, VERSION_SIZE + NAMESPACE_ID_SIZE)
  }

  function MethodId(b: seq<byte>): Result<int32, BufferError> {
    GetInt(b, VERSION_SIZE + NAMESPACE_ID_SIZE + SERVICE_ID_SIZE)
  }

  function Metadata(b: seq<byte>): Result<seq<byte>, BufferError> {
    var offset := VERSION_SIZE + NAMESPACE_ID_SIZE + SERVICE_ID_SIZE + METHOD_ID_SIZE;
    var length := GetInt(b, offset);
    if length.Failure? then Failure(length.error)
    else
      var start := offset + METADATA_LENGTH_SIZE;
      if length.value < 0 || start + length.value > |b| then Failure(IndexOutOfBounds)
      else Success(b[start..start + length.value])
  }

  /** `x & 0x7FFF` */
  function ToUnsignedInt(x: int): (r: int32)
    requires -0x8000 <= x < 0x8000
    ensures 0 <= r < 0x8000
  {
    AndAtMost(Unsigned32(x), 0x7FFF);
    BitAnd(Unsigned32(x), 0x7FFF)
  }

  // ---- what a header looks like ----------------------------------------------------------

  function ComputeLength(): int {
    VERSION_SIZE + NAMESPACE_ID_SIZE + SERVICE_ID_SIZE + METHOD_ID_SIZE + METADATA_LENGTH_SIZE
  }

  /** The fixed part of a header. */
  function Fields(namespaceId: int32, serviceId: int32, methodId: int32, metadataLength: int32): (f: seq<byte>)
    ensures |f| == ComputeLength()
  {
    ShortBytes(1) + IntBytes(namespaceId) + IntBytes(serviceId) + IntBytes(methodId) + IntBytes(metadataLength)
  }

  function Header(namespaceId: int32, serviceId: int32, methodId: int32, metadata: seq<byte>): (h: seq<byte>)
    requires |metadata| < TWO_31
    ensures |h| == ComputeLength() + |metadata|
  {
    Fields(namespaceId, serviceId, methodId, |metadata|) + metadata
  }

  /** The number whose four digits to base 256 stand at a position, the most significant first. */
  ghost predicate NumberAt(b: seq<byte>, at: nat, u: int) {
    at + 4 <= |b| &&
    var b0: int, b1: int, b2: int, b3: int := b[at], b[at + 1], b[at + 2], b[at + 3];
    u == b0 * 0x100_0000 + b1 * 0x1_0000 + b2 * 0x100 + b3
  }

  /** Which byte holds what: the version in the first two, then the ids and the length of the
      metadata in four bytes each, then the metadata. */
  lemma HeaderLayout(namespaceId: int32, serviceId: int32, methodId: int32, metadata: seq<byte>)
    requires |metadata| < TWO_31
    ensures var h := Header(namespaceId, serviceId, methodId, metadata);
            && |h| == 18 + |metadata|
            && h[0] == 0 && h[1] == 1
            && NumberAt(h, 2, Unsigned32(namespaceId))
            && NumberAt(h, 6, Unsigned32(serviceId))
            && NumberAt(h, 10, Unsigned32(methodId))
            && NumberAt(h, 14, |metadata|)
            && h[18..] == metadata
  {
    var h := Header(namespaceId, serviceId, methodId, metadata);
    BytesOfInt(namespaceId);
    BytesOfInt(serviceId);
    BytesOfInt(methodId);
    BytesOfInt(|metadata|);
    hide IntBytes;
    assert h[2..6] == IntBytes(namespaceId);
    assert h[6..10] == IntBytes(serviceId);
    assert h[10..14] == IntBytes(methodId);
    assert h[14..18] == IntBytes(|metadata|);
  }

  lemma BytesOfInt(x: int32)
    ensures NumberAt(IntBytes(x), 0, Unsigned32(x))
  {
    IntBytesRoundTrip(x);
  }

  lemma IntRead(b: seq<byte>, offset: nat)
    ensures if |b| < offset + 4 then GetInt(b, offset) == Failure(IndexOutOfBounds)
            else GetInt(b, offset).Success? && NumberAt(b, offset, Unsigned32(GetInt(b, offset).value))
  {
  }

  /** The version read from any buffer is its first two bytes without the highest bit. */
  lemma VersionRead(b: seq<byte>)
    ensures |b| < 2 ==> Version(b) == Failure(IndexOutOfBounds)
    ensures |b| >= 2 ==> var high: int := b[0]; Version(b) == Success(high % 128 * 256 + b[1])
  {
    if |b| >= 2 {
      var high: int, low: int := b[0], b[1];
      var x := ShortOf(b[..2]);
      assert Pow2(15) == 0x8000;
      hide BitAnd, Pow2;
      MaskIsRemainder(Unsigned32(x), 15);
      var q := if x < 0 then high / 128 + 0x1_FFFE else high / 128;
      DivModUnique(Unsigned32(x), 0x8000, q, high % 128 * 256 + low);
    }
  }

  /** What the other accessors read from any buffer, and when they run past its end. */
  lemma FieldsRead(b: seq<byte>)
    ensures if |b| < 6 then NamespaceId(b) == Failure(IndexOutOfBounds)
            else NamespaceId(b).Success? && NumberAt(b, 2, Unsigned32(NamespaceId(b).value))
    ensures if |b| < 10 then ServiceId(b) == Failure(IndexOutOfBounds)
            else ServiceId(b).Success? && NumberAt(b, 6, Unsigned32(ServiceId(b).value))
    ensures if |b| < 14 then MethodId(b) == Failure(IndexOutOfBounds)
            else MethodId(b).Success? && NumberAt(b, 10, Unsigned32(MethodId(b).value))
    ensures |b| < 18 ==> Metadata(b) == Failure(IndexOutOfBounds)
    ensures forall length :: NumberAt(b, 14, length) ==>
              Metadata(b) == if length < 0x8000_0000 && 18 + length <= |b| then Success(b[18..18 + length])
                             else Failure(IndexOutOfBounds)
  {
    IntRead(b, 2);
    IntRead(b, 6);
    IntRead(b, 10);
    IntRead(b, 14);
    hide GetInt;
  }

  /** All fields are read back from an encoded header, whatever follows it in the buffer. */
  lemma HeaderRoundTrip(namespaceId: int32, serviceId: int32, methodId: int32,
      metadata: seq<byte>, rest: seq<byte>)
    requires |metadata| < TWO_31
    ensures var b := Header(namespaceId, serviceId, methodId, metadata) + rest;
            && Version(b) == Success(1)
            && NamespaceId(b) == Success(namespaceId)
            && ServiceId(b) == Success(serviceId)
            && MethodId(b) == Success(methodId)
            && Metadata(b) == Success(metadata)
  {
    var b := Header(namespaceId, serviceId, methodId, metadata) + rest;
    assert b[..2] == [0, 1];
    assert b[2..6] == IntBytes(namespaceId);
    assert b[6..10] == IntBytes(serviceId);
    assert b[10..14] == IntBytes(methodId);
    assert b[14..18] == IntBytes(|metadata|);
    assert b[18..18 + |metadata|] == metadata;
    IntBytesRoundTrip(namespaceId);
    IntBytesRoundTrip(serviceId);
    IntBytesRoundTrip(methodId);
    IntBytesRoundTrip(|metadata|);
    assert ToUnsignedInt(1) == 1;
  }

  /** Every readable buffer that starts with version bytes 0, 1 is the header of what is read. */
  lemma HeaderOnto(b: seq<byte>)
    requires Metadata(b).Success? && b[..2] == ShortBytes(1)
    ensures NamespaceId(b).Success? && ServiceId(b).Success? && MethodId(b).Success?
    ensures |Metadata(b).value| < TWO_31
    ensures Header(NamespaceId(b).value, ServiceId(b).value, MethodId(b).value, Metadata(b).value) <= b
  {
    var metadata := Metadata(b).value;
    var n := 18 + |metadata|;
    IntOfRoundTrip(b[2..6]);
    IntOfRoundTrip(b[6..10]);
    IntOfRoundTrip(b[10..14]);
    IntOfRoundTrip(b[14..18]);
    assert b[..n] == b[..2] + b[2..6] + b[6..10] + b[10..14] + b[14..18] + b[18..n];
  }

  // ---- writing ---------------------------------------------------------------------------

  /** The readable part of a Netty buffer lies between its two indices. The `set` operations
      overwrite bytes within the capacity and never extend it. */
  class ByteBuf {
    const data: array<byte>
    var readerIndex: nat
    var writerIndex: nat

    constructor (capacity: nat)
      requires capacity < TWO_31
      ensures Valid() && fresh(data) && data.Length == capacity
      ensures readerIndex == writerIndex == 0
    {
      data := new byte[capacity](_ => 0);
      readerIndex, writerIndex := 0, 0;
    }

    ghost predicate Valid()
      reads this
    {
      readerIndex <= writerIndex <= data.Length < TWO_31
    }

    function Readable(): seq<byte>
      requires Valid()
      reads this, data
    {
      data[readerIndex..writerIndex]
    }

    /** Overwrite bytes at an index, all of them or, out of bounds, none. */
    method Set(index: nat, bytes: seq<byte>) returns (ok: bool)
      modifies data
      ensures ok <==> index + |bytes| <= data.Length
      ensures data[..] == if ok then Splice(old(data[..]), index, bytes) else old(data[..])
    {
      if index + |bytes| > data.Length {
        return false;
      }
      for i := 0 to |bytes|
        invariant forall j :: 0 <= j < data.Length ==>
          data[j] == if index <= j < index + i then bytes[j - index] else old(data[j])
      {
        data[index + i] := bytes[i];
      }
      assert data[..] == Splice(old(data[..]), index, bytes);
      return true;
    }
  }

  function Splice(s: seq<byte>, index: nat, bytes: seq<byte>): seq<byte>
    requires index + |bytes| <= |s|
  {
    s[..index] + bytes + s[index + |bytes|..]
  }

  /** `bytes` written over the front of `s`. */
  function Over(bytes: seq<byte>, s: seq<byte>): seq<byte>
    requires |bytes| <= |s|
  {
    bytes + s[|bytes|..]
  }

  lemma OverAppend(before: seq<byte>, s: seq<byte>, bytes: seq<byte>)
    requires |before| + |bytes| <= |s|
    ensures Splice(Over(before, s), |before|, bytes) == Over(before + bytes, s)
  {
  }

  /** How much of a header reaches a buffer of the given capacity: whole fields only. */
  function Fits(capacity: nat, total: nat): (n: nat)
    requires total >= ComputeLength()
    ensures n <= capacity && n <= total
    ensures n == total <==> total <= capacity
  {
    if total <= capacity then total
    else if capacity >= 18 then 18
    else if capacity >= 14 then 14
    else if capacity >= 10 then 10
    else if capacity >= 6 then 6
    else if capacity >= 2 then 2
    else 0
  }

  /** The metadata bytes that follow the fixed fields: those of the metadata buffer, read after
      the fixed fields have been written, which matters when the two buffers share storage. */
  ghost function Payload(fields: seq<byte>, target: seq<byte>, source: seq<byte>, shared: bool, from: nat, to: nat)
      : seq<byte>
    requires from <= to <= |source| && (shared ==> target == source)
  {
    if shared && |fields| <= |target| then Over(fields, target)[from..to] else source[from..to]
  }

  /** Write the header in place. The fields that fit are written, and no byte past the header; the
      call returns the header's length exactly when all of it fits and its end is not before the
      buffer's reader index. Once the metadata is written its buffer is drained. */
  method Encode(byteBuf: ByteBuf, namespaceId: int32, serviceId: int32, methodId: int32, metadata: ByteBuf)
      returns (r: Result<int, BufferError>)
    requires byteBuf.Valid() && metadata.Valid()
    modifies byteBuf`writerIndex, byteBuf.data, metadata`readerIndex
    ensures byteBuf.Valid() && metadata.Valid()
    ensures var f := Fields(namespaceId, serviceId, methodId, |old(metadata.Readable())|);
            var h := f + Payload(f, old(byteBuf.data[..]), old(metadata.data[..]), byteBuf.data == metadata.data,
                                 old(metadata.readerIndex), old(metadata.writerIndex));
            var written := |h| <= byteBuf.data.Length;
            && byteBuf.data[..] == Over(h[..Fits(byteBuf.data.Length, |h|)], old(byteBuf.data[..]))
            && metadata.readerIndex == (if written then old(metadata.writerIndex) else old(metadata.readerIndex))
            && r == (if written && byteBuf.readerIndex <= |h| then Success(|h|) else Failure(IndexOutOfBounds))
            && byteBuf.writerIndex == (if r.Success? then |h| else old(byteBuf.writerIndex))
  {
    hide Fields, Payload, Over, Splice;
    ghost var before, source := byteBuf.data[..], metadata.data[..];
    ghost var shared, from, to := byteBuf.data == metadata.data, metadata.readerIndex, metadata.writerIndex;
    var metadataLength := metadata.writerIndex - metadata.readerIndex;
    ghost var f := Fields(namespaceId, serviceId, methodId, metadataLength);
    PartsOfHeader(f, Payload(f, before, source, shared, from, to));
    var written := SetFields(byteBuf, namespaceId, serviceId, methodId, metadataLength);
    if !written {
      return Failure(IndexOutOfBounds);
    }
    var offset := ComputeLength();

    PayloadRead(f, before, source, shared, from, to, metadata.data[..]);
    var bytes := metadata.data[..][metadata.readerIndex..metadata.writerIndex];
    OverAppendIfFits(f, before, bytes);
    var ok := byteBuf.Set(offset, bytes);
    if !ok {
      return Failure(IndexOutOfBounds);
    }
    metadata.readerIndex := metadata.writerIndex;
    offset := offset + metadataLength;

    if offset < byteBuf.readerIndex {
      return Failure(IndexOutOfBounds);
    }
    byteBuf.writerIndex := offset;
    return Success(offset);
  }

  lemma PartsOfHeader(f: seq<byte>, payload: seq<byte>)
    ensures f[..|f|] == f && (f + payload)[..|f + payload|] == f + payload
    ensures forall n :: 0 <= n <= |f| ==> (f + payload)[..n] == f[..n]
  {
  }

  lemma PayloadRead(f: seq<byte>, target: seq<byte>, source: seq<byte>, shared: bool, from: nat, to: nat,
                    now: seq<byte>)
    requires from <= to <= |source| && (shared ==> target == source) && |f| <= |target|
    requires now == if shared then Over(f, target) else source
    ensures Payload(f, target, source, shared, from, to) == now[from..to]
  {
  }

  /** The five fixed fields, one after the other. */
  method SetFields(byteBuf: ByteBuf, namespaceId: int32, serviceId: int32, methodId: int32, metadataLength: int32)
      returns (ok: bool)
    modifies byteBuf.data
    ensures ok <==> ComputeLength() <= byteBuf.data.Length
    ensures var f := Fields(namespaceId, serviceId, methodId, metadataLength);
            byteBuf.data[..] == Over(f[..Fits(byteBuf.data.Length, |f|)], old(byteBuf.data[..]))
  {
    ghost var before := byteBuf.data[..];
    ghost var f := Fields(namespaceId, serviceId, methodId, metadataLength);
    FieldPrefixes(namespaceId, serviceId, methodId, metadataLength);
    assert before == Over([], before);
    var offset := 0;

    OverAppendIfFits(f[..0], before, ShortBytes(1));
    ok := byteBuf.Set(offset, ShortBytes(1));
    if !ok {
      return;
    }
    offset := offset + VERSION_SIZE;

    OverAppendIfFits(f[..2], before, IntBytes(namespaceId));
    ok := byteBuf.Set(offset, IntBytes(namespaceId));
    if !ok {
      return;
    }
    offset := offset + NAMESPACE_ID_SIZE;

    OverAppendIfFits(f[..6], before, IntBytes(serviceId));
    ok := byteBuf.Set(offset, IntBytes(serviceId));
    if !ok {
      return;
    }
    offset := offset + SERVICE_ID_SIZE;

    OverAppendIfFits(f[..10], before, IntBytes(methodId));
    ok := byteBuf.Set(offset, IntBytes(methodId));
    if !ok {
      return;
    }
    offset := offset + METHOD_ID_SIZE;

    OverAppendIfFits(f[..14], before, IntBytes(metadataLength));
    ok := byteBuf.Set(offset, IntBytes(metadataLength));
  }

  lemma OverAppendIfFits(before: seq<byte>, s: seq<byte>, bytes: seq<byte>)
    requires |before| <= |s|
    ensures |before| + |bytes| <= |s| ==>
              Splice(Over(before, s), |before|, bytes) == Over(before + bytes, s)
  {
    if |before| + |bytes| <= |s| {
      OverAppend(before, s, bytes);
    }
  }

  lemma FieldPrefixes(namespaceId: int32, serviceId: int32, methodId: int32, metadataLength: int32)
    ensures var f := Fields(namespaceId, serviceId, methodId, metadataLength);
            && f[..0] == []
            && f[..2] == f[..0] + ShortBytes(1)
            && f[..6] == f[..2] + IntBytes(namespaceId)
            && f[..10] == f[..6] + IntBytes(serviceId)
            && f[..14] == f[..10] + IntBytes(methodId)
            && f == f[..18] == f[..14] + IntBytes(metadataLength)
  {
  }

  /** A buffer allocated with `computeLength()` bytes, as the generated client does, is large
      enough exactly when there is no metadata to send. */
  method EncodeInAllocated(namespaceId: int32, serviceId: int32, methodId: int32, metadata: ByteBuf)
      returns (r: Result<seq<byte>, BufferError>)
    requires metadata.Valid()
    modifies metadata`readerIndex
    ensures metadata.Valid()
    ensures r == if old(metadata.Readable()) == [] then Success(Header(namespaceId, serviceId, methodId, []))
                 else Failure(IndexOutOfBounds)
    ensures metadata.readerIndex == old(metadata.readerIndex)
  {
    ghost var h := Header(namespaceId, serviceId, methodId, metadata.Readable());
    var metadataBuf := new ByteBuf(ComputeLength());
    var n := Encode(metadataBuf, namespaceId, serviceId, methodId, metadata);
    if n.Failure? {
      return Failure(n.error);
    }
    assert metadataBuf.Readable() == h;
    return Success(metadataBuf.Readable());
  }
}
