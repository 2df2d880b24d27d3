/** PatchEngine::encode and decode of src/patch_engine.cc. */
module PatchCodec {
  import opened Base
  import opened Containers
  import opened Crc
  import opened Cursors
  import opened Endian
  import opened LinearRegister
  import opened PatchPlans
  import opened Readers
  import opened RecordLists

  const MAGIC: seq<Byte> := [0x42, 0x46, 0x50, 0x54]  // "BFPT"

  function KindByte(kind: PatchOperationKind): Byte
  {
    match kind
    case WriteBytes => 0
    case FillBytes => 1
    case WriteInteger => 2
    case CopyBytes => 3
    case AssertBytes => 4
  }

  function KindOf(b: Byte): (r: PatchOperationKind)
    requires b <= 4
    ensures KindByte(r) == b
  {
    if b == 0 then WriteBytes else if b == 1 then FillBytes else if b == 2 then PatchOperationKind.WriteInteger
    else if b == 3 then CopyBytes else AssertBytes
  }

  function OrderByte(order: ByteOrder): Byte
  {
    if order.Little? then 0 else 1
  }

  // ----- the format -----

  /** The last seven bytes of an operation's header. */
  function HeaderTail(op: PatchOperation): (r: seq<Byte>)
    ensures |r| == 7
  {
    [op.width] + ([op.fill] + ([OrderByte(op.byteOrder)] + LittleEndian(|op.bytes| % TWO32, 4)))
  }

  function HeaderNumbers(op: PatchOperation, rest: seq<Byte>): (r: seq<Byte>)
    ensures |r| == 16 + |rest|
  {
    LittleEndian(op.length, 8) + (LittleEndian(op.integer, 8) + rest)
  }

  /** Everything about an operation but its bytes: forty bytes. */
  function OperationHeader(op: PatchOperation): (r: seq<Byte>)
    ensures |r| == 40
  {
    [KindByte(op.kind)]
    + (LittleEndian(op.address, 8) + (LittleEndian(op.sourceAddress, 8) + HeaderNumbers(op, HeaderTail(op))))
  }

  function EncodeOperation(op: PatchOperation): seq<Byte>
  {
    OperationHeader(op) + op.bytes
  }

  function EncodeOperations(ops: seq<PatchOperation>): seq<Byte>
  {
    EncodeList(EncodeOperation, ops, |ops|)
  }

  function PlanHeader(plan: PatchPlan): seq<Byte>
  {
    LittleEndian(1, 4)
    + (LittleEndian(|plan.name| % TWO32, 4)
    + (plan.name
    + (LittleEndian(plan.expectedChecksum, 4)
    + (LittleEndian(plan.bytesWritten, 8)
    + LittleEndian(|plan.operations| % TWO32, 4)))))
  }

  /** What stands between the magic number and the trailer. */
  function Payload(plan: PatchPlan): seq<Byte>
  {
    PlanHeader(plan) + EncodeOperations(plan.operations)
  }

  function Container(plan: PatchPlan): seq<Byte>
  {
    Wrap(MAGIC, Payload(plan))
  }

  // ----- the limits -----

  ghost predicate OperationStorable(limits: Limits, op: PatchOperation)
  {
    |op.bytes| <= limits.maxSectionBytes && |op.bytes| < TWO32
  }

  ghost function StorableTest(limits: Limits): PatchOperation -> bool
  {
    op => OperationStorable(limits, op)
  }

  /** The plan keeps within everything the decoder checks. */
  ghost predicate Storable(limits: Limits, plan: PatchPlan)
  {
    && |plan.name| <= limits.maxStringBytes && |plan.name| < TWO32
    && |plan.operations| <= limits.maxRelocations
    && AllOk(StorableTest(limits), plan.operations)
    && 8 + |Payload(plan)| <= limits.maxFileSize
  }

  /** When encode goes through: the size test after each operation only sees the body. */
  ghost predicate Encodable(limits: Limits, plan: PatchPlan)
  {
    && |plan.name| <= limits.maxStringBytes
    && |plan.operations| <= limits.maxRelocations
    && (|plan.operations| > 0 ==> |MAGIC + Payload(plan)| <= limits.maxFileSize)
  }

  // ----- encoding -----

  /** encode. */
  method Encode(limits: Limits, plan: PatchPlan) returns (r: Result<seq<Byte>>)
    ensures r.Ok? <==> Encodable(limits, plan)
    ensures r.Ok? ==> r.value == Container(plan)
    ensures r.Err? ==> r.code == ResourceLimit
  {
    if |plan.name| > limits.maxStringBytes || |plan.operations| > limits.maxRelocations {
      return Err(ResourceLimit);
    }
    var ops, header := plan.operations, PlanHeader(plan);
    var output := MAGIC + header;
    ghost var start := output;
    for i := 0 to |ops|
      invariant output == start + EncodeList(EncodeOperation, ops, i)
      invariant i > 0 ==> |output| <= limits.maxFileSize
    {
      Associate(start, EncodeList(EncodeOperation, ops, i), EncodeOperation(ops[i]));
      output := output + EncodeOperation(ops[i]);
      if |output| > limits.maxFileSize {
        ListGrows(EncodeOperation, ops, i + 1, |ops|);
        return Err(ResourceLimit);
      }
    }
    Associate(MAGIC, header, EncodeOperations(ops));
    var checksum := Crc32(output);
    return Ok(output + WordBytes(checksum));
  }

  // ----- decoding -----

  ghost predicate TailFields(d: seq<Byte>, p: nat, op: PatchOperation)
  {
    && p + 7 <= |d|
    && d[p] == op.width && d[p + 1] == op.fill && d[p + 2] == OrderByte(op.byteOrder)
    && IntAt(d, p + 3, 4, |op.bytes| % TWO32)
  }

  /** What the forty header bytes at p say. */
  ghost predicate HeaderFields(d: seq<Byte>, p: nat, op: PatchOperation)
  {
    && p + 40 <= |d|
    && d[p] == KindByte(op.kind)
    && IntAt(d, p + 1, 8, op.address) && IntAt(d, p + 9, 8, op.sourceAddress)
    && IntAt(d, p + 17, 8, op.length) && IntAt(d, p + 25, 8, op.integer)
    && TailFields(d, p + 33, op)
  }

  lemma TailMeansFields(d: seq<Byte>, p: nat, op: PatchOperation)
    ensures At(d, p, HeaderTail(op)) <==> TailFields(d, p, op)
  {
    var size := LittleEndian(|op.bytes| % TWO32, 4);
    AtConcat(d, p, [op.width], [op.fill] + ([OrderByte(op.byteOrder)] + size));
    AtConcat(d, p + 1, [op.fill], [OrderByte(op.byteOrder)] + size);
    AtConcat(d, p + 2, [OrderByte(op.byteOrder)], size);
    AtOne(d, p, op.width);
    AtOne(d, p + 1, op.fill);
    AtOne(d, p + 2, OrderByte(op.byteOrder));
  }

  lemma HeaderMeansFields(d: seq<Byte>, p: nat, op: PatchOperation)
    ensures At(d, p, OperationHeader(op)) <==> HeaderFields(d, p, op)
  {
    var tail := HeaderTail(op);
    var numbers := HeaderNumbers(op, tail);
    var source := LittleEndian(op.sourceAddress, 8) + numbers;
    AtConcat(d, p, [KindByte(op.kind)], LittleEndian(op.address, 8) + source);
    AtOne(d, p, KindByte(op.kind));
    AtConcat(d, p + 1, LittleEndian(op.address, 8), source);
    AtConcat(d, p + 9, LittleEndian(op.sourceAddress, 8), numbers);
    AtConcat(d, p + 17, LittleEndian(op.length, 8), LittleEndian(op.integer, 8) + tail);
    AtConcat(d, p + 25, LittleEndian(op.integer, 8), tail);
    TailMeansFields(d, p + 33, op);
  }

  /** An operation stands at p exactly when its fields and its bytes do. */
  lemma OperationMeansFields(d: seq<Byte>, p: nat, op: PatchOperation)
    ensures At(d, p, EncodeOperation(op)) <==> HeaderFields(d, p, op) && At(d, p + 40, op.bytes)
  {
    HeaderMeansFields(d, p, op);
    AtConcat(d, p, OperationHeader(op), op.bytes);
  }

  /** At most one storable operation stands at a position. */
  lemma OperationUnique(limits: Limits, d: seq<Byte>, p: nat, a: PatchOperation, b: PatchOperation)
    requires At(d, p, EncodeOperation(a)) && At(d, p, EncodeOperation(b))
    requires OperationStorable(limits, a) && OperationStorable(limits, b)
    ensures a == b
  {
    OperationMeansFields(d, p, a);
    OperationMeansFields(d, p, b);
    U64Unique(d, p + 1, a.address, b.address);
    U64Unique(d, p + 9, a.sourceAddress, b.sourceAddress);
    U64Unique(d, p + 17, a.length, b.length);
    U64Unique(d, p + 25, a.integer, b.integer);
    U32Unique(d, p + 36, |a.bytes|, |b.bytes|);
    AtUnique(d, p + 40, a.bytes, b.bytes);
  }

  lemma OperationsUnambiguous(limits: Limits)
    ensures Unambiguous(EncodeOperation, StorableTest(limits))
  {
    forall d, p, a, b
      | StorableTest(limits)(a) && StorableTest(limits)(b)
        && At(d, p, EncodeOperation(a)) && At(d, p, EncodeOperation(b))
      ensures a == b
    {
      OperationUnique(limits, d, p, a, b);
    }
  }

  /** The header bytes as read, before the enumerations are checked. */
  datatype RawHeader = RawHeader(
    kind: Byte, address: U64, sourceAddress: U64, length: U64, integer: U64,
    width: Byte, fill: Byte, order: Byte, byteCount: U32)

  ghost predicate RawFields(d: seq<Byte>, p: nat, h: RawHeader)
  {
    && p + 40 <= |d|
    && d[p] == h.kind
    && IntAt(d, p + 1, 8, h.address) && IntAt(d, p + 9, 8, h.sourceAddress)
    && IntAt(d, p + 17, 8, h.length) && IntAt(d, p + 25, 8, h.integer)
    && d[p + 33] == h.width && d[p + 34] == h.fill && d[p + 35] == h.order
    && IntAt(d, p + 36, 4, h.byteCount)
  }

  /** The reads at the top of the decoding loop. */
  method ReadHeader(reader: ByteReader) returns (ok: bool, h: RawHeader)
    requires reader.Valid() && reader.order.Little?
    modifies reader
    ensures reader.Valid()
    ensures ok <==> old(reader.position) + 40 <= |reader.data|
    ensures ok ==> RawFields(reader.data, old(reader.position), h) && reader.position == old(reader.position) + 40
  {
    h := RawHeader(0, 0, 0, 0, 0, 0, 0, 0, 0);
    var kind, width, fill, order: Byte := 0, 0, 0, 0;
    var address, sourceAddress, length, integer: U64 := 0, 0, 0, 0;
    var byteCount: U32 := 0;
    ok, kind := reader.ReadU8();
    if ok { ok, address := reader.ReadFixed(8); }
    if ok { ok, sourceAddress := reader.ReadFixed(8); }
    if ok { ok, length := reader.ReadFixed(8); }
    if ok { ok, integer := reader.ReadFixed(8); }
    if ok { ok, width := reader.ReadU8(); }
    if ok { ok, fill := reader.ReadU8(); }
    if ok { ok, order := reader.ReadU8(); }
    if ok { ok, byteCount := reader.ReadU32(); }
    if ok {
      h := RawHeader(kind, address, sourceAddress, length, integer, width, fill, order, byteCount);
    }
  }

  /** The operation the header and the bytes behind it spell out. */
  function Assembled(h: RawHeader, bytes: Blob): PatchOperation
    requires h.kind <= 4
  {
    PatchOperation(KindOf(h.kind), h.address, h.sourceAddress, h.length, h.integer, h.width, h.fill,
                   if h.order == 0 then Little else Big, bytes)
  }

  lemma AssembledStands(d: seq<Byte>, p: nat, h: RawHeader, bytes: Blob)
    requires RawFields(d, p, h) && h.kind <= 4 && h.order <= 1 && |bytes| == h.byteCount && At(d, p + 40, bytes)
    ensures At(d, p, EncodeOperation(Assembled(h, bytes)))
  {
    OperationMeansFields(d, p, Assembled(h, bytes));
  }

  /** Nothing storable stands at p when one of the decoder's tests fails. */
  lemma NothingStands(limits: Limits, d: seq<Byte>, p: nat, h: RawHeader)
    requires p + 40 <= |d| ==> RawFields(d, p, h)
    requires || p + 40 > |d| || h.byteCount > limits.maxSectionBytes || p + 40 + h.byteCount > |d|
             || h.kind > 4 || h.order > 1
    ensures NoItem(EncodeOperation, StorableTest(limits), d, p)
  {
    forall op | OperationStorable(limits, op) ensures !At(d, p, EncodeOperation(op)) {
      OperationMeansFields(d, p, op);
      if At(d, p, EncodeOperation(op)) { U32Unique(d, p + 36, |op.bytes|, h.byteCount); }
    }
  }

  /** Why no operation is read at p: it is cut short or too long, or else an enumeration is out of range. */
  ghost predicate RecordFails(limits: Limits, d: seq<Byte>, p: nat, code: ErrorCode)
  {
    if p + 40 > |d| then code == Truncated else exists h :: HeaderFails(limits, d, p, h, code)
  }

  ghost predicate HeaderFails(limits: Limits, d: seq<Byte>, p: nat, h: RawHeader, code: ErrorCode)
  {
    && RawFields(d, p, h)
    && if h.byteCount > limits.maxSectionBytes || p + 40 + h.byteCount > |d| then code == Truncated
       else (h.kind > 4 || h.order > 1) && code == InvalidHeader
  }

  /** One turn of the decoding loop: it finds the operation that stands at the cursor, and
      fails only when none does. */
  method DecodeOperation(limits: Limits, reader: ByteReader) returns (r: Result<PatchOperation>)
    requires reader.Valid() && reader.order.Little?
    modifies reader
    ensures reader.Valid()
    ensures r.Ok? ==> OperationStorable(limits, r.value)
    ensures r.Ok? ==> At(reader.data, old(reader.position), EncodeOperation(r.value))
    ensures r.Ok? ==> reader.position == old(reader.position) + |EncodeOperation(r.value)|
    ensures r.Err? ==> NoItem(EncodeOperation, StorableTest(limits), reader.data, old(reader.position))
    ensures r.Err? ==> RecordFails(limits, reader.data, old(reader.position), r.code)
  {
    ghost var d, p := reader.data, reader.position;
    var ok, h := ReadHeader(reader);
    if !ok || h.byteCount > limits.maxSectionBytes || h.byteCount > reader.Remaining() {
      NothingStands(limits, d, p, h);
      assert ok ==> HeaderFails(limits, d, p, h, Truncated);
      return Err(Truncated);
    }
    if h.kind > 4 || h.order > 1 {
      NothingStands(limits, d, p, h);
      assert HeaderFails(limits, d, p, h, InvalidHeader);
      return Err(InvalidHeader);
    }
    var bytes;
    ok, bytes := reader.ReadBytes(h.byteCount);
    AssembledStands(d, p, h, bytes);
    return Ok(Assembled(h, bytes));
  }

  /** The first operations stand at p, fewer than count, and the next one is not read. */
  ghost predicate StopsBehind(limits: Limits, d: seq<Byte>, p: nat, count: nat, done: seq<PatchOperation>,
                              code: ErrorCode)
  {
    && |done| < count && AllOk(StorableTest(limits), done) && At(d, p, EncodeOperations(done))
    && RecordFails(limits, d, p + |EncodeOperations(done)|, code)
  }

  /** The decoding loop. */
  method DecodeOperations(limits: Limits, reader: ByteReader, count: nat)
    returns (r: Result<seq<PatchOperation>>, ghost done: seq<PatchOperation>)
    requires reader.Valid() && reader.order.Little?
    modifies reader
    ensures reader.Valid()
    ensures r.Ok? ==> |r.value| == count && AllOk(StorableTest(limits), r.value)
    ensures r.Ok? ==> At(reader.data, old(reader.position), EncodeOperations(r.value))
    ensures r.Ok? ==> reader.position == old(reader.position) + |EncodeOperations(r.value)|
    ensures r.Err? ==> NoList(EncodeOperation, StorableTest(limits), reader.data, old(reader.position), count)
    ensures r.Err? ==> StopsBehind(limits, reader.data, old(reader.position), count, done, r.code)
  {
    ghost var d, p := reader.data, reader.position;
    var operations: seq<PatchOperation> := [];
    AtEmpty(d, p);
    for index := 0 to count
      invariant reader.Valid() && |operations| == index && AllOk(StorableTest(limits), operations)
      invariant At(d, p, EncodeOperations(operations))
      invariant reader.position == p + |EncodeOperations(operations)|
    {
      var one := DecodeOperation(limits, reader);
      if one.Err? {
        OperationsUnambiguous(limits);
        NoItemNoList(EncodeOperation, StorableTest(limits), d, p, operations, count);
        return Err(one.code), operations;
      }
      OneMore(EncodeOperation, d, p, operations, one.value);
      operations := operations + [one.value];
    }
    return Ok(operations), operations;
  }

  // ----- whole containers -----

  lemma ContainerMeans(data: seq<Byte>, plan: PatchPlan)
    ensures |Container(plan)| == 8 + |Payload(plan)|
    ensures data == Container(plan) <==> Framed(MAGIC, data) && Inner(data) == Payload(plan)
  {
    WrapMeans(MAGIC, data, Payload(plan));
  }

  /** What stands in front of the operations. */
  ghost predicate PlanFields(d: seq<Byte>, plan: PatchPlan)
  {
    var n := |plan.name|;
    && IntAt(d, 0, 4, 1) && IntAt(d, 4, 4, n % TWO32)
    && At(d, 8, plan.name)
    && IntAt(d, 8 + n, 4, plan.expectedChecksum)
    && IntAt(d, 12 + n, 8, plan.bytesWritten)
    && IntAt(d, 20 + n, 4, |plan.operations| % TWO32)
  }

  lemma PlanHeaderMeans(d: seq<Byte>, plan: PatchPlan)
    ensures |PlanHeader(plan)| == 24 + |plan.name|
    ensures At(d, 0, PlanHeader(plan)) <==> PlanFields(d, plan)
  {
    var n := |plan.name|;
    var count := LittleEndian(|plan.operations| % TWO32, 4);
    var h4 := LittleEndian(plan.bytesWritten, 8) + count;
    var h3 := LittleEndian(plan.expectedChecksum, 4) + h4;
    AtConcat(d, 0, LittleEndian(1, 4), LittleEndian(n % TWO32, 4) + (plan.name + h3));
    AtConcat(d, 4, LittleEndian(n % TWO32, 4), plan.name + h3);
    AtConcat(d, 8, plan.name, h3);
    AtConcat(d, 8 + n, LittleEndian(plan.expectedChecksum, 4), h4);
    AtConcat(d, 12 + n, LittleEndian(plan.bytesWritten, 8), count);
  }

  /** The header fields, the operations behind them, and nothing else. */
  ghost predicate PayloadParts(d: seq<Byte>, plan: PatchPlan)
  {
    && PlanFields(d, plan)
    && At(d, 24 + |plan.name|, EncodeOperations(plan.operations))
    && |d| == 24 + |plan.name| + |EncodeOperations(plan.operations)|
  }

  lemma PayloadMeans(d: seq<Byte>, plan: PatchPlan)
    ensures d == Payload(plan) <==> PayloadParts(d, plan)
  {
    PlanHeaderMeans(d, plan);
    AtConcat(d, 0, PlanHeader(plan), EncodeOperations(plan.operations));
    AtSelf(d);
    if At(d, 0, Payload(plan)) && |d| == |Payload(plan)| { AtUnique(d, 0, Payload(plan), d); }
  }

  ghost predicate NoPlan(limits: Limits, data: seq<Byte>)
  {
    forall plan :: Storable(limits, plan) ==> data != Container(plan)
  }

  ghost predicate NoPayload(limits: Limits, d: seq<Byte>)
  {
    forall plan :: Storable(limits, plan) ==> !PayloadParts(d, plan)
  }

  datatype PlanStart = PlanStart(name: Text, expectedChecksum: U32, bytesWritten: U64, count: U32)

  function PlanOf(h: PlanStart, ops: seq<PatchOperation>): PatchPlan
  {
    PatchPlan(h.name, h.expectedChecksum, ops, h.bytesWritten)
  }

  /** The fields in front of the operations are those of h. */
  ghost predicate StartFields(d: seq<Byte>, h: PlanStart)
  {
    var n := |h.name|;
    && 24 + n <= |d| && n < TWO32
    && IntAt(d, 0, 4, 1) && IntAt(d, 4, 4, n)
    && At(d, 8, h.name)
    && IntAt(d, 8 + n, 4, h.expectedChecksum)
    && IntAt(d, 12 + n, 8, h.bytesWritten)
    && IntAt(d, 20 + n, 4, h.count)
  }

  function StartOf(plan: PatchPlan): PlanStart
    requires |plan.name| < TWO32 && |plan.operations| < TWO32
  {
    PlanStart(plan.name, plan.expectedChecksum, plan.bytesWritten, |plan.operations|)
  }

  /** One start can only be read one way. */
  lemma StartUnique(d: seq<Byte>, g: PlanStart, h: PlanStart)
    requires StartFields(d, g) && StartFields(d, h)
    ensures g == h
  {
    var n := |h.name|;
    U32Unique(d, 4, |g.name|, n);
    AtUnique(d, 8, g.name, h.name);
    U32Unique(d, 8 + n, g.expectedChecksum, h.expectedChecksum);
    U64Unique(d, 12 + n, g.bytesWritten, h.bytesWritten);
    U32Unique(d, 20 + n, g.count, h.count);
  }

  lemma StartsAgree(d: seq<Byte>, h: PlanStart, plan: PatchPlan)
    requires StartFields(d, h) && PlanFields(d, plan)
    requires |plan.name| < TWO32 && |plan.operations| < TWO32
    ensures plan == PlanOf(h, plan.operations) && |plan.operations| == h.count
  {
    StartUnique(d, h, StartOf(plan));
  }

  lemma BadVersion(limits: Limits, d: seq<Byte>, version: U32)
    requires |d| < 4 || (IntAt(d, 0, 4, version) && version != 1)
    ensures NoPayload(limits, d)
  {
    forall plan | Storable(limits, plan) ensures !PayloadParts(d, plan) {
      if PayloadParts(d, plan) { U32Unique(d, 0, 1, version); }
    }
  }

  lemma BadName(limits: Limits, d: seq<Byte>, n: U32)
    requires |d| < 8 || (IntAt(d, 4, 4, n) && (n > limits.maxStringBytes || 24 + n > |d|))
    ensures NoPayload(limits, d)
  {
    forall plan | Storable(limits, plan) ensures !PayloadParts(d, plan) {
      if PayloadParts(d, plan) { U32Unique(d, 4, |plan.name|, n); }
    }
  }

  lemma BadCount(limits: Limits, d: seq<Byte>, n: U32, count: U32)
    requires IntAt(d, 4, 4, n) && IntAt(d, 20 + n, 4, count) && count > limits.maxRelocations
    ensures NoPayload(limits, d)
  {
    forall plan | Storable(limits, plan) ensures !PayloadParts(d, plan) {
      if PayloadParts(d, plan) {
        U32Unique(d, 4, |plan.name|, n);
        U32Unique(d, 20 + n, |plan.operations|, count);
      }
    }
  }

  /** Version and name stand in front. */
  ghost predicate NameStands(limits: Limits, d: seq<Byte>, n: U32)
  {
    8 + n <= |d| && IntAt(d, 0, 4, 1) && IntAt(d, 4, 4, n) && n <= limits.maxStringBytes
  }

  /** Everything in front of the operations is acceptable. */
  ghost predicate StartStands(limits: Limits, d: seq<Byte>, h: PlanStart)
  {
    StartFields(d, h) && |h.name| <= limits.maxStringBytes && h.count <= limits.maxRelocations
  }

  ghost predicate CountFails(limits: Limits, d: seq<Byte>, n: U32, count: U32)
  {
    IntAt(d, 20 + n, 4, count) && count > limits.maxRelocations
  }

  /** Behind an acceptable name the fields are cut short, or announce too many operations. */
  ghost predicate StartFails(limits: Limits, d: seq<Byte>, n: U32)
  {
    && NameStands(limits, d, n)
    && (24 + n > |d| || exists count: U32 :: CountFails(limits, d, n, count))
  }

  /** The operations stand, and more behind them. */
  ghost predicate Trailed(limits: Limits, d: seq<Byte>, h: PlanStart, ops: seq<PatchOperation>)
  {
    && StartStands(limits, d, h) && |ops| == h.count && AllOk(StorableTest(limits), ops)
    && At(d, 24 + |h.name|, EncodeOperations(ops)) && |d| > 24 + |h.name| + |EncodeOperations(ops)|
  }

  /** The operations stand up to one that is not read. */
  ghost predicate Halted(limits: Limits, d: seq<Byte>, h: PlanStart, done: seq<PatchOperation>, code: ErrorCode)
  {
    StartStands(limits, d, h) && StopsBehind(limits, d, 24 + |h.name|, h.count, done, code)
  }

  /** Behind the start stands an operation that is not read, or something behind the last one. */
  ghost predicate ListRejected(limits: Limits, d: seq<Byte>, h: PlanStart, code: ErrorCode)
  {
    || (exists done :: Halted(limits, d, h, done, code))
    || (code == InvalidHeader && exists ops :: Trailed(limits, d, h, ops))
  }

  /** Why a payload is turned away: version or name, the count, an operation, or trailing bytes. */
  ghost predicate Rejected(limits: Limits, d: seq<Byte>, code: ErrorCode)
  {
    || (code == InvalidHeader && forall n: U32 :: !NameStands(limits, d, n))
    || (code == ResourceLimit && exists n: U32 :: StartFails(limits, d, n))
    || (exists h :: ListRejected(limits, d, h, code))
  }

  lemma NoName(limits: Limits, d: seq<Byte>, version: U32, n: U32)
    requires |d| >= 4 ==> IntAt(d, 0, 4, version)
    requires |d| >= 8 && version == 1 ==> IntAt(d, 4, 4, n)
    requires |d| < 8 || version != 1 || n > limits.maxStringBytes || 8 + n > |d|
    ensures Rejected(limits, d, InvalidHeader)
  {
    forall m: U32 ensures !NameStands(limits, d, m) {
      if NameStands(limits, d, m) {
        U32Unique(d, 0, 1, version);
        U32Unique(d, 4, m, n);
      }
    }
  }

  /** The three numbers behind the name. */
  method ReadCounts(reader: ByteReader) returns (ok: bool, expectedChecksum: U32, bytesWritten: U64, count: U32)
    requires reader.Valid() && reader.order.Little?
    modifies reader
    ensures reader.Valid() && (ok <==> old(reader.position) + 16 <= |reader.data|)
    ensures ok ==>
              && reader.position == old(reader.position) + 16
              && IntAt(reader.data, old(reader.position), 4, expectedChecksum)
              && IntAt(reader.data, old(reader.position) + 4, 8, bytesWritten)
              && IntAt(reader.data, old(reader.position) + 12, 4, count)
  {
    bytesWritten, count := 0, 0;
    ok, expectedChecksum := reader.ReadU32();
    if ok { ok, bytesWritten := reader.ReadFixed(8); }
    if ok { ok, count := reader.ReadU32(); }
  }

  /** The reads in front of the decoding loop. */
  method ReadStart(limits: Limits, reader: ByteReader) returns (r: Result<PlanStart>)
    requires reader.Valid() && reader.order.Little? && reader.position == 0
    modifies reader
    ensures reader.Valid()
    ensures r.Ok? ==> StartStands(limits, reader.data, r.value) && reader.position == 24 + |r.value.name|
    ensures r.Err? ==> NoPayload(limits, reader.data) && Rejected(limits, reader.data, r.code)
  {
    ghost var d := reader.data;
    var ok, version := reader.ReadU32();
    if !ok || version != 1 {
      BadVersion(limits, d, version);
      NoName(limits, d, version, 0);
      return Err(InvalidHeader);
    }
    var nameSize: U32;
    ok, nameSize := reader.ReadU32();
    if !ok || nameSize > limits.maxStringBytes || nameSize > reader.Remaining() {
      BadName(limits, d, nameSize);
      NoName(limits, d, version, nameSize);
      return Err(InvalidHeader);
    }
    var name;
    ok, name := reader.ReadBytes(nameSize);
    var expectedChecksum, bytesWritten, count;
    ok, expectedChecksum, bytesWritten, count := ReadCounts(reader);
    if !ok {
      BadName(limits, d, nameSize);
      assert StartFails(limits, d, nameSize);
      return Err(ResourceLimit);
    }
    if count > limits.maxRelocations {
      BadCount(limits, d, nameSize, count);
      assert CountFails(limits, d, nameSize, count);
      assert StartFails(limits, d, nameSize);
      return Err(ResourceLimit);
    }
    return Ok(PlanStart(name, expectedChecksum, bytesWritten, count));
  }

  /** decode: finds the plan a container was made from, and rejects only what no storable plan
      encodes to. */
  method Decode(limits: Limits, data: Blob) returns (r: Result<PatchPlan>)
    ensures r.Ok? ==> Storable(limits, r.value) && data == Container(r.value)
    ensures r.Err? ==> NoPlan(limits, data)
    ensures |data| < 28 || |data| > limits.maxFileSize || data[..4] != MAGIC ==> r == Err(BadMagic)
    ensures 28 <= |data| <= limits.maxFileSize && data[..4] == MAGIC && r.Err? ==>
              if Sealed(data) then Rejected(limits, Inner(data), r.code) else r.code == InvalidHeader
  {
    if |data| < 28 || |data| > limits.maxFileSize || data[..4] != MAGIC {
      UnframedNoPlan(limits, data);
      return Err(BadMagic);
    }
    var intact := TrailerMatches(data);
    if !intact {
      UnframedNoPlan(limits, data);
      return Err(InvalidHeader);
    }
    r := DecodeInner(limits, Inner(data));
    if r.Ok? {
      PayloadMeans(Inner(data), r.value);
      ContainerMeans(data, r.value);
    } else {
      NoPayloadNoPlan(limits, data);
    }
  }

  /** The rest of decode, which only sees what the reader covers. */
  method DecodeInner(limits: Limits, d: Blob) returns (r: Result<PatchPlan>)
    ensures r.Ok? ==> PayloadParts(d, r.value) && |r.value.name| <= limits.maxStringBytes && |r.value.name| < TWO32
    ensures r.Ok? ==> |r.value.operations| <= limits.maxRelocations && AllOk(StorableTest(limits), r.value.operations)
    ensures r.Err? ==> NoPayload(limits, d) && Rejected(limits, d, r.code)
  {
    var reader := new ByteReader(d, Little);
    var start := ReadStart(limits, reader);
    if start.Err? { return Err(start.code); }
    var operations;
    ghost var done;
    operations, done := DecodeOperations(limits, reader, start.value.count);
    if operations.Err? {
      BadList(limits, d, start.value);
      assert Halted(limits, d, start.value, done, operations.code);
      assert ListRejected(limits, d, start.value, operations.code);
      return Err(operations.code);
    }
    if reader.Remaining() > 0 {
      TrailingBytes(limits, d, start.value, operations.value);
      assert Trailed(limits, d, start.value, operations.value);
      assert ListRejected(limits, d, start.value, InvalidHeader);
      return Err(InvalidHeader);
    }
    PayloadFound(d, start.value, operations.value);
    return Ok(PlanOf(start.value, operations.value));
  }

  // ----- a payload is turned away for one reason -----

  lemma StartsName(limits: Limits, d: seq<Byte>, h: PlanStart)
    requires StartStands(limits, d, h)
    ensures NameStands(limits, d, |h.name|)
  {
  }

  lemma StartIsWhole(limits: Limits, d: seq<Byte>, h: PlanStart, n: U32)
    requires StartStands(limits, d, h)
    ensures !StartFails(limits, d, n)
  {
    if NameStands(limits, d, n) {
      U32Unique(d, 4, n, |h.name|);
      forall count: U32 ensures !CountFails(limits, d, n, count) {
        if IntAt(d, 20 + n, 4, count) { U32Unique(d, 20 + n, count, h.count); }
      }
    }
  }

  lemma FailingIsNothing(limits: Limits, d: seq<Byte>, p: nat, code: ErrorCode)
    requires RecordFails(limits, d, p, code)
    ensures NoItem(EncodeOperation, StorableTest(limits), d, p)
  {
    if p + 40 <= |d| {
      var h :| HeaderFails(limits, d, p, h, code);
      NothingStands(limits, d, p, h);
    } else {
      NothingStands(limits, d, p, RawHeader(0, 0, 0, 0, 0, 0, 0, 0, 0));
    }
  }

  lemma HaltedMeansNoList(limits: Limits, d: seq<Byte>, h: PlanStart, done: seq<PatchOperation>, code: ErrorCode,
                          n: nat)
    requires Halted(limits, d, h, done, code) && |done| < n
    ensures NoList(EncodeOperation, StorableTest(limits), d, 24 + |h.name|, n)
  {
    OperationsUnambiguous(limits);
    FailingIsNothing(limits, d, 24 + |h.name| + |EncodeOperations(done)|, code);
    NoItemNoList(EncodeOperation, StorableTest(limits), d, 24 + |h.name|, done, n);
  }

  lemma HaltsAtOnePlace(limits: Limits, d: seq<Byte>, h: PlanStart, x: seq<PatchOperation>, a: ErrorCode,
                        y: seq<PatchOperation>, b: ErrorCode)
    requires Halted(limits, d, h, x, a) && Halted(limits, d, h, y, b)
    ensures x == y
  {
    if |x| < |y| { HaltedMeansNoList(limits, d, h, x, a, |y|); }
    if |y| < |x| { HaltedMeansNoList(limits, d, h, y, b, |x|); }
    OperationsUnambiguous(limits);
    SameLists(EncodeOperation, StorableTest(limits), d, 24 + |h.name|, x, y);
  }

  lemma HaltedNotTrailed(limits: Limits, d: seq<Byte>, h: PlanStart, done: seq<PatchOperation>, code: ErrorCode,
                         ops: seq<PatchOperation>)
    requires Halted(limits, d, h, done, code)
    ensures !Trailed(limits, d, h, ops)
  {
    HaltedMeansNoList(limits, d, h, done, code, h.count);
  }

  lemma FailsForOneReason(limits: Limits, d: seq<Byte>, p: nat, a: ErrorCode, b: ErrorCode)
    requires RecordFails(limits, d, p, a) && RecordFails(limits, d, p, b)
    ensures a == b
  {
    if p + 40 <= |d| {
      var g :| HeaderFails(limits, d, p, g, a);
      var h :| HeaderFails(limits, d, p, h, b);
      U32Unique(d, p + 36, g.byteCount, h.byteCount);
    }
  }

  lemma HaltsForOneReason(limits: Limits, d: seq<Byte>, h: PlanStart, x: seq<PatchOperation>, a: ErrorCode,
                          y: seq<PatchOperation>, b: ErrorCode)
    requires Halted(limits, d, h, x, a) && Halted(limits, d, h, y, b)
    ensures a == b
  {
    HaltsAtOnePlace(limits, d, h, x, a, y, b);
    FailsForOneReason(limits, d, 24 + |h.name| + |EncodeOperations(x)|, a, b);
  }

  lemma ListRejectedOnce(limits: Limits, d: seq<Byte>, h: PlanStart, a: ErrorCode, b: ErrorCode)
    requires ListRejected(limits, d, h, a) && ListRejected(limits, d, h, b)
    ensures a == b
  {
    if x :| Halted(limits, d, h, x, a) {
      forall ops ensures !Trailed(limits, d, h, ops) { HaltedNotTrailed(limits, d, h, x, a, ops); }
      var y :| Halted(limits, d, h, y, b);
      HaltsForOneReason(limits, d, h, x, a, y, b);
    } else if y :| Halted(limits, d, h, y, b) {
      forall ops ensures !Trailed(limits, d, h, ops) { HaltedNotTrailed(limits, d, h, y, b, ops); }
    }
  }

  lemma ListRejectedStands(limits: Limits, d: seq<Byte>, h: PlanStart, code: ErrorCode)
    requires ListRejected(limits, d, h, code)
    ensures StartStands(limits, d, h)
  {
  }

  /** Where a start stands, only what follows it decides. */
  lemma RejectedBehindStart(limits: Limits, d: seq<Byte>, h: PlanStart, code: ErrorCode)
    requires StartStands(limits, d, h) && Rejected(limits, d, code)
    ensures ListRejected(limits, d, h, code)
  {
    StartsName(limits, d, h);
    forall n: U32 ensures !StartFails(limits, d, n) { StartIsWhole(limits, d, h, n); }
    var g :| ListRejected(limits, d, g, code);
    ListRejectedStands(limits, d, g, code);
    StartUnique(d, g, h);
  }

  lemma RejectedBefore(limits: Limits, d: seq<Byte>, code: ErrorCode)
    requires Rejected(limits, d, code) && forall h :: !StartStands(limits, d, h)
    ensures code == if exists n: U32 :: StartFails(limits, d, n) then ResourceLimit else InvalidHeader
  {
    if h :| ListRejected(limits, d, h, code) { ListRejectedStands(limits, d, h, code); }
    if n: U32 :| StartFails(limits, d, n) { assert NameStands(limits, d, n); }
  }

  /** The payload alone decides the error. */
  lemma RejectedOnce(limits: Limits, d: seq<Byte>, a: ErrorCode, b: ErrorCode)
    requires Rejected(limits, d, a) && Rejected(limits, d, b)
    ensures a == b
  {
    if h :| StartStands(limits, d, h) {
      RejectedBehindStart(limits, d, h, a);
      RejectedBehindStart(limits, d, h, b);
      ListRejectedOnce(limits, d, h, a, b);
    } else {
      RejectedBefore(limits, d, a);
      RejectedBefore(limits, d, b);
    }
  }

  lemma PayloadFound(d: seq<Byte>, h: PlanStart, ops: seq<PatchOperation>)
    requires StartFields(d, h) && |h.name| < TWO32 && |ops| == h.count
    requires At(d, 24 + |h.name|, EncodeOperations(ops))
    requires |d| == 24 + |h.name| + |EncodeOperations(ops)|
    ensures PayloadParts(d, PlanOf(h, ops))
  {
  }

  /** Containers are framed, never shorter than their fixed parts, and fit the limit when storable. */
  lemma UnframedNoPlan(limits: Limits, data: seq<Byte>)
    requires |data| < 28 || |data| > limits.maxFileSize || data[..4] != MAGIC || !Sealed(data)
    ensures NoPlan(limits, data)
  {
    forall plan | Storable(limits, plan) ensures data != Container(plan) {
      PlanHeaderMeans([], plan);
      ContainerMeans(data, plan);
    }
  }

  lemma NoPayloadNoPlan(limits: Limits, data: seq<Byte>)
    requires |data| >= 8 && NoPayload(limits, Inner(data))
    ensures NoPlan(limits, data)
  {
    forall plan | Storable(limits, plan) ensures data != Container(plan) {
      ContainerMeans(data, plan);
      PayloadMeans(Inner(data), plan);
    }
  }

  lemma BadList(limits: Limits, d: seq<Byte>, h: PlanStart)
    requires StartFields(d, h) && NoList(EncodeOperation, StorableTest(limits), d, 24 + |h.name|, h.count)
    ensures NoPayload(limits, d)
  {
    forall plan | Storable(limits, plan) ensures !PayloadParts(d, plan) {
      NotThisPlan(limits, d, h, plan);
    }
  }

  lemma NotThisPlan(limits: Limits, d: seq<Byte>, h: PlanStart, plan: PatchPlan)
    requires StartFields(d, h) && NoList(EncodeOperation, StorableTest(limits), d, 24 + |h.name|, h.count)
    requires Storable(limits, plan)
    ensures !PayloadParts(d, plan)
  {
    if PayloadParts(d, plan) {
      StartsAgree(d, h, plan);
    }
  }

  lemma TrailingBytes(limits: Limits, d: seq<Byte>, h: PlanStart, ops: seq<PatchOperation>)
    requires StartFields(d, h) && |ops| == h.count && AllOk(StorableTest(limits), ops)
    requires At(d, 24 + |h.name|, EncodeOperations(ops))
    requires |d| > 24 + |h.name| + |EncodeOperations(ops)|
    ensures NoPayload(limits, d)
  {
    forall plan | Storable(limits, plan) ensures !PayloadParts(d, plan) {
      NotWithTrailingBytes(limits, d, h, ops, plan);
    }
  }

  lemma NotWithTrailingBytes(limits: Limits, d: seq<Byte>, h: PlanStart, ops: seq<PatchOperation>, plan: PatchPlan)
    requires StartFields(d, h) && |ops| == h.count && AllOk(StorableTest(limits), ops)
    requires At(d, 24 + |h.name|, EncodeOperations(ops))
    requires |d| > 24 + |h.name| + |EncodeOperations(ops)| && Storable(limits, plan)
    ensures !PayloadParts(d, plan)
  {
    if PayloadParts(d, plan) {
      StartsAgree(d, h, plan);
      OperationsUnambiguous(limits);
      SameLists(EncodeOperation, StorableTest(limits), d, 24 + |h.name|, ops, plan.operations);
      assert false;
    }
  }

  // ----- what follows -----

  lemma PayloadInjective(limits: Limits, d: seq<Byte>, a: PatchPlan, b: PatchPlan)
    requires Storable(limits, a) && Storable(limits, b) && PayloadParts(d, a) && PayloadParts(d, b)
    ensures a == b
  {
    FieldsAgree(d, a, b);
    OperationsUnambiguous(limits);
    SameLists(EncodeOperation, StorableTest(limits), d, 24 + |a.name|, a.operations, b.operations);
  }

  lemma FieldsAgree(d: seq<Byte>, a: PatchPlan, b: PatchPlan)
    requires PlanFields(d, a) && PlanFields(d, b)
    requires |a.name| < TWO32 && |b.name| < TWO32 && |a.operations| < TWO32 && |b.operations| < TWO32
    ensures a == b.(operations := a.operations) && |a.operations| == |b.operations|
  {
    StartUnique(d, StartOf(a), StartOf(b));
  }

  /** Two storable plans with one container are the same plan. */
  lemma ContainerInjective(limits: Limits, a: PatchPlan, b: PatchPlan)
    requires Storable(limits, a) && Storable(limits, b) && Container(a) == Container(b)
    ensures a == b
  {
    ContainerMeans(Container(a), a);
    ContainerMeans(Container(b), b);
    PayloadMeans(Inner(Container(a)), a);
    PayloadMeans(Inner(Container(a)), b);
    PayloadInjective(limits, Inner(Container(a)), a, b);
  }

  /** Whatever decode accepts, encode accepts too; by the contracts of both, it gives back the
      same bytes. */
  lemma StorableIsEncodable(limits: Limits, plan: PatchPlan)
    requires Storable(limits, plan)
    ensures Encodable(limits, plan)
  {
    ContainerMeans([], plan);
  }

  /** No change of a container within four consecutive bytes leaves a container of any plan, so
      decode rejects every such change. */
  lemma CorruptionRejected(limits: Limits, plan: PatchPlan, e: seq<Byte>, i: nat)
    requires DifferOnlyIn(Container(plan), e, i) && Container(plan) != e
    ensures NoPlan(limits, e) && |e| >= 4 && !Sealed(e)
  {
    forall other ensures |e| >= 4 && !Sealed(e) && e != Container(other) {
      ChangeUnwraps(MAGIC, Payload(plan), e, i, Payload(other));
    }
    ChangeUnwraps(MAGIC, Payload(plan), e, i, []);
  }
}
