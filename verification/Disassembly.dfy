/** DisassemblyAnalyzer::analyze of src/disassembly_analyzer.cc, for any decoder. */
module Disassembly {
  import opened Base
  import opened OrderedMaps

  datatype Instruction = Instruction(
    address: U64, size: Byte, branch: bool, call: bool, terminal: bool, target: Option<U64>)
  {
    function End(): nat { address + size }

    /** The block ends here. */
    predicate Stops() { branch || terminal }
  }

  datatype ControlFlowEdge = ControlFlowEdge(source: U64, target: U64, conditional: bool, call: bool, fallthrough: bool)

  datatype BasicBlockInfo = BasicBlockInfo(
    begin: U64, end: U64, instructionCount: nat, complete: bool, outgoing: seq<ControlFlowEdge>)

  datatype DisassemblyReport = DisassemblyReport(
    start: U64, end: U64, bytesDecoded: nat, instructions: seq<Instruction>, blocks: seq<BasicBlockInfo>)

  /** What decode makes of the bytes from some position on, at the given address; None when it fails. */
  type Decoder = (seq<Byte>, U64) -> Option<Instruction>

  /** The one thing the analyzer relies on: a decoded instruction carries the address it was given. */
  ghost predicate KeepsAddress(decode: Decoder)
  {
    forall data, address :: decode(data, address).Some? ==> decode(data, address).value.address == address
  }

  // ----- the linear sweep -----

  /** Instructions without gaps from start to end. */
  ghost predicate Tiled(instructions: seq<Instruction>, start: int, end: int)
  {
    var n := |instructions|;
    && (forall i {:trigger instructions[i]} :: 0 <= i < n ==> 0 < instructions[i].size <= 16)
    && (n == 0 ==> start == end)
    && (n > 0 ==> instructions[0].address == start && instructions[n - 1].End() == end)
    && forall i {:trigger Adjoins(instructions, i)} :: 0 <= i < n - 1 ==> Adjoins(instructions, i)
  }

  /** Instruction i + 1 begins where instruction i ends. */
  predicate Adjoins(instructions: seq<Instruction>, i: int)
    requires 0 <= i < |instructions| - 1
  {
    instructions[i + 1].address == instructions[i].End()
  }

  /** Instruction i is what the decoder finds at its place. */
  ghost predicate DecodedAt(decode: Decoder, data: seq<Byte>, start: U64, x: Instruction)
  {
    start <= x.address && x.End() - start <= |data| && decode(data[x.address - start..], x.address) == Some(x)
  }

  ghost predicate Decoded(decode: Decoder, data: seq<Byte>, start: U64, instructions: seq<Instruction>)
  {
    forall i {:trigger DecodedAt(decode, data, start, instructions[i])} ::
      0 <= i < |instructions| ==> DecodedAt(decode, data, start, instructions[i])
  }

  /** Why the sweep ends: all bytes decoded, the limit reached, or a failed decode. */
  ghost predicate SweepEnds(limits: Limits, decode: Decoder, data: seq<Byte>, start: U64, count: nat, offset: nat)
  {
    || offset == |data|
    || count == limits.maxDisassemblyInstructions
    || (offset < |data| && start + offset < TWO64 && decode(data[offset..], start + offset).None?)
  }

  lemma {:induction false} TilesAscend(instructions: seq<Instruction>, start: int, end: int, i: nat, j: nat)
    requires Tiled(instructions, start, end) && i < j < |instructions|
    ensures instructions[i].End() <= instructions[j].address && instructions[j].End() <= end
    ensures start <= instructions[i].address
    decreases |instructions| - i
  {
    TileInside(instructions, start, end, i);
    TileInside(instructions, start, end, j);
    assert Adjoins(instructions, i);
    if i + 1 < j { TilesAscend(instructions, start, end, i + 1, j); }
  }

  lemma TileInside(instructions: seq<Instruction>, start: int, end: int, i: nat)
    requires Tiled(instructions, start, end) && i < |instructions|
    ensures start <= instructions[i].address && instructions[i].End() <= end
  {
    var n := |instructions|;
    var k := i;
    while k > 0
      invariant 0 <= k <= i && instructions[k].address <= instructions[i].address
    {
      assert Adjoins(instructions, k - 1);
      k := k - 1;
    }
    k := i;
    while k < n - 1
      invariant i <= k < n && instructions[i].End() <= instructions[k].End()
      decreases n - k
    {
      assert Adjoins(instructions, k);
      k := k + 1;
    }
  }

  /** The instructions found so far tile the first offset bytes, each as the decoder reads it. */
  ghost predicate Swept(decode: Decoder, data: seq<Byte>, start: U64, instructions: seq<Instruction>, offset: nat)
  {
    offset <= |data| && Tiled(instructions, start, start + offset) && Decoded(decode, data, start, instructions)
  }

  lemma SweptFurther(decode: Decoder, data: seq<Byte>, start: U64, instructions: seq<Instruction>, offset: nat,
                     x: Instruction)
    requires Swept(decode, data, start, instructions, offset)
    requires x.address == start + offset && 0 < x.size <= 16 && DecodedAt(decode, data, start, x)
    ensures Swept(decode, data, start, instructions + [x], offset + x.size)
  {
    OneMoreTile(instructions, start, start + offset, x);
    OneMoreDecoded(decode, data, start, instructions, x);
  }

  lemma OneMoreTile(instructions: seq<Instruction>, start: int, end: int, x: Instruction)
    requires Tiled(instructions, start, end) && x.address == end && 0 < x.size <= 16
    ensures Tiled(instructions + [x], start, x.End())
  {
    var all := instructions + [x];
    forall i | 0 <= i < |instructions| ensures Adjoins(all, i) {
      if i < |instructions| - 1 { assert Adjoins(instructions, i); }
    }
  }

  lemma OneMoreDecoded(decode: Decoder, data: seq<Byte>, start: U64, instructions: seq<Instruction>, x: Instruction)
    requires Decoded(decode, data, start, instructions) && DecodedAt(decode, data, start, x)
    ensures Decoded(decode, data, start, instructions + [x])
  {
    var all := instructions + [x];
    forall i | 0 <= i < |all| ensures DecodedAt(decode, data, start, all[i]) {
      if i < |instructions| { assert all[i] == instructions[i]; }
    }
  }

  predicate BadLength(x: Instruction, remaining: int)
  {
    x.size == 0 || x.size > remaining || x.size > 16
  }

  /** The turn at offset fails: the address does not fit, or the decoder returns a bad length. */
  ghost predicate TurnFails(decode: Decoder, data: seq<Byte>, address: U64, offset: nat, code: ErrorCode)
  {
    && offset < |data|
    && if address + offset >= TWO64 then code == AddressOverflow
       else
         var decoded := decode(data[offset..], address + offset);
         code == InvalidOffset && decoded.Some? && BadLength(decoded.value, |data| - offset)
  }

  /** The sweep got to offset, short of the instruction limit, and failed there. */
  ghost predicate SweepFails(limits: Limits, decode: Decoder, data: seq<Byte>, address: U64, done: seq<Instruction>,
                             offset: nat, code: ErrorCode)
  {
    && Swept(decode, data, address, done, offset) && |done| < limits.maxDisassemblyInstructions
    && TurnFails(decode, data, address, offset, code)
  }

  /** The sweep ended at offset without a failure. */
  ghost predicate SweepCompletes(limits: Limits, decode: Decoder, data: seq<Byte>, address: U64,
                                 done: seq<Instruction>, offset: nat)
  {
    && Swept(decode, data, address, done, offset) && |done| <= limits.maxDisassemblyInstructions
    && SweepEnds(limits, decode, data, address, |done|, offset)
  }

  /** One turn of the loop: nothing when the decoder fails. */
  method DecodeNext(decode: Decoder, data: Blob, address: U64, offset: nat) returns (r: Result<Option<Instruction>>)
    requires KeepsAddress(decode) && offset < |data|
    ensures r.Ok? && r.value.Some? ==>
              r.value.value.address == address + offset && 0 < r.value.value.size <= 16
              && DecodedAt(decode, data, address, r.value.value)
    ensures r.Ok? && r.value.None? ==> address + offset < TWO64 && decode(data[offset..], address + offset).None?
    ensures r.Err? ==> TurnFails(decode, data, address, offset, r.code)
  {
    var instructionAddress := CheckedAdd(address, offset);
    if instructionAddress.None? { return Err(AddressOverflow); }
    var decoded := decode(data[offset..], instructionAddress.value);
    if decoded.None? { return Ok(None); }
    var x := decoded.value;
    if BadLength(x, |data| - offset) { return Err(InvalidOffset); }
    return Ok(Some(x));
  }

  /** The decoding loop. */
  method Sweep(limits: Limits, decode: Decoder, data: Blob, address: U64)
    returns (r: Result<seq<Instruction>>, offset: nat)
    requires KeepsAddress(decode)
    ensures r.Ok? ==>
              SweepCompletes(limits, decode, data, address, r.value, offset)
    ensures r.Err? ==> exists done :: SweepFails(limits, decode, data, address, done, offset, r.code)
  {
    offset := 0;
    var instructions: seq<Instruction> := [];
    while offset < |data| && |instructions| < limits.maxDisassemblyInstructions
      invariant |instructions| <= limits.maxDisassemblyInstructions
      invariant Swept(decode, data, address, instructions, offset)
      decreases |data| - offset
    {
      var next := DecodeNext(decode, data, address, offset);
      if next.Err? {
        assert SweepFails(limits, decode, data, address, instructions, offset, next.code);
        return Err(next.code), offset;
      }
      if next.value.None? { return Ok(instructions), offset; }
      SweptFurther(decode, data, address, instructions, offset, next.value.value);
      offset := offset + next.value.value.size;
      instructions := instructions + [next.value.value];
    }
    return Ok(instructions), offset;
  }

  // ----- the sweep is determined -----

  /** Instruction k begins where the one before it ends. */
  lemma TileAt(instructions: seq<Instruction>, start: int, end: int, k: nat)
    requires Tiled(instructions, start, end) && k <= |instructions|
    ensures k < |instructions| ==>
              instructions[k].address == if k == 0 then start else instructions[k - 1].End()
    ensures k == |instructions| ==> end == if k == 0 then start else instructions[k - 1].End()
  {
    if 0 < k < |instructions| { assert Adjoins(instructions, k - 1); }
  }

  /** At one address there is one instruction that is good. */
  ghost predicate Deterministic(good: Instruction -> bool)
  {
    forall x, y {:trigger good(x), good(y)} :: good(x) && good(y) && x.address == y.address ==> x == y
  }

  ghost predicate AllGood(good: Instruction -> bool, instructions: seq<Instruction>)
  {
    forall i {:trigger instructions[i]} :: 0 <= i < |instructions| ==> good(instructions[i])
  }

  /** Two tilings by good instructions agree as far as both go. */
  lemma {:induction false} TilingsAgree(good: Instruction -> bool, start: int, a: seq<Instruction>, i: int,
                                        b: seq<Instruction>, j: int, k: nat)
    requires Deterministic(good) && AllGood(good, a) && AllGood(good, b)
    requires Tiled(a, start, i) && Tiled(b, start, j) && k < |a| && k < |b|
    ensures a[k] == b[k]
    decreases k
  {
    if k > 0 { TilingsAgree(good, start, a, i, b, j, k - 1); }
    TileAt(a, start, i, k);
    TileAt(b, start, j, k);
  }

  /** The longer of the two goes on where the shorter one ends. */
  lemma LongerGoesOn(good: Instruction -> bool, start: int, a: seq<Instruction>, i: int, b: seq<Instruction>, j: int)
    requires Deterministic(good) && AllGood(good, a) && AllGood(good, b)
    requires Tiled(a, start, i) && Tiled(b, start, j) && |a| < |b|
    ensures b[|a|].address == i && 0 < b[|a|].size <= 16
  {
    TileAt(a, start, i, |a|);
    TileAt(b, start, j, |a|);
    if a != [] { TilingsAgree(good, start, a, i, b, j, |a| - 1); }
  }

  lemma SameTiling(good: Instruction -> bool, start: int, a: seq<Instruction>, i: int, b: seq<Instruction>, j: int)
    requires Deterministic(good) && AllGood(good, a) && AllGood(good, b)
    requires Tiled(a, start, i) && Tiled(b, start, j) && |a| == |b|
    ensures a == b && i == j
  {
    forall k | 0 <= k < |a| ensures a[k] == b[k] { TilingsAgree(good, start, a, i, b, j, k); }
    TileAt(a, start, i, |a|);
    TileAt(b, start, j, |b|);
  }

  /** What the decoder reads is good in that sense. */
  lemma ReadIsGood(decode: Decoder, data: seq<Byte>, start: U64, a: seq<Instruction>, b: seq<Instruction>)
    returns (good: Instruction -> bool)
    requires Decoded(decode, data, start, a) && Decoded(decode, data, start, b)
    ensures Deterministic(good) && AllGood(good, a) && AllGood(good, b)
  {
    good := x => DecodedAt(decode, data, start, x);
  }

  /** The sweep went as far as it goes. */
  ghost predicate Stopped(limits: Limits, decode: Decoder, data: seq<Byte>, address: U64, done: seq<Instruction>,
                          offset: nat)
  {
    || SweepCompletes(limits, decode, data, address, done, offset)
    || SweepFails(limits, decode, data, address, done, offset, AddressOverflow)
    || SweepFails(limits, decode, data, address, done, offset, InvalidOffset)
  }

  lemma SweptLonger(decode: Decoder, data: seq<Byte>, address: U64, a: seq<Instruction>, i: nat,
                    b: seq<Instruction>, j: nat)
    requires Swept(decode, data, address, a, i) && Swept(decode, data, address, b, j) && |a| < |b|
    ensures b[|a|].address == address + i && 0 < b[|a|].size <= 16
  {
    var good := ReadIsGood(decode, data, address, a, b);
    LongerGoesOn(good, address, a, address + i, b, address + j);
  }

  lemma SweptSame(decode: Decoder, data: seq<Byte>, address: U64, a: seq<Instruction>, i: nat,
                  b: seq<Instruction>, j: nat)
    requires Swept(decode, data, address, a, i) && Swept(decode, data, address, b, j) && |a| == |b|
    ensures a == b && i == j
  {
    var good := ReadIsGood(decode, data, address, a, b);
    SameTiling(good, address, a, address + i, b, address + j);
  }

  /** Where another instruction is read, the sweep does not stop. */
  lemma GoesOn(limits: Limits, decode: Decoder, data: seq<Byte>, address: U64, a: seq<Instruction>, i: nat,
               x: Instruction)
    requires |a| < limits.maxDisassemblyInstructions
    requires x.address == address + i && 0 < x.size <= 16 && DecodedAt(decode, data, address, x)
    ensures !Stopped(limits, decode, data, address, a, i)
  {
    assert decode(data[i..], address + i) == Some(x) && !BadLength(x, |data| - i);
  }

  lemma NotLonger(limits: Limits, decode: Decoder, data: seq<Byte>, address: U64, a: seq<Instruction>, i: nat,
                  b: seq<Instruction>, j: nat)
    requires Stopped(limits, decode, data, address, a, i) && Swept(decode, data, address, b, j)
    requires |b| <= limits.maxDisassemblyInstructions
    ensures |b| <= |a|
  {
    if |a| < |b| {
      SweptLonger(decode, data, address, a, i, b, j);
      GoesOn(limits, decode, data, address, a, i, b[|a|]);
    }
  }

  /** Where the sweep stops, and with which instructions, is decided by the bytes and the decoder. */
  lemma SweepDetermined(limits: Limits, decode: Decoder, data: seq<Byte>, address: U64, a: seq<Instruction>, i: nat,
                        b: seq<Instruction>, j: nat)
    requires Stopped(limits, decode, data, address, a, i) && Stopped(limits, decode, data, address, b, j)
    ensures a == b && i == j
  {
    NotLonger(limits, decode, data, address, a, i, b, j);
    NotLonger(limits, decode, data, address, b, j, a, i);
    SweptSame(decode, data, address, a, i, b, j);
  }

  lemma FailsOrEnds(limits: Limits, decode: Decoder, data: seq<Byte>, address: U64, count: nat, offset: nat,
                    code: ErrorCode)
    requires count < limits.maxDisassemblyInstructions && TurnFails(decode, data, address, offset, code)
    ensures !SweepEnds(limits, decode, data, address, count, offset)
    ensures code == AddressOverflow || code == InvalidOffset
  {
  }

  /** So a sweep that fails does not complete. */
  lemma FailingIsNotCompleting(limits: Limits, decode: Decoder, data: seq<Byte>, address: U64, a: seq<Instruction>,
                               i: nat, code: ErrorCode, b: seq<Instruction>, j: nat)
    requires SweepFails(limits, decode, data, address, a, i, code)
    ensures !SweepCompletes(limits, decode, data, address, b, j)
  {
    FailsOrEnds(limits, decode, data, address, |a|, i, code);
    if SweepCompletes(limits, decode, data, address, b, j) {
      SweepDetermined(limits, decode, data, address, a, i, b, j);
    }
  }

  // ----- leaders -----

  /** start, the targets inside the swept range, and what follows a branch that can fall through. */
  ghost predicate IsLeader(instructions: seq<Instruction>, start: int, end: int, a: int)
  {
    || a == start
    || (exists i {:trigger instructions[i]} :: 0 <= i < |instructions| &&
          (Targets(instructions[i], start, end, a) || FallsTo(instructions[i], a)))
  }

  predicate Targets(x: Instruction, start: int, end: int, a: int)
  {
    x.target.Some? && x.target.value == a && start <= a < end
  }

  predicate FallsTo(x: Instruction, a: int)
  {
    x.branch && !x.terminal && x.End() == a
  }

  ghost predicate IndexOf(instructions: seq<Instruction>, n: nat, at: map<U64, nat>)
    requires n <= |instructions|
  {
    && (forall i {:trigger instructions[i]} :: 0 <= i < n ==>
          instructions[i].address in at && at[instructions[i].address] == i)
    && (forall a {:trigger at[a]} :: a in at ==> at[a] < n && instructions[at[a]].address == a)
  }

  /** The two loops over the instructions. The first one also adds those targets that lie at or
      before the instruction they are found in; the second one adds them again. */
  method CollectLeaders(instructions: seq<Instruction>, start: U64, end: U64)
    returns (leaders: set<U64>, at: map<U64, nat>)
    requires Tiled(instructions, start, end)
    ensures forall a: U64 :: a in leaders <==> IsLeader(instructions, start, end, a)
    ensures IndexOf(instructions, |instructions|, at)
  {
    leaders, at := {start}, map[];
    for index := 0 to |instructions|
      invariant IndexOf(instructions, index, at)
      invariant start in leaders
      invariant forall a: U64 :: a in leaders ==> IsLeader(instructions, start, end, a)
      invariant forall i, a: U64 {:trigger FallsTo(instructions[i], a)} ::
                  0 <= i < index && FallsTo(instructions[i], a) ==> a in leaders
    {
      var x := instructions[index];
      TileInside(instructions, start, end, index);
      NewAddress(instructions, start, end, index, at);
      at := at[x.address := index];
      var fallthrough := CheckedAdd(x.address, x.size);
      if x.target.Some? && x.target.value in at {
        var t := at[x.target.value];
        TileInside(instructions, start, end, t);
        assert Targets(instructions[index], start, end, x.target.value);
        leaders := leaders + {x.target.value};
      }
      if x.branch && !x.terminal {
        assert FallsTo(instructions[index], fallthrough.value);
        leaders := leaders + {fallthrough.value};
      }
    }
    for index := 0 to |instructions|
      invariant start in leaders
      invariant forall a: U64 :: a in leaders ==> IsLeader(instructions, start, end, a)
      invariant forall i, a: U64 {:trigger FallsTo(instructions[i], a)} ::
                  0 <= i < |instructions| && FallsTo(instructions[i], a) ==> a in leaders
      invariant forall i, a: U64 {:trigger Targets(instructions[i], start, end, a)} ::
                  0 <= i < index && Targets(instructions[i], start, end, a) ==> a in leaders
    {
      var x := instructions[index];
      if x.target.Some? && start <= x.target.value < end {
        assert Targets(instructions[index], start, end, x.target.value);
        leaders := leaders + {x.target.value};
      }
    }
  }

  lemma NewAddress(instructions: seq<Instruction>, start: int, end: int, n: nat, at: map<U64, nat>)
    requires Tiled(instructions, start, end) && n < |instructions| && IndexOf(instructions, n, at)
    ensures instructions[n].address !in at
    ensures IndexOf(instructions, n + 1, at[instructions[n].address := n])
  {
    if instructions[n].address in at { TilesAscend(instructions, start, end, at[instructions[n].address], n); }
  }

  // ----- blocks -----

  /** The least leader behind a, or the end of the swept range. */
  ghost predicate IsNextLeader(leaders: set<U64>, end: U64, a: U64, next: U64)
  {
    && ((next in leaders && a < next) || (next == end && forall l :: l in leaders ==> l <= a))
    && forall l :: l in leaders && a < l ==> next <= l
  }

  function TargetEdges(instructions: seq<Instruction>, first: nat, n: nat): seq<ControlFlowEdge>
    requires first + n <= |instructions|
  {
    if n == 0 then []
    else TargetEdges(instructions, first, n - 1) + TargetEdge(instructions[first + n - 1])
  }

  /** The edge out of the end of a block: behind a stop that is a call or can fall through, or
      into the next leader when the block runs up to it. */
  function EndEdges(last: Instruction, end: U64, next: U64): seq<ControlFlowEdge>
  {
    if last.Stops() then
      if !last.terminal || last.call then [ControlFlowEdge(last.address, end, false, false, true)] else []
    else if end == next then [ControlFlowEdge(end, next, false, false, true)]
    else []
  }

  /** The block that starts at instruction first runs on to the first stop, or to the last
      instruction in front of the next leader. */
  ghost predicate IsBlock(instructions: seq<Instruction>, first: nat, next: U64, b: BasicBlockInfo)
  {
    var n := b.instructionCount;
    && 0 < n && first + n <= |instructions|
    && b.begin == instructions[first].address && b.end == instructions[first + n - 1].End()
    && (forall i {:trigger instructions[i]} :: first <= i < first + n - 1 ==> !instructions[i].Stops())
    && (forall i {:trigger instructions[i]} :: first < i < first + n ==> instructions[i].address < next)
    && (b.complete <==> instructions[first + n - 1].Stops())
    && (b.complete || first + n == |instructions| || instructions[first + n].address >= next)
    && b.outgoing == TargetEdges(instructions, first, n) + EndEdges(instructions[first + n - 1], b.end, next)
  }

  /** n instructions from first on belong to the block, and none of them stops it. */
  ghost predicate Growing(instructions: seq<Instruction>, first: nat, n: nat, next: U64)
  {
    && first + n <= |instructions|
    && (forall i {:trigger instructions[i]} :: first <= i < first + n ==> !instructions[i].Stops())
    && (forall i {:trigger instructions[i]} :: first < i < first + n ==> instructions[i].address < next)
  }

  lemma BlockDone(instructions: seq<Instruction>, first: nat, n: nat, next: U64, b: BasicBlockInfo)
    requires n > 0 && first + n <= |instructions| && Growing(instructions, first, n - 1, next)
    requires n == 1 || instructions[first + n - 1].address < next
    requires || instructions[first + n - 1].Stops() || first + n == |instructions|
             || instructions[first + n].address >= next
    requires b.begin == instructions[first].address && b.end == instructions[first + n - 1].End()
    requires b.instructionCount == n && b.complete == instructions[first + n - 1].Stops()
    requires b.outgoing == TargetEdges(instructions, first, n) + EndEdges(instructions[first + n - 1], b.end, next)
    ensures IsBlock(instructions, first, next, b)
  {
  }

  /** The edge an instruction with a target gives. */
  function TargetEdge(x: Instruction): seq<ControlFlowEdge>
  {
    if x.target.None? then []
    else [ControlFlowEdge(x.address, x.target.value, x.branch && !x.terminal && !x.call, x.call, false)]
  }

  /** The inner loop: the block of one leader. */
  method BuildBlock(instructions: seq<Instruction>, start: U64, end: U64, first: nat,
                    next: U64) returns (b: BasicBlockInfo)
    requires Tiled(instructions, start, end) && first < |instructions|
    ensures IsBlock(instructions, first, next, b)
  {
    var n: nat, complete := 0, false;
    ghost var before: nat := 0;
    var blockEnd: U64 := 0;
    var outgoing: seq<ControlFlowEdge> := [];
    while first + n < |instructions| && !complete && (instructions[first + n].address < next || n == 0)
      invariant first + n <= |instructions| && (n == 0 ==> !complete)
      invariant Growing(instructions, first, before, next) && before == if complete then n - 1 else n
      invariant n > 0 ==> blockEnd == instructions[first + n - 1].End()
      invariant n > 1 ==> instructions[first + n - 1].address < next
      invariant n > 0 ==> complete == instructions[first + n - 1].Stops()
      invariant outgoing == TargetEdges(instructions, first, n)
      decreases |instructions| - n
    {
      var x := instructions[first + n];
      TileInside(instructions, start, end, first + n);
      n := n + 1;
      var sum := CheckedAdd(x.address, x.size);
      blockEnd := sum.value;
      outgoing := outgoing + TargetEdge(x);
      complete := x.Stops();
      if !complete { before := n; }
    }
    if !complete { before := n - 1; }
    outgoing := outgoing + EndEdges(instructions[first + n - 1], blockEnd, next);
    b := BasicBlockInfo(instructions[first].address, blockEnd, n, complete, outgoing);
    BlockDone(instructions, first, n, next, b);
  }

  /** Block k of the report is the block of instruction firsts[k], and these are exactly the
      instructions that stand at a leader, in order. */
  ghost predicate BlocksOf(instructions: seq<Instruction>, leaders: set<U64>, end: U64, bound: int,
                           firsts: seq<nat>, blocks: seq<BasicBlockInfo>)
  {
    && |firsts| == |blocks|
    && (forall k {:trigger BlockAt(instructions, leaders, end, firsts[k], blocks[k])} :: 0 <= k < |firsts| ==>
          firsts[k] < |instructions| && BlockAt(instructions, leaders, end, firsts[k], blocks[k]))
    && (forall j, k {:trigger Rises(firsts, j, k)} :: 0 <= j < k < |firsts| ==> Rises(firsts, j, k))
    && (forall i {:trigger Chosen(instructions, leaders, bound, firsts, i)} :: 0 <= i < |instructions| ==>
          Chosen(instructions, leaders, bound, firsts, i))
  }

  /** Instruction i begins a block exactly when it stands at a leader below bound. */
  predicate Chosen(instructions: seq<Instruction>, leaders: set<U64>, bound: int, firsts: seq<nat>, i: int)
    requires 0 <= i < |instructions|
  {
    i in firsts <==> instructions[i].address in leaders && instructions[i].address < bound
  }

  predicate Rises(firsts: seq<nat>, j: int, k: int)
    requires 0 <= j < |firsts| && 0 <= k < |firsts|
  {
    firsts[j] < firsts[k]
  }

  ghost predicate HasBlocks(instructions: seq<Instruction>, leaders: set<U64>, end: U64, blocks: seq<BasicBlockInfo>)
  {
    exists firsts :: BlocksOf(instructions, leaders, end, TWO64, firsts, blocks)
  }

  ghost predicate BlockAt(instructions: seq<Instruction>, leaders: set<U64>, end: U64, first: nat, b: BasicBlockInfo)
  {
    && b.begin in leaders
    && exists next :: IsNextLeader(leaders, end, b.begin, next) && IsBlock(instructions, first, next, b)
  }

  // ----- all blocks -----

  /** next is the leader behind ordered[i], or end; bound separates the two groups of leaders. */
  lemma LeaderAfter(leaders: set<U64>, ordered: seq<nat>, i: nat, l: U64)
    requires i < |ordered| && ordered == Ascending(leaders) && l in leaders && l > ordered[i]
    ensures i + 1 < |ordered| && ordered[i + 1] <= l
  {
    assert l in ordered;
    var j :| 0 <= j < |ordered| && ordered[j] == l;
    assert i < j;
  }

  lemma IsLeaderAt(leaders: set<U64>, ordered: seq<nat>, i: nat)
    requires i < |ordered| && ordered == Ascending(leaders)
    ensures ordered[i] < TWO64 && ordered[i] in leaders
  {
    assert ordered[i] in ordered;
  }

  lemma LeaderStep(leaders: set<U64>, ordered: seq<nat>, i: nat, end: U64)
    requires i < |ordered| && ordered == Ascending(leaders)
    ensures ordered[i] < TWO64 && ordered[i] in leaders && LeaderOr(ordered, i + 1, end) < TWO64
    ensures IsNextLeader(leaders, end, ordered[i], LeaderOr(ordered, i + 1, end))
    ensures forall l :: l in leaders && l > ordered[i] ==> LeaderOr(ordered, i + 1, TWO64) <= l
    ensures ordered[i] < LeaderOr(ordered, i + 1, TWO64)
  {
    IsLeaderAt(leaders, ordered, i);
    if i + 1 < |ordered| { IsLeaderAt(leaders, ordered, i + 1); }
    forall l | l in leaders && l > ordered[i] ensures i + 1 < |ordered| && ordered[i + 1] <= l {
      LeaderAfter(leaders, ordered, i, l);
    }
  }

  lemma NoBlockHere(instructions: seq<Instruction>, leaders: set<U64>, end: U64, leader: U64, bound: int,
                    firsts: seq<nat>, blocks: seq<BasicBlockInfo>)
    requires BlocksOf(instructions, leaders, end, leader, firsts, blocks)
    requires leader < bound && forall l :: l in leaders && l > leader ==> bound <= l
    requires forall i {:trigger instructions[i]} :: 0 <= i < |instructions| ==> instructions[i].address != leader
    ensures BlocksOf(instructions, leaders, end, bound, firsts, blocks)
  {
    forall i | 0 <= i < |instructions| ensures Chosen(instructions, leaders, bound, firsts, i) {
      assert Chosen(instructions, leaders, leader, firsts, i) && instructions[i].address != leader;
      StillChosen(instructions, leaders, leader, bound, firsts, i);
    }
    forall k | 0 <= k < |firsts|
      ensures firsts[k] < |instructions| && BlockAt(instructions, leaders, end, firsts[k], blocks[k])
    {
      assert BlockAt(instructions, leaders, end, firsts[k], blocks[k]);
    }
  }

  lemma StillChosen(instructions: seq<Instruction>, leaders: set<U64>, leader: U64, bound: int, firsts: seq<nat>,
                    i: nat)
    requires i < |instructions| && instructions[i].address != leader
    requires Chosen(instructions, leaders, leader, firsts, i)
    requires leader < bound && forall l :: l in leaders && l > leader ==> bound <= l
    ensures Chosen(instructions, leaders, bound, firsts, i)
  {
  }

  lemma LaterFirst(instructions: seq<Instruction>, start: int, last: int, first: nat, i: nat)
    requires Tiled(instructions, start, last) && first < |instructions| && i < |instructions|
    ensures i < first <==> instructions[i].address < instructions[first].address
    ensures i == first <==> instructions[i].address == instructions[first].address
  {
    assert instructions[i].size > 0 && instructions[first].size > 0;
    if i < first { TilesAscend(instructions, start, last, i, first); }
    if first < i { TilesAscend(instructions, start, last, first, i); }
  }

  /** first comes behind all instructions collected so far. */
  lemma RisesOn(instructions: seq<Instruction>, start: int, last: int, leaders: set<U64>, end: U64, first: nat,
                firsts: seq<nat>, blocks: seq<BasicBlockInfo>, j: nat, k: nat)
    requires Tiled(instructions, start, last) && first < |instructions|
    requires BlocksOf(instructions, leaders, end, instructions[first].address, firsts, blocks)
    requires j < k < |firsts + [first]|
    ensures Rises(firsts + [first], j, k)
  {
    if k < |firsts| {
      assert Rises(firsts, j, k);
    } else {
      assert BlockAt(instructions, leaders, end, firsts[j], blocks[j]);
      assert firsts[j] in firsts && Chosen(instructions, leaders, instructions[first].address, firsts, firsts[j]);
      LaterFirst(instructions, start, last, first, firsts[j]);
    }
  }

  lemma CollectedOn(instructions: seq<Instruction>, start: int, last: int, leaders: set<U64>, end: U64, first: nat,
                    bound: int, firsts: seq<nat>, blocks: seq<BasicBlockInfo>, i: nat)
    requires Tiled(instructions, start, last) && first < |instructions| && i < |instructions|
    requires BlocksOf(instructions, leaders, end, instructions[first].address, firsts, blocks)
    requires instructions[first].address in leaders && instructions[first].address < bound
    requires forall l :: l in leaders && l > instructions[first].address ==> bound <= l
    ensures Chosen(instructions, leaders, bound, firsts + [first], i)
  {
    assert Chosen(instructions, leaders, instructions[first].address, firsts, i);
    assert i in firsts + [first] <==> i in firsts || i == first;
    LaterFirst(instructions, start, last, first, i);
  }

  lemma BlockHere(instructions: seq<Instruction>, start: int, last: int, leaders: set<U64>, end: U64, first: nat,
                  bound: int, firsts: seq<nat>, blocks: seq<BasicBlockInfo>, b: BasicBlockInfo)
    requires Tiled(instructions, start, last) && first < |instructions|
    requires BlocksOf(instructions, leaders, end, instructions[first].address, firsts, blocks)
    requires BlockAt(instructions, leaders, end, first, b) && instructions[first].address in leaders
    requires instructions[first].address < bound
    requires forall l :: l in leaders && l > instructions[first].address ==> bound <= l
    ensures BlocksOf(instructions, leaders, end, bound, firsts + [first], blocks + [b])
  {
    var f := firsts + [first];
    forall j, k | 0 <= j < k < |f| ensures Rises(f, j, k) {
      RisesOn(instructions, start, last, leaders, end, first, firsts, blocks, j, k);
    }
    forall k | 0 <= k < |f|
      ensures f[k] < |instructions| && BlockAt(instructions, leaders, end, f[k], (blocks + [b])[k])
    {
      if k < |firsts| { assert BlockAt(instructions, leaders, end, firsts[k], blocks[k]); }
    }
    forall i | 0 <= i < |instructions| ensures Chosen(instructions, leaders, bound, f, i) {
      CollectedOn(instructions, start, last, leaders, end, first, bound, firsts, blocks, i);
    }
  }

  /** One turn of the loop over the leaders: a leader between instructions begins no block. */
  method TakeLeader(instructions: seq<Instruction>, start: U64, end: U64, ghost leaders: set<U64>, at: map<U64, nat>,
                    leader: U64, next: U64, ghost bound: int, ghost firsts: seq<nat>, blocks: seq<BasicBlockInfo>)
    returns (r: seq<BasicBlockInfo>, ghost f: seq<nat>)
    requires Tiled(instructions, start, end) && IndexOf(instructions, |instructions|, at)
    requires BlocksOf(instructions, leaders, end, leader, firsts, blocks)
    requires leader in leaders && IsNextLeader(leaders, end, leader, next)
    requires leader < bound && forall l :: l in leaders && l > leader ==> bound <= l
    ensures BlocksOf(instructions, leaders, end, bound, f, r)
  {
    if leader in at {
      var b := BuildBlock(instructions, start, end, at[leader], next);
      assert IsNextLeader(leaders, end, b.begin, next);
      BlockHere(instructions, start, end, leaders, end, at[leader], bound, firsts, blocks, b);
      return blocks + [b], firsts + [at[leader]];
    }
    NoBlockHere(instructions, leaders, end, leader, bound, firsts, blocks);
    return blocks, firsts;
  }

  /** The address of leader i, or a bound above all of them. */
  function LeaderOr(ordered: seq<nat>, i: nat, otherwise: nat): nat
  {
    if i < |ordered| then ordered[i] else otherwise
  }

  /** The loop over the ordered leaders. */
  method BuildBlocks(instructions: seq<Instruction>, start: U64, end: U64, leaders: set<U64>, at: map<U64, nat>)
    returns (blocks: seq<BasicBlockInfo>)
    requires Tiled(instructions, start, end) && IndexOf(instructions, |instructions|, at)
    ensures HasBlocks(instructions, leaders, end, blocks)
  {
    var ordered := Ascending(leaders);
    blocks := [];
    ghost var firsts: seq<nat> := [];
    NoBlocksYet(instructions, leaders, end, ordered, LeaderOr(ordered, 0, TWO64));
    for i := 0 to |ordered|
      invariant BlocksOf(instructions, leaders, end, LeaderOr(ordered, i, TWO64), firsts, blocks)
    {
      LeaderStep(leaders, ordered, i, end);
      blocks, firsts := TakeLeader(instructions, start, end, leaders, at, ordered[i], LeaderOr(ordered, i + 1, end),
                                   LeaderOr(ordered, i + 1, TWO64), firsts, blocks);
    }
  }

  lemma NoBlocksYet(instructions: seq<Instruction>, leaders: set<U64>, end: U64, ordered: seq<nat>, bound: int)
    requires ordered == Ascending(leaders) && bound == if |ordered| > 0 then ordered[0] else TWO64
    ensures BlocksOf(instructions, leaders, end, bound, [], [])
  {
    forall l | l in leaders ensures |ordered| > 0 && ordered[0] <= l {
      assert l in ordered;
    }
  }

  /** Everything the report says. */
  ghost predicate IsReport(limits: Limits, decode: Decoder, data: seq<Byte>, address: U64, r: DisassemblyReport)
  {
    && r.start == address && r.end == address + r.bytesDecoded
    && SweepCompletes(limits, decode, data, address, r.instructions, r.bytesDecoded)
    && HasPartition(r)
  }

  ghost predicate HasPartition(r: DisassemblyReport)
  {
    exists leaders, firsts :: Partitioned(r, leaders, firsts)
  }

  lemma BlocksPartition(r: DisassemblyReport, leaders: set<U64>)
    requires Tiled(r.instructions, r.start, r.end) && HasBlocks(r.instructions, leaders, r.end, r.blocks)
    requires forall a: U64 {:trigger a in leaders} :: a in leaders <==> IsLeader(r.instructions, r.start, r.end, a)
    ensures HasPartition(r)
  {
    var firsts :| BlocksOf(r.instructions, leaders, r.end, TWO64, firsts, r.blocks);
    assert Partitioned(r, leaders, firsts);
  }

  /** The leaders are as defined, and the blocks are theirs. */
  ghost predicate Partitioned(r: DisassemblyReport, leaders: set<U64>, firsts: seq<nat>)
  {
    && Tiled(r.instructions, r.start, r.end)
    && (forall a: U64 {:trigger a in leaders} :: a in leaders <==> IsLeader(r.instructions, r.start, r.end, a))
    && BlocksOf(r.instructions, leaders, r.end, TWO64, firsts, r.blocks)
  }

  /** The sweep fails, or it completes and its end does not fit 64 bits. */
  ghost predicate AnalysisFails(limits: Limits, decode: Decoder, data: seq<Byte>, address: U64, code: ErrorCode)
  {
    || (exists done, offset :: SweepFails(limits, decode, data, address, done, offset, code))
    || (code == AddressOverflow
        && exists done, offset :: SweepCompletes(limits, decode, data, address, done, offset)
                                  && address + offset >= TWO64)
  }

  /** analyze. */
  method Analyze(limits: Limits, decode: Decoder, data: Blob, address: U64)
    returns (r: Result<DisassemblyReport>)
    requires KeepsAddress(decode)
    ensures r.Ok? ==> IsReport(limits, decode, data, address, r.value)
    ensures r.Err? ==> AnalysisFails(limits, decode, data, address, r.code)
  {
    var instructions, offset := Sweep(limits, decode, data, address);
    if instructions.Err? { return Err(instructions.code); }
    var end := CheckedAdd(address, offset);
    if end.None? { return Err(AddressOverflow); }
    var leaders, at := CollectLeaders(instructions.value, address, end.value);
    var blocks := BuildBlocks(instructions.value, address, end.value, leaders, at);
    var report := DisassemblyReport(address, end.value, offset, instructions.value, blocks);
    BlocksPartition(report, leaders);
    r := Ok(report);
  }

  // ----- what a report promises -----

  /** Blocks are ordered and disjoint, so none contains the beginning of another. */
  lemma BlocksDisjoint(r: DisassemblyReport, leaders: set<U64>, firsts: seq<nat>, j: nat, k: nat)
    requires Partitioned(r, leaders, firsts) && j < k < |r.blocks|
    ensures r.blocks[j].begin < r.blocks[j].end <= r.blocks[k].begin < r.blocks[k].end
  {
    BlockExtent(r, leaders, firsts, j);
    BlockExtent(r, leaders, firsts, k);
    var last := firsts[j] + r.blocks[j].instructionCount - 1;
    LeaderBehind(r, leaders, firsts, j, k);
    TilesAscend(r.instructions, r.start, r.end, last, firsts[k]);
  }

  lemma FirstLeads(r: DisassemblyReport, leaders: set<U64>, firsts: seq<nat>, k: nat)
    requires Partitioned(r, leaders, firsts) && k < |r.blocks|
    ensures firsts[k] < |r.instructions| && r.instructions[firsts[k]].address in leaders
  {
    assert BlockAt(r.instructions, leaders, r.end, firsts[k], r.blocks[k]);
    assert firsts[k] in firsts && Chosen(r.instructions, leaders, TWO64, firsts, firsts[k]);
  }

  lemma LeaderBehind(r: DisassemblyReport, leaders: set<U64>, firsts: seq<nat>, j: nat, k: nat)
    requires Partitioned(r, leaders, firsts)
    requires j < k < |r.blocks|
    ensures firsts[j] + r.blocks[j].instructionCount <= firsts[k] < |r.instructions|
  {
    FirstLeads(r, leaders, firsts, k);
    BlockExtent(r, leaders, firsts, j);
    assert Rises(firsts, j, k);
    if firsts[k] < firsts[j] + r.blocks[j].instructionCount { InsideIsNoLeader(r, leaders, firsts, j, firsts[k]); }
  }

  lemma BlockExtent(r: DisassemblyReport, leaders: set<U64>, firsts: seq<nat>, k: nat)
    requires Partitioned(r, leaders, firsts)
    requires k < |r.blocks|
    ensures firsts[k] + r.blocks[k].instructionCount <= |r.instructions| && r.blocks[k].instructionCount > 0
    ensures r.blocks[k].begin == r.instructions[firsts[k]].address < r.blocks[k].end
    ensures r.blocks[k].end == r.instructions[firsts[k] + r.blocks[k].instructionCount - 1].End()
  {
    assert BlockAt(r.instructions, leaders, r.end, firsts[k], r.blocks[k]);
    var last := firsts[k] + r.blocks[k].instructionCount - 1;
    if firsts[k] < last { TilesAscend(r.instructions, r.start, r.end, firsts[k], last); }
  }

  /** No instruction of a block but its first one stands at a leader. */
  lemma InsideIsNoLeader(r: DisassemblyReport, leaders: set<U64>, firsts: seq<nat>, k: nat, i: nat)
    requires Partitioned(r, leaders, firsts)
    requires k < |r.blocks| && firsts[k] < i < firsts[k] + r.blocks[k].instructionCount
    ensures i < |r.instructions| && r.instructions[i].address !in leaders
  {
    var b := r.blocks[k];
    assert BlockAt(r.instructions, leaders, r.end, firsts[k], b);
    var next :| IsNextLeader(leaders, r.end, b.begin, next) && IsBlock(r.instructions, firsts[k], next, b);
    assert r.instructions[i].address < next;
    TilesAscend(r.instructions, r.start, r.end, firsts[k], i);
    assert r.instructions[i].size > 0 && r.instructions[firsts[k]].size > 0;
  }

  /** Only the last instruction of a block may be a branch or terminal, and the block says whether
      it is. A block that does not end so ends at the next leader or with the last instruction. */
  lemma OnlyLastStops(r: DisassemblyReport, leaders: set<U64>, firsts: seq<nat>, k: nat, i: nat)
    requires Partitioned(r, leaders, firsts)
    requires k < |r.blocks| && firsts[k] <= i < firsts[k] + r.blocks[k].instructionCount
    ensures i < |r.instructions|
    ensures r.instructions[i].branch || r.instructions[i].terminal <==>
            r.blocks[k].complete && i + 1 == firsts[k] + r.blocks[k].instructionCount
  {
    assert BlockAt(r.instructions, leaders, r.end, firsts[k], r.blocks[k]);
  }

  /** Every target inside the swept range that is an instruction boundary begins a block, and so
      does every boundary a non-terminal branch can fall through to. */
  lemma TargetBeginsBlock(r: DisassemblyReport, leaders: set<U64>, firsts: seq<nat>, source: nat, i: nat)
    requires Partitioned(r, leaders, firsts)
    requires source < |r.instructions| && i < |r.instructions|
    requires r.instructions[source].target == Some(r.instructions[i].address)
             || FallsTo(r.instructions[source], r.instructions[i].address)
    ensures exists k :: 0 <= k < |r.blocks| && r.blocks[k].begin == r.instructions[i].address
  {
    var a := r.instructions[i].address;
    TileInside(r.instructions, r.start, r.end, i);
    assert r.instructions[i].size > 0;
    assert Targets(r.instructions[source], r.start, r.end, a) || FallsTo(r.instructions[source], a);
    assert IsLeader(r.instructions, r.start, r.end, a);
    assert Chosen(r.instructions, leaders, TWO64, firsts, i);
    var k :| 0 <= k < |firsts| && firsts[k] == i;
    BlockExtent(r, leaders, firsts, k);
  }

  lemma FollowedByOne(instructions: seq<Instruction>, start: int, end: int, j: nat, i: nat)
    requires Tiled(instructions, start, end) && j < |instructions| && i < |instructions|
    ensures instructions[j].End() == instructions[i].address <==> j + 1 == i
  {
    TileAt(instructions, start, end, j + 1);
    TileInside(instructions, start, end, j);
    if i <= j {
      if i < j { TilesAscend(instructions, start, end, i, j); }
    } else if j + 1 < i {
      TilesAscend(instructions, start, end, j + 1, i);
    }
  }

  lemma FirstAtStart(instructions: seq<Instruction>, start: int, end: int, i: nat)
    requires Tiled(instructions, start, end) && i < |instructions|
    ensures instructions[i].address == start <==> i == 0
  {
    TileAt(instructions, start, end, 0);
    TileInside(instructions, start, end, 0);
    if i > 0 { TilesAscend(instructions, start, end, 0, i); }
  }

  /** Instruction i is the first one of all, the target of some instruction, or behind a branch that can
      fall through. */
  predicate Begins(instructions: seq<Instruction>, i: nat)
    requires i < |instructions|
  {
    || i == 0
    || (exists j {:trigger instructions[j]} :: 0 <= j < |instructions|
          && instructions[j].target == Some(instructions[i].address))
    || (instructions[i - 1].branch && !instructions[i - 1].terminal)
  }

  /** These are the instructions that begin a block. */
  lemma BlocksBegin(r: DisassemblyReport, leaders: set<U64>, firsts: seq<nat>, i: nat)
    requires Partitioned(r, leaders, firsts) && i < |r.instructions|
    ensures i in firsts <==> Begins(r.instructions, i)
  {
    var a := r.instructions[i].address;
    TileInside(r.instructions, r.start, r.end, i);
    FirstAtStart(r.instructions, r.start, r.end, i);
    forall j | 0 <= j < |r.instructions|
      ensures Targets(r.instructions[j], r.start, r.end, a) <==> r.instructions[j].target == Some(a)
      ensures FallsTo(r.instructions[j], a) <==>
              j + 1 == i && r.instructions[j].branch && !r.instructions[j].terminal
    {
      FollowedByOne(r.instructions, r.start, r.end, j, i);
    }
    assert Chosen(r.instructions, leaders, TWO64, firsts, i);
    assert i in firsts <==> IsLeader(r.instructions, r.start, r.end, a);
  }

  // ----- which instructions the blocks cover -----

  /** Instruction i belongs to block k. */
  predicate InBlock(r: DisassemblyReport, firsts: seq<nat>, k: int, i: int)
    requires 0 <= k < |firsts| == |r.blocks|
  {
    firsts[k] <= i < firsts[k] + r.blocks[k].instructionCount
  }

  ghost predicate Covered(r: DisassemblyReport, firsts: seq<nat>, i: int)
    requires |firsts| == |r.blocks|
  {
    exists k {:trigger InBlock(r, firsts, k, i)} :: 0 <= k < |firsts| && InBlock(r, firsts, k, i)
  }

  /** A leader strictly inside instruction x. */
  ghost predicate Splits(leaders: set<U64>, x: Instruction)
  {
    exists l {:trigger l in leaders} :: l in leaders && x.address < l < x.End()
  }

  /** Nothing leads from instruction i - 1 on to instruction i: it is terminal, or a leader inside it
      ends its block. */
  ghost predicate CutOff(r: DisassemblyReport, leaders: set<U64>, i: int)
    requires 0 < i < |r.instructions|
  {
    r.instructions[i - 1].terminal || Splits(leaders, r.instructions[i - 1])
  }

  lemma LeadingIsCovered(r: DisassemblyReport, leaders: set<U64>, firsts: seq<nat>, i: nat)
    requires Partitioned(r, leaders, firsts) && i < |r.instructions| && r.instructions[i].address in leaders
    ensures Covered(r, firsts, i)
  {
    assert Chosen(r.instructions, leaders, TWO64, firsts, i);
    var k :| 0 <= k < |firsts| && firsts[k] == i;
    BlockExtent(r, leaders, firsts, k);
    assert InBlock(r, firsts, k, i);
  }

  lemma BlockOf(r: DisassemblyReport, leaders: set<U64>, firsts: seq<nat>, k: nat) returns (next: U64)
    requires Partitioned(r, leaders, firsts) && k < |r.blocks|
    ensures Tiled(r.instructions, r.start, r.end)
    ensures IsNextLeader(leaders, r.end, r.blocks[k].begin, next)
    ensures IsBlock(r.instructions, firsts[k], next, r.blocks[k])
  {
    assert BlockAt(r.instructions, leaders, r.end, firsts[k], r.blocks[k]);
    next :| IsNextLeader(leaders, r.end, r.blocks[k].begin, next)
            && IsBlock(r.instructions, firsts[k], next, r.blocks[k]);
  }

  lemma InstructionStep(instructions: seq<Instruction>, start: int, end: int, i: nat)
    requires Tiled(instructions, start, end) && i + 1 < |instructions|
    ensures instructions[i].address < instructions[i].End() == instructions[i + 1].address < end
  {
    assert Adjoins(instructions, i) && instructions[i].size > 0 && instructions[i + 1].size > 0;
    TileInside(instructions, start, end, i + 1);
  }

  /** Inside a block no instruction is terminal or split. */
  lemma InsideLeadsOn(instructions: seq<Instruction>, start: int, end: U64, leaders: set<U64>, first: nat, next: U64,
                      b: BasicBlockInfo, i: nat)
    requires Tiled(instructions, start, end) && IsNextLeader(leaders, end, b.begin, next)
    requires IsBlock(instructions, first, next, b) && first < i < first + b.instructionCount
    ensures !instructions[i - 1].terminal && !Splits(leaders, instructions[i - 1])
  {
    InstructionStep(instructions, start, end, i - 1);
    assert !instructions[i - 1].Stops() && instructions[i].address < next;
    if first < i - 1 { TilesAscend(instructions, start, end, first, i - 1); }
  }

  /** A block goes on behind an instruction that is neither, unless the next one leads. */
  lemma BlockGoesOn(instructions: seq<Instruction>, start: int, end: U64, leaders: set<U64>, first: nat, next: U64,
                    b: BasicBlockInfo, i: nat)
    requires Tiled(instructions, start, end) && IsNextLeader(leaders, end, b.begin, next)
    requires IsBlock(instructions, first, next, b) && first < i < |instructions|
    requires i - 1 < first + b.instructionCount && instructions[i].address !in leaders
    requires !instructions[i - 1].Stops() && !Splits(leaders, instructions[i - 1])
    ensures i < first + b.instructionCount
  {
    InstructionStep(instructions, start, end, i - 1);
    assert first < i - 1 ==> instructions[i - 1].address < next;
  }

  /** Behind a branch that can fall through the next instruction leads. */
  lemma FallThroughLeads(r: DisassemblyReport, leaders: set<U64>, firsts: seq<nat>, i: nat)
    requires Partitioned(r, leaders, firsts) && 0 < i < |r.instructions|
    requires r.instructions[i - 1].branch && !r.instructions[i - 1].terminal
    ensures r.instructions[i].address in leaders
  {
    InstructionStep(r.instructions, r.start, r.end, i - 1);
    assert FallsTo(r.instructions[i - 1], r.instructions[i].address);
    assert IsLeader(r.instructions, r.start, r.end, r.instructions[i].address);
  }

  lemma CoveredBefore(r: DisassemblyReport, leaders: set<U64>, firsts: seq<nat>, k: nat, i: nat, p: nat)
    requires Partitioned(r, leaders, firsts) && k < |r.blocks| && i < |r.instructions|
    requires InBlock(r, firsts, k, i) && r.instructions[i].address !in leaders
    ensures i > 0 && (p == i - 1 ==> Covered(r, firsts, p)) && !CutOff(r, leaders, i)
  {
    FirstLeads(r, leaders, firsts, k);
    var next := BlockOf(r, leaders, firsts, k);
    InsideLeadsOn(r.instructions, r.start, r.end, leaders, firsts[k], next, r.blocks[k], i);
    if p == i - 1 { assert InBlock(r, firsts, k, p); }
  }

  lemma CoveredNext(r: DisassemblyReport, leaders: set<U64>, firsts: seq<nat>, i: nat, p: nat)
    requires Partitioned(r, leaders, firsts) && p + 1 == i < |r.instructions|
    requires Covered(r, firsts, p) && r.instructions[i].address !in leaders && !CutOff(r, leaders, i)
    ensures Covered(r, firsts, i)
  {
    var k :| 0 <= k < |firsts| && InBlock(r, firsts, k, p);
    if r.instructions[p].branch && !r.instructions[p].terminal { FallThroughLeads(r, leaders, firsts, i); }
    var next := BlockOf(r, leaders, firsts, k);
    BlockGoesOn(r.instructions, r.start, r.end, leaders, firsts[k], next, r.blocks[k], i);
    assert InBlock(r, firsts, k, i);
  }

  /** Instruction i is covered exactly when it leads, or the one before it is covered and leads on to it. */
  lemma CoveredStep(r: DisassemblyReport, leaders: set<U64>, firsts: seq<nat>, i: nat)
    requires Partitioned(r, leaders, firsts) && i < |r.instructions|
    ensures Covered(r, firsts, i) <==>
            || r.instructions[i].address in leaders
            || (i > 0 && Covered(r, firsts, i - 1) && !CutOff(r, leaders, i))
  {
    if r.instructions[i].address in leaders {
      LeadingIsCovered(r, leaders, firsts, i);
    } else if k :| 0 <= k < |firsts| && InBlock(r, firsts, k, i) {
      CoveredBefore(r, leaders, firsts, k, i, if i > 0 then i - 1 else 0);
    } else if i > 0 && !CutOff(r, leaders, i) && Covered(r, firsts, i - 1) {
      CoveredNext(r, leaders, firsts, i, i - 1);
    }
  }

  /** Instruction i neither leads nor is led to. */
  ghost predicate Stranded(r: DisassemblyReport, leaders: set<U64>, i: int)
  {
    0 < i < |r.instructions| && r.instructions[i].address !in leaders && CutOff(r, leaders, i)
  }

  lemma StartLeads(r: DisassemblyReport, leaders: set<U64>, firsts: seq<nat>)
    requires Partitioned(r, leaders, firsts) && r.instructions != []
    ensures r.instructions[0].address in leaders
  {
    assert IsLeader(r.instructions, r.start, r.end, r.instructions[0].address);
  }

  lemma NotStranded(r: DisassemblyReport, leaders: set<U64>, firsts: seq<nat>, i: nat)
    requires Partitioned(r, leaders, firsts) && i < |r.instructions| && !Stranded(r, leaders, i)
    requires i > 0 ==> Covered(r, firsts, i - 1)
    ensures Covered(r, firsts, i)
  {
    CoveredStep(r, leaders, firsts, i);
    if i == 0 { StartLeads(r, leaders, firsts); }
  }

  lemma {:induction false} CoveredTo(r: DisassemblyReport, leaders: set<U64>, firsts: seq<nat>, i: nat)
    requires Partitioned(r, leaders, firsts) && i < |r.instructions|
    requires forall j {:trigger Stranded(r, leaders, j)} :: !Stranded(r, leaders, j)
    ensures Covered(r, firsts, i)
    decreases i
  {
    if i > 0 { CoveredTo(r, leaders, firsts, i - 1); }
    NotStranded(r, leaders, firsts, i);
  }

  /** The blocks cover all instructions exactly when none is stranded. */
  lemma BlocksCoverIff(r: DisassemblyReport, leaders: set<U64>, firsts: seq<nat>)
    requires Partitioned(r, leaders, firsts)
    ensures (forall i {:trigger Covered(r, firsts, i)} :: 0 <= i < |r.instructions| ==> Covered(r, firsts, i)) <==>
            (forall i {:trigger Stranded(r, leaders, i)} :: !Stranded(r, leaders, i))
  {
    if i :| Stranded(r, leaders, i) {
      CoveredStep(r, leaders, firsts, i);
      assert !Covered(r, firsts, i);
    } else {
      forall i | 0 <= i < |r.instructions| ensures Covered(r, firsts, i) { CoveredTo(r, leaders, firsts, i); }
    }
  }

  // ----- instructions that no block covers -----

  /** A terminal instruction, and another one behind it. */
  const BEHIND_TERMINAL: seq<Instruction> :=
    [Instruction(0, 1, false, false, true, None), Instruction(1, 1, false, false, false, None)]

  /** A branch into the middle of the instruction behind it, and a third instruction. */
  const BEHIND_SPLIT: seq<Instruction> :=
    [Instruction(0, 1, true, false, false, Some(2)), Instruction(1, 2, false, false, false, None),
     Instruction(3, 1, false, false, false, None)]

  /** No report of these instructions has a block with the second one. */
  lemma NothingBehindTerminal(r: DisassemblyReport, leaders: set<U64>, firsts: seq<nat>)
    requires Partitioned(r, leaders, firsts) && r.instructions == BEHIND_TERMINAL
    ensures !Covered(r, firsts, 1)
  {
    TileAt(r.instructions, r.start, r.end, 0);
    assert !IsLeader(r.instructions, r.start, r.end, 1);
    assert Stranded(r, leaders, 1);
    CoveredStep(r, leaders, firsts, 1);
  }

  /** No report of these instructions has a block with the third one. */
  lemma NothingBehindSplit(r: DisassemblyReport, leaders: set<U64>, firsts: seq<nat>)
    requires Partitioned(r, leaders, firsts) && r.instructions == BEHIND_SPLIT
    ensures !Covered(r, firsts, 2)
  {
    SplitLeaders(r, leaders, firsts);
    assert 2 in leaders && Splits(leaders, r.instructions[1]);
    assert Stranded(r, leaders, 2);
    CoveredStep(r, leaders, firsts, 2);
  }

  lemma SplitLeaders(r: DisassemblyReport, leaders: set<U64>, firsts: seq<nat>)
    requires Partitioned(r, leaders, firsts) && r.instructions == BEHIND_SPLIT
    ensures 2 in leaders && 3 !in leaders
  {
    TileAt(r.instructions, r.start, r.end, 0);
    TileAt(r.instructions, r.start, r.end, 3);
    assert Targets(r.instructions[0], r.start, r.end, 2);
    assert IsLeader(r.instructions, r.start, r.end, 2) && !IsLeader(r.instructions, r.start, r.end, 3);
  }

  // ----- the edges of a block, from the instructions -----

  /** Instruction i of the block leads to its target: conditionally if it is a branch that may go on and no
      call. */
  predicate LeadsToTarget(x: Instruction, e: ControlFlowEdge)
  {
    && x.target == Some(e.target) && e.source == x.address && !e.fallthrough
    && (e.call <==> x.call) && (e.conditional <==> x.branch && !x.terminal && !x.call)
  }

  /** The block goes on behind its last instruction: behind a branch or a call that returns, from the
      instruction; into the next leader, from its end. */
  predicate LeadsOn(last: Instruction, end: U64, next: U64, e: ControlFlowEdge)
  {
    && e.fallthrough && !e.call && !e.conditional && e.target == end
    && if last.branch || last.terminal
       then e.source == last.address && (last.call || !last.terminal)
       else e.source == end && end == next
  }

  ghost function WithTarget(instructions: seq<Instruction>, first: nat, n: nat): set<nat>
    requires first + n <= |instructions|
  {
    set i: nat | first <= i < first + n && instructions[i].target.Some?
  }

  lemma TargetEdgeMeans(x: Instruction, e: ControlFlowEdge)
    ensures e in TargetEdge(x) <==> LeadsToTarget(x, e)
    ensures |TargetEdge(x)| == if x.target.Some? then 1 else 0
  {
  }

  lemma {:induction false} TargetEdgesMean(instructions: seq<Instruction>, first: nat, n: nat, e: ControlFlowEdge)
    requires first + n <= |instructions|
    ensures e in TargetEdges(instructions, first, n) <==>
            exists i {:trigger instructions[i]} :: first <= i < first + n && LeadsToTarget(instructions[i], e)
  {
    if n > 0 {
      TargetEdgesMean(instructions, first, n - 1, e);
      TargetEdgeMeans(instructions[first + n - 1], e);
    }
  }

  lemma OneMoreTarget(instructions: seq<Instruction>, first: nat, n: nat)
    requires 0 < n && first + n <= |instructions|
    ensures |WithTarget(instructions, first, n)| ==
            |WithTarget(instructions, first, n - 1)|
            + if instructions[first + n - 1].target.Some? then 1 else 0
  {
    var before, last := WithTarget(instructions, first, n - 1), first + n - 1;
    if instructions[last].target.Some? {
      assert WithTarget(instructions, first, n) == before + {last};
    } else {
      assert WithTarget(instructions, first, n) == before;
    }
  }

  lemma {:induction false} TargetEdgesCounted(instructions: seq<Instruction>, first: nat, n: nat)
    requires first + n <= |instructions|
    ensures |TargetEdges(instructions, first, n)| == |WithTarget(instructions, first, n)|
  {
    if n > 0 {
      var last := first + n - 1;
      TargetEdgesCounted(instructions, first, n - 1);
      OneMoreTarget(instructions, first, n);
      assert |TargetEdge(instructions[last])| == if instructions[last].target.Some? then 1 else 0;
    }
  }

  /** The edges out of a block are those of the targets of its instructions and, last, the one by which it goes
      on, if it does; there are no others. */
  lemma OutgoingMeans(instructions: seq<Instruction>, first: nat, next: U64, b: BasicBlockInfo, e: ControlFlowEdge)
    requires IsBlock(instructions, first, next, b)
    ensures var last := instructions[first + b.instructionCount - 1];
            && (e in b.outgoing <==>
                  || (exists i {:trigger instructions[i]} :: first <= i < first + b.instructionCount
                        && LeadsToTarget(instructions[i], e))
                  || LeadsOn(last, b.end, next, e))
            && |b.outgoing| == |WithTarget(instructions, first, b.instructionCount)|
                               + if (if last.branch || last.terminal then last.call || !last.terminal
                                     else b.end == next) then 1 else 0
  {
    TargetEdgesMean(instructions, first, b.instructionCount, e);
    TargetEdgesCounted(instructions, first, b.instructionCount);
  }
}
