/** ByteReader of src/reader.cc: a bounded cursor over bytes. */
module Readers {
  import opened Base
  import opened Cursors
  import opened Endian
  import opened Leb128

  class ByteReader {
    const data: Blob
    const order: ByteOrder
    var position: nat

    ghost predicate Valid()
      reads this
    {
      position <= |data|
    }

    constructor (data: Blob, order: ByteOrder)
      ensures Valid() && this.data == data && this.order == order && position == 0
    {
      this.data := data;
      this.order := order;
      position := 0;
    }

    function Remaining(): nat
      reads this
    {
      if position <= |data| then |data| - position else 0
    }

    /** seek. */
    method Seek(target: U64) returns (ok: bool)
      requires Valid()
      modifies this
      ensures Valid() && (ok <==> target <= |data|)
      ensures position == if ok then target else old(position)
    {
      if target > |data| { return false; }
      position := target;
      return true;
    }

    /** skip. */
    method Skip(amount: U64) returns (ok: bool)
      requires Valid()
      modifies this
      ensures Valid() && (ok <==> old(position) + amount <= |data|)
      ensures position == if ok then old(position) + amount else old(position)
    {
      var next := CheckedAdd(position, amount);
      if next.None? { return false; }
      ok := Seek(next.value);
    }

    /** read_u8. */
    method ReadU8() returns (ok: bool, value: Byte)
      requires Valid()
      modifies this
      ensures Valid() && (ok <==> old(position) < |data|)
      ensures ok ==> value == data[old(position)] && position == old(position) + 1
      ensures !ok ==> position == old(position)
    {
      if Remaining() == 0 { return false, 0; }
      value := data[position];
      position := position + 1;
      ok := true;
    }

    /** read_u16, read_u32 and read_u64: width is 2, 4 or 8. */
    method ReadFixed(width: nat) returns (ok: bool, value: U64)
      requires Valid() && width <= 8
      modifies this
      ensures Valid() && (ok <==> old(position) + width <= |data|)
      ensures ok ==> position == old(position) + width
                     && value == Decode(data[old(position)..position], order) < Pow256(width)
      ensures ok && order.Little? ==> IntAt(data, old(position), width, value)
      ensures !ok ==> position == old(position)
    {
      if !RangeInside(position, width, |data|) { return false, 0; }
      IntFound(data, position, width);
      value := AssembleInteger(data[position..position + width], order);
      DecodeEncode(data[position..position + width], order);
      position := position + width;
      ok := true;
    }

    method ReadU32() returns (ok: bool, value: U32)
      requires Valid()
      modifies this
      ensures Valid() && (ok <==> old(position) + 4 <= |data|)
      ensures ok ==> position == old(position) + 4 && value == Decode(data[old(position)..position], order)
      ensures ok && order.Little? ==> IntAt(data, old(position), 4, value)
      ensures !ok ==> position == old(position)
    {
      Pow256Values();
      var wide: U64;
      ok, wide := ReadFixed(4);
      value := if ok then wide else 0;
    }

    /** read_bytes. */
    method ReadBytes(count: U64) returns (ok: bool, value: Blob)
      requires Valid()
      modifies this
      ensures Valid() && (ok <==> old(position) + count <= |data|)
      ensures ok ==> position == old(position) + count && value == data[old(position)..position]
      ensures ok ==> At(data, old(position), value)
      ensures !ok ==> position == old(position) && value == []
    {
      if !RangeInside(position, count, |data|) { return false, []; }
      value := data[position..position + count];
      position := position + count;
      ok := true;
    }

    /** read_uleb128: accepts exactly the encodings of at most ten bytes whose value fits 64 bits. */
    method ReadUleb128() returns (ok: bool, value: U64)
      requires Valid()
      modifies this
      ensures Valid() && old(position) <= position
      ensures ok <==> UlebAt(data, old(position)).Some?
      ensures ok ==> value == UlebAt(data, old(position)).value.0 && position == UlebAt(data, old(position)).value.1
    {
      ghost var p := position;
      value := 0;
      for i := 0 to 10
        invariant Valid() && position == p + i && AllMore(data, p, i) && value == FromLeb(data[p..p + i])
      {
        UlebStep(data, p, i);
        var read, byte := ReadU8();
        if !read { return false, value; }
        var payload := Payload(byte);
        if i == 9 && payload > 1 { return false, value; }
        // value |= payload << (7 * i): the bits of the two summands do not meet.
        value := value + Shift(payload, i);
        if !More(byte) { return true, value; }
      }
      NoUlebYet(data, p, 10);
      return false, value;
    }

    /** read_sleb128: accepts exactly the encodings of at most ten bytes. */
    method ReadSleb128() returns (ok: bool, value: int)
      requires Valid()
      modifies this
      ensures Valid() && old(position) <= position
      ensures ok <==> SlebAt(data, old(position)).Some?
      ensures ok ==> value == SlebAt(data, old(position)).value.0 && position == SlebAt(data, old(position)).value.1
    {
      ghost var p := position;
      var raw: U64, n, byte := 0, 0, 0;
      while true
        invariant Valid() && n <= 10 && position == p + n && AllMore(data, p, n)
        invariant raw == FromLeb(data[p..p + n]) % TWO64
        decreases 10 - n
      {
        SlebStep(data, p, n);
        if n == 10 { return false, 0; }
        var read;
        read, byte := ReadU8();
        if !read { return false, 0; }
        raw := AddWrapped(raw, Shift(Payload(byte), n));
        n := n + 1;
        if !More(byte) { break; }
      }
      SlebFound(data, p, n);
      SignExtendMeans(data[p..p + n]);
      assert data[p..p + n][n - 1] == byte;
      return true, SignExtend(raw, n, byte);
    }
  }

  /** raw |= part, cut to 64 bits; the bits of the two do not meet. */
  function AddWrapped(raw: U64, part: nat): U64
  {
    (raw + part) % TWO64
  }

  /** if (shift < 64 && (byte & 0x40)) raw |= ~0 << shift, and the result as int64_t. */
  function SignExtend(raw: U64, n: nat, byte: Byte): int
  {
    if n < 10 && Payload(byte) >= 64 then ToSigned(AddWrapped(raw, FromBit(n))) else ToSigned(raw)
  }

  /** ~0 << (7 * n): every bit from 7 * n up. */
  function FromBit(n: nat): nat
  {
    if Pow128(n) <= TWO64 then TWO64 - Pow128(n) else 0
  }

  ghost predicate AllMore(d: seq<Byte>, p: nat, n: nat)
  {
    p + n <= |d| && forall j :: p <= j < p + n ==> More(d[j])
  }

  /** The value of the encoding at p and the position after it. */
  ghost function UlebAt(d: seq<Byte>, p: nat): (r: Option<(U64, nat)>)
    ensures r.Some? ==> p < r.value.1 <= |d|
  {
    if exists n :: UlebSpan(d, p, n) then
      var n :| UlebSpan(d, p, n);
      Some((FromLeb(d[p..p + n]), p + n))
    else None
  }

  ghost predicate UlebSpan(d: seq<Byte>, p: nat, n: nat)
  {
    0 < n <= 10 && p + n <= |d| && IsLeb(d[p..p + n]) && FromLeb(d[p..p + n]) < TWO64
  }

  /** A span that starts with n continued bytes is longer than n. */
  lemma SpanBeyond(d: seq<Byte>, p: nat, n: nat, m: nat)
    requires AllMore(d, p, n) && 0 < m && p + m <= |d| && IsLeb(d[p..p + m])
    ensures m > n
  {
    assert d[p..p + m][m - 1] == d[p + m - 1];
  }

  lemma UlebFound(d: seq<Byte>, p: nat, n: nat)
    requires UlebSpan(d, p, n)
    ensures UlebAt(d, p) == Some((FromLeb(d[p..p + n]), p + n))
  {
    forall m | UlebSpan(d, p, m) ensures m == n { LebIsPrefixFree(d, p, m, n); }
  }

  lemma Closes(d: seq<Byte>, p: nat, i: nat)
    requires AllMore(d, p, i) && p + i < |d| && !More(d[p + i])
    ensures IsLeb(d[p..p + i + 1])
  {
    var b := d[p..p + i + 1];
    assert forall j :: 0 <= j < i ==> b[j] == d[p + j];
  }

  lemma SumStep(d: seq<Byte>, p: nat, i: nat)
    requires p + i < |d|
    ensures FromLeb(d[p..p + i + 1]) == FromLeb(d[p..p + i]) + Shift(Payload(d[p + i]), i)
    ensures FromLeb(d[p..p + i]) < Pow128(i)
  {
    assert d[p..p + i + 1] == d[p..p + i] + [d[p + i]];
    FromLebAppend(d[p..p + i], d[p + i]);
    FromLebBound(d[p..p + i]);
  }

  lemma NoUlebYet(d: seq<Byte>, p: nat, i: nat)
    requires AllMore(d, p, i)
    requires p + i == |d| || i == 10 || (i == 9 && FromLeb(d[p..p + 10]) >= TWO64)
    ensures UlebAt(d, p).None?
  {
    forall m ensures !UlebSpan(d, p, m) {
      if 0 < m <= 10 && p + m <= |d| && IsLeb(d[p..p + m]) { SpanBeyond(d, p, i, m); }
    }
  }

  lemma UlebCloses(d: seq<Byte>, p: nat, i: nat)
    requires i < 10 && AllMore(d, p, i) && p + i < |d| && !More(d[p + i])
    requires FromLeb(d[p..p + i + 1]) < TWO64
    ensures UlebAt(d, p) == Some((FromLeb(d[p..p + i + 1]), p + i + 1))
  {
    Closes(d, p, i);
    UlebFound(d, p, i + 1);
  }

  /** One turn of the unsigned reader: what the byte at p + i decides. */
  lemma UlebStep(d: seq<Byte>, p: nat, i: nat)
    requires i < 10 && AllMore(d, p, i)
    ensures p + i == |d| ==> UlebAt(d, p).None?
    ensures p + i < |d| ==>
              var payload := Payload(d[p + i]);
              var sum := FromLeb(d[p..p + i]) + Shift(payload, i);
              && FromLeb(d[p..p + i + 1]) == sum
              && (i == 9 && payload > 1 ==> UlebAt(d, p).None?)
              && (i < 9 || payload <= 1 ==> sum < TWO64)
              && (!More(d[p + i]) && (i < 9 || payload <= 1) ==> UlebAt(d, p) == Some((sum, p + i + 1)))
  {
    if p + i == |d| {
      NoUlebYet(d, p, i);
    } else {
      var payload := Payload(d[p + i]);
      SumStep(d, p, i);
      TenthFits(i, payload, FromLeb(d[p..p + i]));
      if i == 9 && payload > 1 {
        NoUlebYet(d, p, i);
      } else if !More(d[p + i]) {
        UlebCloses(d, p, i);
      }
    }
  }

  /** The signed value of the encoding at p and the position after it. */
  ghost function SlebAt(d: seq<Byte>, p: nat): (r: Option<(int, nat)>)
    ensures r.Some? ==> p < r.value.1 <= |d|
  {
    if exists n :: SlebSpan(d, p, n) then
      var n :| SlebSpan(d, p, n);
      Some((FromSleb(d[p..p + n]), p + n))
    else None
  }

  ghost predicate SlebSpan(d: seq<Byte>, p: nat, n: nat)
  {
    0 < n <= 10 && p + n <= |d| && IsLeb(d[p..p + n])
  }

  lemma SlebFound(d: seq<Byte>, p: nat, n: nat)
    requires SlebSpan(d, p, n)
    ensures SlebAt(d, p) == Some((FromSleb(d[p..p + n]), p + n))
  {
    forall m | SlebSpan(d, p, m) ensures m == n { LebIsPrefixFree(d, p, m, n); }
  }

  lemma NoSlebYet(d: seq<Byte>, p: nat, n: nat)
    requires AllMore(d, p, n) && (p + n == |d| || n == 10)
    ensures SlebAt(d, p).None?
  {
    forall m ensures !SlebSpan(d, p, m) {
      if 0 < m <= 10 && p + m <= |d| && IsLeb(d[p..p + m]) { SpanBeyond(d, p, n, m); }
    }
  }

  lemma ModAdd(a: nat, b: nat, sum: nat)
    requires sum == a + b
    ensures sum % TWO64 == AddWrapped(a % TWO64, b)
  {
  }

  /** One turn of the signed reader. */
  lemma SlebStep(d: seq<Byte>, p: nat, n: nat)
    requires n <= 10 && AllMore(d, p, n)
    ensures p + n == |d| || n == 10 ==> SlebAt(d, p).None?
    ensures p + n < |d| ==> FromLeb(d[p..p + n + 1]) % TWO64 ==
                            AddWrapped(FromLeb(d[p..p + n]) % TWO64, Shift(Payload(d[p + n]), n))
    ensures p + n < |d| && !More(d[p + n]) ==> IsLeb(d[p..p + n + 1])
  {
    if p + n == |d| || n == 10 { NoSlebYet(d, p, n); }
    if p + n < |d| {
      SumStep(d, p, n);
      ModAdd(FromLeb(d[p..p + n]), Shift(Payload(d[p + n]), n), FromLeb(d[p..p + n + 1]));
      if !More(d[p + n]) { Closes(d, p, n); }
    }
  }

  lemma SignedSum(u: nat, power: nat)
    requires 0 < power <= TWO64 / 2 && u < power
    ensures 2 * u >= power ==> u - power == ToSigned(AddWrapped(u, TWO64 - power))
    ensures 2 * u < power ==> u == ToSigned(u)
  {
  }

  lemma SignExtendMeans(b: seq<Byte>)
    requires 0 < |b| <= 10
    ensures FromSleb(b) == SignExtend(FromLeb(b) % TWO64, |b|, b[|b| - 1])
  {
    if |b| < 10 {
      FromLebBound(b);
      assert Pow128(|b|) <= TWO64 / 2 by { Pow128Values(); Pow128Grows(|b|, 9); }
      LastPayload(b);
      assert FromLeb(b) % TWO64 == FromLeb(b);
      SignedSum(FromLeb(b), Pow128(|b|));
    }
  }

  /** Reading the shortest encoding of any 64-bit value gives the value and stops after it. */
  lemma ReadsUleb(before: seq<Byte>, v: U64, after: seq<Byte>)
    ensures var d := before + EncodeUleb(v) + after;
            UlebAt(d, |before|) == Some((v, |before| + |EncodeUleb(v)|))
  {
    var d, n := before + EncodeUleb(v) + after, |EncodeUleb(v)|;
    UlebRoundTrip(v);
    Pow128Values();
    UlebLength(v, 10);
    assert d[|before|..|before| + n] == EncodeUleb(v);
    UlebFound(d, |before|, n);
  }

  lemma ReadsSleb(before: seq<Byte>, v: int, after: seq<Byte>)
    requires -(TWO64 / 2) <= v < TWO64 / 2
    ensures var d := before + EncodeSleb(v) + after;
            SlebAt(d, |before|) == Some((v, |before| + |EncodeSleb(v)|))
  {
    var d, n := before + EncodeSleb(v) + after, |EncodeSleb(v)|;
    SlebValue(v);
    assert d[|before|..|before| + n] == EncodeSleb(v);
    SlebFound(d, |before|, n);
  }
}
