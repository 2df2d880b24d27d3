/** Fixed-width integers as bytes, least significant first or last. */
module Endian {
  import opened Base

  function Pow256(n: nat): (r: nat)
    ensures r > 0
  {
    if n == 0 then 1 else 256 * Pow256(n - 1)
  }

  /** static_cast<uint8_t>(v). */
  function LowByte(v: nat): Byte
  {
    v % 256
  }

  /** v >> (8 * i). */
  function ShiftRight(v: nat, i: nat): nat
  {
    if i == 0 then v else ShiftRight(v / 256, i - 1)
  }

  /** The n low bytes of v, least significant first. */
  function LittleEndian(v: nat, n: nat): (r: seq<Byte>)
    ensures |r| == n
  {
    seq(n, i requires 0 <= i < n => LowByte(ShiftRight(v, i)))
  }

  lemma LittleSplit(v: nat, n: nat)
    requires n > 0
    ensures LittleEndian(v, n) == [LowByte(v)] + LittleEndian(v / 256, n - 1)
  {
  }

  function FromLittle(b: seq<Byte>): nat
  {
    if b == [] then 0 else b[0] + 256 * FromLittle(b[1..])
  }

  function Reversed(b: seq<Byte>): (r: seq<Byte>)
    ensures |r| == |b| && forall i :: 0 <= i < |b| ==> r[i] == b[|b| - 1 - i]
  {
    seq(|b|, i requires 0 <= i < |b| => b[|b| - 1 - i])
  }

  /** The bytes of v in the given order. */
  function Encode(v: nat, n: nat, order: ByteOrder): (r: seq<Byte>)
    ensures |r| == n
  {
    if order.Little? then LittleEndian(v, n) else Reversed(LittleEndian(v, n))
  }

  function Decode(b: seq<Byte>, order: ByteOrder): nat
  {
    if order.Little? then FromLittle(b) else FromLittle(Reversed(b))
  }

  lemma {:induction false} FromLittleBound(b: seq<Byte>)
    ensures FromLittle(b) < Pow256(|b|)
  {
    if b != [] {
      FromLittleBound(b[1..]);
    }
  }

  lemma {:induction false} LittleRoundTrip(v: nat, n: nat)
    requires v < Pow256(n)
    ensures FromLittle(LittleEndian(v, n)) == v
  {
    if n > 0 {
      LittleRoundTrip(v / 256, n - 1);
      LittleSplit(v, n);
      assert LittleEndian(v, n)[1..] == LittleEndian(v / 256, n - 1);
    }
  }

  lemma {:induction false} LittleBytesRoundTrip(b: seq<Byte>)
    ensures LittleEndian(FromLittle(b), |b|) == b
  {
    if b != [] {
      LittleBytesRoundTrip(b[1..]);
      LittleSplit(FromLittle(b), |b|);
      HighPart(b[0], FromLittle(b[1..]));
      assert b == [b[0]] + b[1..];
    }
  }

  lemma HighPart(b: Byte, rest: nat)
    ensures LowByte(b + 256 * rest) == b && (b + 256 * rest) / 256 == rest
  {
  }

  // ----- the bytes of an integer -----

  /** Byte number i of n of an integer in the given order. */
  function IntegerByte(v: nat, n: nat, i: nat, order: ByteOrder): Byte
    requires i < n
  {
    if order.Little? then v / Pow256(i) % 256 else v / Pow256(n - 1 - i) % 256
  }

  lemma {:induction false} ShiftIsQuotient(v: nat, i: nat)
    ensures ShiftRight(v, i) == v / Pow256(i)
  {
    if i > 0 {
      ShiftIsQuotient(v / 256, i - 1);
      QuotientTwice(v, 256, Pow256(i - 1));
    }
  }

  lemma QuotientTwice(x: nat, p: nat, q: nat)
    requires p > 0 && q > 0
    ensures p * q > 0 && x / (p * q) == x / p / q
  {
    var a, r, s := x / p / q, x / p % q, x % p;
    MulMonotone(1, q, p);
    DivMod(x, p);
    DivMod(x / p, q);
    assert x == a * (p * q) + (r * p + s) by {
      Distribute(a, q, p);
      assert (x / p) * p == (a * q + r) * p;
      assert (a * q + r) * p == a * q * p + r * p;
      assert p * q == q * p;
    }
    assert r * p + s < p * q by {
      MulMonotone(r + 1, q, p);
      assert (r + 1) * p == r * p + p;
      assert p * q == q * p;
    }
    UniqueRemainder(x, p * q, a, r * p + s);
  }

  lemma LittleByte(v: nat, n: nat, i: nat)
    requires i < n
    ensures LittleEndian(v, n)[i] == v / Pow256(i) % 256
  {
    ShiftIsQuotient(v, i);
  }

  lemma EncodedByte(v: nat, n: nat, i: nat, order: ByteOrder)
    requires i < n
    ensures Encode(v, n, order)[i] == IntegerByte(v, n, i, order)
  {
    if order.Little? { LittleByte(v, n, i); } else { LittleByte(v, n, n - 1 - i); }
  }

  lemma ReversedTwice(b: seq<Byte>)
    ensures Reversed(Reversed(b)) == b
  {
  }

  /** Reading back the n bytes written of any integer gives it modulo 256 to the power n. */
  lemma EncodeTruncates(v: nat, n: nat, order: ByteOrder)
    ensures Decode(Encode(v, n, order), order) == v % Pow256(n)
  {
    LittleTruncates(v, n);
    ReversedTwice(LittleEndian(v, n));
  }

  lemma {:induction false} LittleTruncates(v: nat, n: nat)
    ensures FromLittle(LittleEndian(v, n)) == v % Pow256(n)
  {
    if n > 0 {
      LittleTruncates(v / 256, n - 1);
      LittleSplit(v, n);
      assert LittleEndian(v, n)[1..] == LittleEndian(v / 256, n - 1);
      NestedRemainder(v, Pow256(n - 1));
    }
  }

  lemma NestedRemainder(v: nat, p: nat)
    requires p > 0
    ensures v % 256 + 256 * (v / 256 % p) == v % (256 * p)
  {
    var q, r := v / 256 / p, v / 256 % p;
    DivMod(v / 256, p);
    assert v == q * (256 * p) + (256 * r + v % 256) by {
      assert v == 256 * (q * p + r) + v % 256;
      assert q * (256 * p) == 256 * (q * p);
    }
    assert 256 * r + v % 256 < 256 * p;
    UniqueRemainder(v, 256 * p, q, 256 * r + v % 256);
  }

  /** Reading back what was written, and writing back what was read, for both orders. */
  lemma EncodeDecode(v: nat, n: nat, order: ByteOrder)
    requires v < Pow256(n)
    ensures Decode(Encode(v, n, order), order) == v
  {
    LittleRoundTrip(v, n);
    ReversedTwice(LittleEndian(v, n));
  }

  lemma DecodeEncode(b: seq<Byte>, order: ByteOrder)
    ensures Decode(b, order) < Pow256(|b|) && Encode(Decode(b, order), |b|, order) == b
  {
    FromLittleBound(b);
    FromLittleBound(Reversed(b));
    LittleBytesRoundTrip(b);
    LittleBytesRoundTrip(Reversed(b));
    ReversedTwice(b);
  }

  lemma Pow256Values()
    ensures Pow256(1) == 0x100 && Pow256(2) == 0x1_0000 && Pow256(4) == TWO32 && Pow256(8) == TWO64
  {
    assert Pow256(2) == 256 * Pow256(1);
    assert Pow256(4) == 256 * Pow256(3) && Pow256(3) == 256 * Pow256(2);
    assert Pow256(6) == 256 * Pow256(5) && Pow256(5) == 256 * Pow256(4);
    assert Pow256(8) == 256 * Pow256(7) && Pow256(7) == 256 * Pow256(6);
  }

  /** value << 8 in 64 bits: the top byte is lost. */
  function ShiftUp(value: U64): (r: U64)
    ensures r <= TWO64 - 256
    ensures value < 0x100_0000_0000_0000 ==> r == 256 * value
  {
    value % 0x100_0000_0000_0000 * 256
  }

  /** (value << 8) | b. */
  function ShiftIn(value: U64, b: Byte): U64
  {
    ShiftUp(value) + b
  }

  lemma ShiftInFits(value: U64, b: Byte, n: nat)
    requires n < 8 && value < Pow256(n)
    ensures ShiftIn(value, b) == 256 * value + b < Pow256(n + 1)
  {
    assert Pow256(7) == 0x100_0000_0000_0000 by { Pow256Values(); }
    Pow256Grows(n, 7);
  }

  lemma {:induction false} Pow256Grows(m: nat, n: nat)
    requires m <= n
    ensures Pow256(m) <= Pow256(n)
  {
    if m < n { Pow256Grows(m, n - 1); }
  }

  /** The loops that assemble an integer from the bytes of memory or of a file. */
  method AssembleInteger(bytes: seq<Byte>, order: ByteOrder) returns (value: U64)
    requires |bytes| <= 8
    ensures value == Decode(bytes, order)
  {
    var n := |bytes|;
    value := 0;
    ghost var ordered := if order.Little? then bytes else Reversed(bytes);
    for i := 0 to n
      invariant value == FromLittle(ordered[n - i..]) < Pow256(i)
    {
      var b := if order.Little? then bytes[n - 1 - i] else bytes[i];
      ShiftInFits(value, b, i);
      assert ordered[n - i - 1..][1..] == ordered[n - i..];
      value := ShiftIn(value, b);
    }
    assert ordered[0..] == ordered;
  }

  /** The loop that fills uint8_t bytes[8] with the first n bytes of an integer. */
  method SplitInteger(value: U64, n: nat, order: ByteOrder) returns (r: seq<Byte>)
    requires n <= 8
    ensures r == Encode(value, n, order)
  {
    var bytes := new Byte[8](i => 0);
    for i := 0 to n
      invariant bytes.Length == 8
      invariant forall j :: 0 <= j < i ==>
                  bytes[if order.Little? then j else n - j - 1] == LittleEndian(value, n)[j]
    {
      var destination := if order.Little? then i else n - i - 1;
      bytes[destination] := LowByte(ShiftRight(value, i));
    }
    r := bytes[..n];
  }
}
