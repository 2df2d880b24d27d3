/** LEB128 integers (section 7.6 of DWARF 5): what an encoding is and what it stands for. */
module Leb128 {
  import opened Base

  /** The low seven bits of an encoded byte, and its continuation bit. */
  function Payload(b: Byte): (r: nat)
    ensures r < 128
  {
    b % 128
  }

  predicate More(b: Byte)
  {
    b >= 128
  }

  function Pow128(n: nat): (r: nat)
    ensures r > 0
  {
    if n == 0 then 1 else 128 * Pow128(n - 1)
  }

  /** payload << (7 * n). */
  function Shift(payload: nat, n: nat): nat
  {
    if n == 0 then payload else 128 * Shift(payload, n - 1)
  }

  lemma {:induction false} ShiftBounds(payload: nat, n: nat)
    requires payload < 128
    ensures Shift(payload, n) + Pow128(n) <= Pow128(n + 1)
    ensures payload >= 64 ==> Shift(payload, n) >= 64 * Pow128(n)
    ensures payload < 64 ==> Shift(payload, n) + Pow128(n) <= 64 * Pow128(n)
    ensures payload > 1 ==> Shift(payload, n) >= 2 * Pow128(n)
    ensures payload <= 1 ==> Shift(payload, n) <= Pow128(n)
  {
    if n > 0 { ShiftBounds(payload, n - 1); }
  }

  /** All bytes but the last carry the continuation bit. */
  ghost predicate IsLeb(b: seq<Byte>)
  {
    |b| > 0 && !More(b[|b| - 1]) && forall i :: 0 <= i < |b| - 1 ==> More(b[i])
  }

  /** The weighted sum of the payloads. */
  function FromLeb(b: seq<Byte>): nat
  {
    if b == [] then 0 else Payload(b[0]) + 128 * FromLeb(b[1..])
  }

  /** The two's complement reading of 64 bits. */
  function ToSigned(raw: U64): int
  {
    if raw < TWO64 / 2 then raw else raw - TWO64
  }

  /** What a signed encoding of at most ten bytes stands for. */
  function FromSleb(b: seq<Byte>): int
    requires |b| > 0
  {
    if |b| < 10 then FromLeb(b) - (if Payload(b[|b| - 1]) >= 64 then Pow128(|b|) else 0)
    else ToSigned(FromLeb(b) % TWO64)
  }

  lemma {:induction false} FromLebBound(b: seq<Byte>)
    ensures FromLeb(b) < Pow128(|b|)
  {
    if b != [] { FromLebBound(b[1..]); }
  }

  lemma {:induction false} FromLebAppend(b: seq<Byte>, x: Byte)
    ensures FromLeb(b + [x]) == FromLeb(b) + Shift(Payload(x), |b|)
  {
    if b == [] {
      assert b + [x] == [x];
    } else {
      FromLebAppend(b[1..], x);
      assert (b + [x])[1..] == b[1..] + [x];
    }
  }

  lemma Pow128Values()
    ensures Pow128(9) == TWO64 / 2 && Pow128(10) == 64 * TWO64
  {
    assert Pow128(2) == 128 * Pow128(1);
    assert Pow128(4) == 128 * Pow128(3) && Pow128(3) == 128 * Pow128(2);
    assert Pow128(6) == 128 * Pow128(5) && Pow128(5) == 128 * Pow128(4);
    assert Pow128(8) == 128 * Pow128(7) && Pow128(7) == 128 * Pow128(6);
    assert Pow128(10) == 128 * Pow128(9) && Pow128(9) == 128 * Pow128(8);
  }

  lemma {:induction false} Pow128Grows(m: nat, n: nat)
    requires m <= n
    ensures Pow128(m) <= Pow128(n)
  {
    if m < n { Pow128Grows(m, n - 1); }
  }

  /** There is at most one encoding at a position. */
  lemma LebIsPrefixFree(d: seq<Byte>, p: nat, m: nat, n: nat)
    requires p + m <= |d| && p + n <= |d| && IsLeb(d[p..p + m]) && IsLeb(d[p..p + n])
    ensures m == n
  {
    assert m <= n ==> d[p..p + n][m - 1] == d[p..p + m][m - 1];
    assert n <= m ==> d[p..p + m][n - 1] == d[p..p + n][n - 1];
  }

  /** What one more payload of at most ten adds to the sum, and whether it still fits. */
  lemma TenthFits(i: nat, payload: nat, value: nat)
    requires i < 10 && payload < 128 && value < Pow128(i)
    ensures i < 9 || payload <= 1 ==> value + Shift(payload, i) < TWO64
    ensures i == 9 && payload > 1 ==> Shift(payload, i) >= TWO64
  {
    assert Pow128(9) == TWO64 / 2 by { Pow128Values(); }
    ShiftBounds(payload, i);
    if i < 9 { Pow128Grows(i + 1, 9); }
  }

  // ----- the shortest encodings -----

  function EncodeUleb(v: nat): (r: seq<Byte>)
    ensures |r| > 0
  {
    if v < 128 then [v] else [128 + v % 128] + EncodeUleb(v / 128)
  }

  function EncodeSleb(v: int): (r: seq<Byte>)
    ensures |r| > 0
    decreases if v < 0 then -v else v
  {
    if -64 <= v < 64 then [v % 128] else [128 + v % 128] + EncodeSleb(v / 128)
  }

  lemma ContinuedByte(p: nat)
    requires p < 128
    ensures More(128 + p) && Payload(128 + p) == p
  {
  }

  lemma FinalByte(p: nat)
    requires p < 128
    ensures !More(p) && Payload(p) == p
  {
  }

  lemma LebCons(x: Byte, b: seq<Byte>)
    requires More(x) && IsLeb(b)
    ensures IsLeb([x] + b) && FromLeb([x] + b) == Payload(x) + 128 * FromLeb(b)
  {
    var c := [x] + b;
    assert c[1..] == b;
    forall i | 0 <= i < |c| - 1 ensures More(c[i]) { if i > 0 { assert c[i] == b[i - 1]; } }
  }

  lemma {:induction false} UlebRoundTrip(v: nat)
    ensures IsLeb(EncodeUleb(v)) && FromLeb(EncodeUleb(v)) == v
  {
    if v < 128 {
      FinalByte(v);
      assert FromLeb([v]) == v;
    } else {
      UlebRoundTrip(v / 128);
      ContinuedByte(v % 128);
      LebCons(128 + v % 128, EncodeUleb(v / 128));
    }
  }

  lemma {:induction false} UlebLength(v: nat, n: nat)
    requires v < Pow128(n) && n > 0
    ensures |EncodeUleb(v)| <= n
  {
    if v >= 128 {
      assert n > 1;
      UlebLength(v / 128, n - 1);
    }
  }

  /** No encoding of the same value is shorter. */
  lemma UlebIsShortest(b: seq<Byte>)
    requires IsLeb(b)
    ensures |EncodeUleb(FromLeb(b))| <= |b|
  {
    FromLebBound(b);
    UlebLength(FromLeb(b), |b|);
  }

  lemma SlebCons(v: int, rest: seq<Byte>)
    requires IsLeb(rest) && FromLeb(rest) == if v < 0 then v / 128 + Pow128(|rest|) else v / 128
    ensures IsLeb([128 + v % 128] + rest)
    ensures FromLeb([128 + v % 128] + rest) == if v < 0 then v + Pow128(1 + |rest|) else v
  {
    ContinuedByte(v % 128);
    LebCons(128 + v % 128, rest);
  }

  lemma {:induction false} SlebRoundTrip(v: int)
    ensures IsLeb(EncodeSleb(v))
    ensures FromLeb(EncodeSleb(v)) == (if v < 0 then v + Pow128(|EncodeSleb(v)|) else v)
    decreases if v < 0 then -v else v
  {
    if -64 <= v < 64 {
      FinalByte(v % 128);
      assert FromLeb([v % 128]) == v % 128;
    } else {
      SlebRoundTrip(v / 128);
      SlebCons(v, EncodeSleb(v / 128));
    }
  }

  /** The last byte of a signed encoding carries the sign in its second-highest bit. */
  lemma {:induction false} SlebSign(v: int)
    ensures Payload(EncodeSleb(v)[|EncodeSleb(v)| - 1]) >= 64 <==> v < 0
    decreases if v < 0 then -v else v
  {
    if -64 <= v < 64 {
      FinalByte(v % 128);
    } else {
      SlebSign(v / 128);
      assert EncodeSleb(v)[1..] == EncodeSleb(v / 128);
    }
  }

  lemma {:induction false} SlebLength(v: int, n: nat)
    requires n > 0 && -64 * Pow128(n - 1) <= v < 64 * Pow128(n - 1)
    ensures |EncodeSleb(v)| <= n
    decreases n
  {
    if !(-64 <= v < 64) {
      assert n > 1;
      SlebLength(v / 128, n - 1);
    }
  }

  lemma WrapsOnce(v: int, u: nat)
    requires -(TWO64 / 2) <= v < TWO64 / 2 && u == if v < 0 then v + 64 * TWO64 else v
    ensures ToSigned(u % TWO64) == v
  {
    assert u % TWO64 == if v < 0 then v + TWO64 else v;
  }

  /** Every 64-bit signed value comes back from its encoding. */
  lemma SlebValue(v: int)
    requires -(TWO64 / 2) <= v < TWO64 / 2
    ensures |EncodeSleb(v)| <= 10 && IsLeb(EncodeSleb(v)) && FromSleb(EncodeSleb(v)) == v
  {
    Pow128Values();
    SlebLength(v, 10);
    SlebRoundTrip(v);
    SlebSign(v);
    var b := EncodeSleb(v);
    if |b| == 10 { WrapsOnce(v, FromLeb(b)); }
  }

  /** The top payload decides the sign: the sum is at least half the range iff it is 64 or more. */
  lemma LastPayload(b: seq<Byte>)
    requires |b| > 0
    ensures Payload(b[|b| - 1]) >= 64 <==> FromLeb(b) >= 64 * Pow128(|b| - 1)
  {
    var m := |b| - 1;
    assert b == b[..m] + [b[m]];
    FromLebAppend(b[..m], b[m]);
    FromLebBound(b[..m]);
    ShiftBounds(Payload(b[m]), m);
  }

  /** No signed encoding that the reader accepts is shorter than that of its value. */
  lemma SlebIsShortest(b: seq<Byte>)
    requires IsLeb(b) && |b| <= 10
    ensures |EncodeSleb(FromSleb(b))| <= |b|
  {
    FromLebBound(b);
    if |b| < 10 {
      LastPayload(b);
    } else {
      Pow128Values();
    }
    SlebLength(FromSleb(b), |b|);
  }

  // ----- the examples of section 7.6 of DWARF 5 -----

  lemma UnsignedExamples()
    ensures EncodeUleb(2) == [2] && EncodeUleb(127) == [127] && EncodeUleb(128) == [0x80, 1]
    ensures EncodeUleb(129) == [0x81, 1] && EncodeUleb(12857) == [0xB9, 0x64]
  {
  }

  lemma SignedExamples()
    ensures EncodeSleb(2) == [2] && EncodeSleb(-2) == [0x7E]
    ensures EncodeSleb(127) == [0xFF, 0] && EncodeSleb(-127) == [0x81, 0x7F]
    ensures EncodeSleb(128) == [0x80, 1] && EncodeSleb(-128) == [0x80, 0x7F]
    ensures EncodeSleb(129) == [0x81, 1] && EncodeSleb(-129) == [0xFF, 0x7E]
  {
  }
}
