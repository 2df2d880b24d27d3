/** Encodings found at a position of a byte string. */
module Cursors {
  import opened Base
  import opened Endian

  ghost predicate Matches<T>(d: seq<T>, p: nat, s: seq<T>, i: nat)
    requires p + |s| <= |d| && i < |s|
  {
    d[p + i] == s[i]
  }

  /** s stands in d at position p. */
  ghost predicate At<T>(d: seq<T>, p: nat, s: seq<T>)
  {
    p + |s| <= |d| && forall i {:trigger Matches(d, p, s, i)} :: 0 <= i < |s| ==> Matches(d, p, s, i)
  }

  /** The n-byte little-endian integer v stands in d at position p. */
  ghost predicate IntAt(d: seq<Byte>, p: nat, n: nat, v: nat)
  {
    At(d, p, LittleEndian(v, n))
  }

  lemma AtSlice<T>(d: seq<T>, p: nat, s: seq<T>)
    requires p + |s| <= |d|
    ensures At(d, p, s) <==> d[p..p + |s|] == s
  {
    if d[p..p + |s|] == s {
      forall i | 0 <= i < |s| ensures Matches(d, p, s, i) { assert d[p..p + |s|][i] == s[i]; }
    }
    if At(d, p, s) {
      forall i | 0 <= i < |s| ensures d[p..p + |s|][i] == s[i] { assert Matches(d, p, s, i); }
    }
  }

  lemma AtConcat<T>(d: seq<T>, p: nat, a: seq<T>, b: seq<T>)
    ensures At(d, p, a + b) <==> At(d, p, a) && At(d, p + |a|, b)
  {
    if At(d, p, a + b) {
      forall i | 0 <= i < |a| ensures Matches(d, p, a, i) { assert Matches(d, p, a + b, i); }
      forall i {:trigger Matches(d, p + |a|, b, i)} | 0 <= i < |b| ensures Matches(d, p + |a|, b, i) {
        assert Matches(d, p, a + b, |a| + i);
      }
    }
    if At(d, p, a) && At(d, p + |a|, b) {
      forall i | 0 <= i < |a + b| ensures Matches(d, p, a + b, i) {
        if i < |a| { assert Matches(d, p, a, i); } else { assert Matches(d, p + |a|, b, i - |a|); }
      }
    }
  }

  lemma AtEmpty<T>(d: seq<T>, p: nat)
    ensures At(d, p, []) <==> p <= |d|
  {
  }

  lemma AtOne<T>(d: seq<T>, p: nat, x: T)
    ensures At(d, p, [x]) <==> p < |d| && d[p] == x
  {
    if p < |d| { assert Matches(d, p, [x], 0) <==> d[p] == x; }
  }

  /** Two strings of one length that stand at one place are equal. */
  lemma AtUnique<T>(d: seq<T>, p: nat, a: seq<T>, b: seq<T>)
    requires At(d, p, a) && At(d, p, b) && |a| == |b|
    ensures a == b
  {
    forall i | 0 <= i < |a| ensures a[i] == b[i] { assert Matches(d, p, a, i) && Matches(d, p, b, i); }
  }

  /** A string stands at its own beginning. */
  lemma AtSelf<T>(d: seq<T>)
    ensures At(d, 0, d)
  {
  }

  /** A fixed-width integer at a position is the integer read there. */
  lemma IntFound(d: seq<Byte>, p: nat, n: nat)
    requires p + n <= |d|
    ensures FromLittle(d[p..p + n]) < Pow256(n) && IntAt(d, p, n, FromLittle(d[p..p + n]))
  {
    LittleBytesRoundTrip(d[p..p + n]);
    FromLittleBound(d[p..p + n]);
    AtSlice(d, p, d[p..p + n]);
  }

  lemma IntUnique(d: seq<Byte>, p: nat, n: nat, v: nat, w: nat)
    requires IntAt(d, p, n, v) && IntAt(d, p, n, w) && v < Pow256(n) && w < Pow256(n)
    ensures v == w
  {
    AtUnique(d, p, LittleEndian(v, n), LittleEndian(w, n));
    LittleRoundTrip(v, n);
    LittleRoundTrip(w, n);
  }

  lemma U32Unique(d: seq<Byte>, p: nat, v: U32, w: U32)
    requires IntAt(d, p, 4, v) && IntAt(d, p, 4, w)
    ensures v == w
  {
    Pow256Values();
    IntUnique(d, p, 4, v, w);
  }

  lemma U64Unique(d: seq<Byte>, p: nat, v: U64, w: U64)
    requires IntAt(d, p, 8, v) && IntAt(d, p, 8, w)
    ensures v == w
  {
    Pow256Values();
    IntUnique(d, p, 8, v, w);
  }
}
