/** std::string keys: their order, and the searches std::map offers on them. */
module TextOrder {
  import opened Base

  /** std::string::operator<: bytewise lexicographic. */
  predicate Less(a: Text, b: Text)
    decreases a
  {
    b != [] && (a == [] || a[0] < b[0] || (a[0] == b[0] && Less(a[1..], b[1..])))
  }

  predicate HasPrefix(s: Text, prefix: Text)
  {
    |prefix| <= |s| && s[..|prefix|] == prefix
  }

  lemma {:induction false} LessTransitive(a: Text, b: Text, c: Text)
    requires Less(a, b) && Less(b, c)
    ensures Less(a, c)
    decreases a
  {
    if a != [] && a[0] == b[0] == c[0] { LessTransitive(a[1..], b[1..], c[1..]); }
  }

  lemma {:induction false} LessTotal(a: Text, b: Text)
    ensures Less(a, b) || Less(b, a) || a == b
    ensures !(Less(a, b) && Less(b, a))
    decreases a
  {
    if a != [] && b != [] && a[0] == b[0] {
      LessTotal(a[1..], b[1..]);
      assert a == [a[0]] + a[1..] && b == [b[0]] + b[1..];
    }
  }

  lemma LessIrreflexive(a: Text)
    ensures !Less(a, a)
  {
    LessTotal(a, a);
  }

  /** a <= b < c or a < b <= c. */
  lemma NotLessChain(a: Text, b: Text, c: Text)
    ensures !Less(b, a) && Less(b, c) ==> Less(a, c)
    ensures Less(a, b) && !Less(c, b) ==> Less(a, c)
    ensures !Less(b, a) && !Less(c, b) ==> !Less(c, a)
  {
    LessTotal(a, b);
    LessTotal(b, c);
    LessTotal(a, c);
    if Less(a, b) && Less(b, c) { LessTransitive(a, b, c); }
  }

  /** A string is not below its prefixes. */
  lemma {:induction false} PrefixNotAbove(s: Text, prefix: Text)
    requires HasPrefix(s, prefix)
    ensures !Less(s, prefix)
    decreases prefix
  {
    if prefix != [] {
      assert s[0] == s[..|prefix|][0] && s[1..][..|prefix| - 1] == s[..|prefix|][1..];
      PrefixNotAbove(s[1..], prefix[1..]);
    }
  }

  /** The strings with a prefix stand together: whatever lies between the prefix and one of them
      has it too. */
  lemma {:induction false} PrefixesTogether(prefix: Text, s: Text, t: Text)
    requires !Less(s, prefix) && !Less(t, s) && HasPrefix(t, prefix)
    ensures HasPrefix(s, prefix)
    decreases prefix
  {
    if prefix != [] {
      assert t[0] == t[..|prefix|][0] && t[1..][..|prefix| - 1] == t[..|prefix|][1..];
      assert s != [] && s[0] == prefix[0];
      PrefixesTogether(prefix[1..], s[1..], t[1..]);
      assert s[..|prefix|] == [s[0]] + s[1..][..|prefix| - 1];
    }
  }

  ghost predicate IsLeast(keys: set<Text>, k: Text)
  {
    k in keys && forall j :: j in keys ==> !Less(j, k)
  }

  lemma {:induction false} LeastExists(keys: set<Text>)
    requires keys != {}
    ensures exists k :: IsLeast(keys, k)
  {
    var k :| k in keys;
    LessIrreflexive(k);
    var rest := keys - {k};
    if rest == {} {
      forall j | j in keys ensures !Less(j, k) { assert j == k || j in rest; }
      assert IsLeast(keys, k);
    } else {
      LeastExists(rest);
      var m :| IsLeast(rest, m);
      var least := if Less(k, m) then k else m;
      forall j | j in keys ensures !Less(j, least) {
        LessTotal(k, m);
        if j != k { assert j in rest; NotLessChain(k, m, j); }
      }
      assert IsLeast(keys, least);
    }
  }

  /** r is the first key that is not below x, or above x when strict. */
  ghost predicate IsBound(keys: set<Text>, x: Text, strict: bool, r: Option<Text>)
  {
    match r
    case None => forall k :: k in keys ==> !Reaches(k, x, strict)
    case Some(v) => v in keys && Reaches(v, x, strict) && forall k :: k in keys && Reaches(k, x, strict) ==> !Less(k, v)
  }

  predicate Reaches(k: Text, x: Text, strict: bool)
  {
    if strict then Less(x, k) else !Less(k, x)
  }

  /** lower_bound, and the step from an iterator to the next key. */
  method Bound(keys: set<Text>, x: Text, strict: bool) returns (r: Option<Text>)
    ensures IsBound(keys, x, strict, r)
  {
    var reached := set k | k in keys && Reaches(k, x, strict);
    if reached == {} {
      assert forall k :: k in keys && Reaches(k, x, strict) ==> k in reached;
      return None;
    }
    LeastExists(reached);
    assert exists k :: k in reached && forall j :: j in reached ==> !Less(j, k) by {
      var k :| IsLeast(reached, k);
    }
    var v :| v in reached && forall j :: j in reached ==> !Less(j, v);
    assert forall k :: k in keys && Reaches(k, x, strict) ==> k in reached;
    return Some(v);
  }

  /** a and b agree in their first n bytes, and then a ends or has the lower byte. */
  predicate LessAt(a: Text, b: Text, n: nat)
  {
    n <= |a| && n < |b| && a[..n] == b[..n] && (n == |a| || a[n] < b[n])
  }

  lemma SameFirst(a: Text, b: Text, n: nat)
    requires 0 < n <= |a| && n <= |b| && a[..n] == b[..n]
    ensures a[0] == b[0]
  {
    assert a[0] == a[..n][0] && b[0] == b[..n][0];
  }

  /** The order is that of the first byte in which they differ; a proper prefix comes first. */
  lemma {:induction false} LessMeans(a: Text, b: Text)
    ensures Less(a, b) <==> exists n: nat :: LessAt(a, b, n)
    decreases a
  {
    if a != [] && b != [] && a[0] == b[0] {
      LessMeans(a[1..], b[1..]);
      if Less(a[1..], b[1..]) {
        var n: nat :| LessAt(a[1..], b[1..], n);
        assert a[..n + 1] == [a[0]] + a[1..][..n] && b[..n + 1] == [b[0]] + b[1..][..n];
        assert LessAt(a, b, n + 1);
      }
      if exists n: nat :: LessAt(a, b, n) {
        var n: nat :| LessAt(a, b, n);
        assert a[1..][..n - 1] == a[..n][1..] && b[1..][..n - 1] == b[..n][1..];
        assert LessAt(a[1..], b[1..], n - 1);
      }
    } else if b != [] {
      assert LessAt(a, b, 0) <==> Less(a, b);
      forall n: nat | n > 0 ensures !LessAt(a, b, n) {
        if LessAt(a, b, n) { SameFirst(a, b, n); }
      }
    }
  }
}
