/** The searches std::map offers on integer keys: lower_bound, upper_bound and in-order walks. */
module OrderedMaps {
  ghost predicate IsLeast(keys: set<nat>, k: int)
  {
    k in keys && forall j :: j in keys ==> k <= j
  }

  predicate IsFloor(keys: set<nat>, x: nat, k: int)
  {
    k in keys && k <= x && forall j :: j in keys && j <= x ==> j <= k
  }

  lemma {:induction false} LeastExists(keys: set<nat>)
    requires |keys| > 0
    ensures exists k :: IsLeast(keys, k)
  {
    assert keys != {};
    var k :| k in keys;
    var rest := keys - {k};
    if |rest| == 0 {
      assert keys == {k};
      assert IsLeast(keys, k);
    } else {
      LeastExists(rest);
      var m :| IsLeast(rest, m);
      assert forall j :: j in keys ==> j in rest || j == k;
      assert IsLeast(keys, if m < k then m else k);
    }
  }

  lemma {:induction false} FloorExists(keys: set<nat>, x: nat, w: int)
    requires w in keys && w <= x
    ensures exists k :: IsFloor(keys, x, k)
  {
    if !IsFloor(keys, x, w) {
      var v :| v in keys && v <= x && v > w;
      var rest := keys - {w};
      assert v in rest;
      FloorExists(rest, x, v);
      var k :| IsFloor(rest, x, k);
      forall j | j in keys && j <= x ensures j <= k { if j != w { assert j in rest; } }
      assert IsFloor(keys, x, k);
    }
  }

  /** Some key is at most x: upper_bound(x) is not begin(). */
  predicate HasFloor(keys: set<nat>, x: nat)
  {
    exists k :: k in keys && k <= x
  }

  predicate HasCeiling(keys: set<nat>, x: nat)
  {
    exists k :: k in keys && k >= x
  }

  /** The last key not above x: the predecessor of upper_bound(x). */
  function Floor(keys: set<nat>, x: nat): (r: nat)
    requires HasFloor(keys, x)
    ensures r in keys && r <= x && forall k :: k in keys && k <= x ==> k <= r
  {
    assert exists k :: IsFloor(keys, x, k) by {
      var w :| w in keys && w <= x;
      FloorExists(keys, x, w);
    }
    var r :| r in keys && IsFloor(keys, x, r);
    r
  }

  function Least(keys: set<nat>): (r: nat)
    requires |keys| > 0
    ensures r in keys && forall k :: k in keys ==> r <= k
  {
    LeastExists(keys);
    var r :| r in keys && forall k :: k in keys ==> r <= k;
    r
  }

  /** lower_bound(x). */
  function Ceiling(keys: set<nat>, x: nat): (r: nat)
    requires HasCeiling(keys, x)
    ensures r in keys && r >= x && forall k :: k in keys && k >= x ==> r <= k
  {
    var above := set k | k in keys && k >= x;
    assert |above| > 0 by {
      var w :| w in keys && w >= x;
      assert w in above;
    }
    var r := Least(above);
    assert forall k :: k in keys && k >= x ==> k in above;
    r
  }

  /** The keys in iteration order. */
  function Ascending(keys: set<nat>): (r: seq<nat>)
    ensures |r| == |keys|
    ensures forall k :: k in r <==> k in keys
    ensures forall i, j :: 0 <= i < j < |r| ==> r[i] < r[j]
  {
    if |keys| == 0 then []
    else
      var k := Least(keys);
      [k] + Ascending(keys - {k})
  }

  ghost predicate Rising(s: seq<nat>)
  {
    forall i, j {:trigger s[i], s[j]} :: 0 <= i < j < |s| ==> s[i] < s[j]
  }

  lemma FirstIsLeast(s: seq<nat>, t: seq<nat>)
    requires Rising(s) && Rising(t) && s != [] && t != [] && forall k {:trigger k in s} :: k in s ==> k in t
    ensures t[0] <= s[0]
  {
    assert s[0] in s;
    var j :| 0 <= j < |t| && t[j] == s[0];
  }

  lemma FirstIn(s: seq<nat>)
    requires s != []
    ensures s[0] in s
  {
  }

  /** A set has one ascending order. */
  lemma {:induction false} RisingUnique(s: seq<nat>, t: seq<nat>)
    requires Rising(s) && Rising(t) && forall k: nat {:trigger k in s} {:trigger k in t} :: k in s <==> k in t
    ensures s == t
  {
    if s != [] { FirstIn(s); }
    if t != [] { FirstIn(t); }
    if s != [] && t != [] {
      FirstIsLeast(s, t);
      FirstIsLeast(t, s);
      RestSame(s, t);
      RestSame(t, s);
      RisingUnique(s[1..], t[1..]);
      assert s == [s[0]] + s[1..] && t == [t[0]] + t[1..];
    }
  }

  lemma RestSame(s: seq<nat>, t: seq<nat>)
    requires Rising(s) && Rising(t) && s != [] && t != [] && s[0] == t[0]
    requires forall k {:trigger k in s} :: k in s ==> k in t
    ensures Rising(s[1..]) && forall k {:trigger k in s[1..]} :: k in s[1..] ==> k in t[1..]
  {
    forall k | k in s[1..] ensures k in t[1..] {
      var i :| 0 <= i < |s| - 1 && s[1..][i] == k;
      assert s[i + 1] == k && k in s;
      var j :| 0 <= j < |t| && t[j] == k;
      assert t[1..][j - 1] == k;
    }
  }

  /** A key above all others comes last. */
  lemma AscendingAppend(keys: set<nat>, k: nat)
    requires forall j {:trigger j in keys} :: j in keys ==> j < k
    ensures Ascending(keys + {k}) == Ascending(keys) + [k]
  {
    var s, t := Ascending(keys + {k}), Ascending(keys);
    AppendRises(t, k);
    RisingUnique(s, t + [k]);
  }

  lemma AppendRises(t: seq<nat>, k: nat)
    requires Rising(t) && forall j {:trigger j in t} :: j in t ==> j < k
    ensures Rising(t + [k])
  {
    forall i | 0 <= i < |t| ensures t[i] < k { assert t[i] in t; }
  }
}
