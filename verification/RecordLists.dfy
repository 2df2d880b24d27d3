/** Lists of records stored one behind the other, for any record encoding that can be read
    back in only one way. */
module RecordLists {
  import opened Base
  import opened Cursors

  /** The first n records. */
  function EncodeList<T>(encode: T -> seq<Byte>, items: seq<T>, n: nat): seq<Byte>
    requires n <= |items|
  {
    if n == 0 then [] else EncodeList(encode, items, n - 1) + encode(items[n - 1])
  }

  /** At most one acceptable record stands at any position. */
  ghost predicate Unambiguous<T(!new)>(encode: T -> seq<Byte>, ok: T -> bool)
  {
    forall d, p, a, b {:trigger At(d, p, encode(a)), At(d, p, encode(b))} ::
      ok(a) && ok(b) && At(d, p, encode(a)) && At(d, p, encode(b)) ==> a == b
  }

  ghost predicate AllOk<T>(ok: T -> bool, items: seq<T>)
  {
    forall i {:trigger ok(items[i])} :: 0 <= i < |items| ==> ok(items[i])
  }

  ghost predicate SameUpTo<T>(a: seq<T>, b: seq<T>, n: nat)
  {
    n <= |a| && n <= |b| && forall i {:trigger a[i]} {:trigger b[i]} :: 0 <= i < n ==> a[i] == b[i]
  }

  lemma {:induction false} ListGrows<T>(encode: T -> seq<Byte>, items: seq<T>, m: nat, n: nat)
    requires m <= n <= |items|
    ensures |EncodeList(encode, items, m)| <= |EncodeList(encode, items, n)|
  {
    if m < n { ListGrows(encode, items, m, n - 1); }
  }

  lemma {:induction false} SamePrefix<T>(encode: T -> seq<Byte>, a: seq<T>, b: seq<T>, n: nat)
    requires SameUpTo(a, b, n)
    ensures EncodeList(encode, a, n) == EncodeList(encode, b, n)
  {
    if n > 0 { SamePrefix(encode, a, b, n - 1); }
  }

  /** Where a list stands, its first i records stand, and the next one right behind them. */
  lemma {:induction false} FrontStands<T>(encode: T -> seq<Byte>, d: seq<Byte>, p: nat, items: seq<T>, i: nat, n: nat)
    requires i <= n <= |items| && At(d, p, EncodeList(encode, items, n))
    ensures At(d, p, EncodeList(encode, items, i))
    ensures i < n ==> At(d, p + |EncodeList(encode, items, i)|, encode(items[i]))
  {
    if i < n {
      AtConcat(d, p, EncodeList(encode, items, n - 1), encode(items[n - 1]));
      FrontStands(encode, d, p, items, i, n - 1);
    }
  }

  /** Record i stands right behind those before it, in a list at p. */
  ghost predicate RecordAt<T>(encode: T -> seq<Byte>, d: seq<Byte>, p: nat, items: seq<T>, i: nat)
    requires i < |items|
  {
    At(d, p + |EncodeList(encode, items, i)|, encode(items[i]))
  }

  /** A list stands where all its records stand. */
  lemma {:induction false} ListMeans<T>(encode: T -> seq<Byte>, d: seq<Byte>, p: nat, items: seq<T>, n: nat)
    requires n <= |items| && p <= |d|
    ensures At(d, p, EncodeList(encode, items, n)) <==>
            forall i {:trigger RecordAt(encode, d, p, items, i)} :: 0 <= i < n ==> RecordAt(encode, d, p, items, i)
  {
    if n > 0 {
      ListMeans(encode, d, p, items, n - 1);
      AtConcat(d, p, EncodeList(encode, items, n - 1), encode(items[n - 1]));
      assert RecordAt(encode, d, p, items, n - 1) <==>
             At(d, p + |EncodeList(encode, items, n - 1)|, encode(items[n - 1]));
    }
  }

  lemma NextAgrees<T(!new)>(encode: T -> seq<Byte>, ok: T -> bool, d: seq<Byte>, p: nat, a: seq<T>, b: seq<T>, i: nat)
    requires Unambiguous(encode, ok) && SameUpTo(a, b, i) && i < |a| && i < |b| && ok(a[i]) && ok(b[i])
    requires At(d, p + |EncodeList(encode, a, i)|, encode(a[i]))
    requires At(d, p + |EncodeList(encode, b, i)|, encode(b[i]))
    ensures SameUpTo(a, b, i + 1)
  {
    SamePrefix(encode, a, b, i);
  }

  /** Two lists of acceptable records that stand at one place agree. */
  lemma {:induction false} ListsAgree<T(!new)>(encode: T -> seq<Byte>, ok: T -> bool, d: seq<Byte>, p: nat,
                                               a: seq<T>, b: seq<T>, n: nat)
    requires Unambiguous(encode, ok) && n <= |a| && n <= |b| && AllOk(ok, a) && AllOk(ok, b)
    requires At(d, p, EncodeList(encode, a, n)) && At(d, p, EncodeList(encode, b, n))
    ensures SameUpTo(a, b, n)
  {
    if n > 0 {
      FrontStands(encode, d, p, a, n - 1, n);
      FrontStands(encode, d, p, b, n - 1, n);
      ListsAgree(encode, ok, d, p, a, b, n - 1);
      NextAgrees(encode, ok, d, p, a, b, n - 1);
    }
  }

  lemma SameLists<T(!new)>(encode: T -> seq<Byte>, ok: T -> bool, d: seq<Byte>, p: nat, a: seq<T>, b: seq<T>)
    requires Unambiguous(encode, ok) && |a| == |b| && AllOk(ok, a) && AllOk(ok, b)
    requires At(d, p, EncodeList(encode, a, |a|)) && At(d, p, EncodeList(encode, b, |b|))
    ensures a == b
  {
    ListsAgree(encode, ok, d, p, a, b, |a|);
  }

  ghost predicate NoItem<T(!new)>(encode: T -> seq<Byte>, ok: T -> bool, d: seq<Byte>, p: nat)
  {
    forall x {:trigger At(d, p, encode(x))} :: ok(x) ==> !At(d, p, encode(x))
  }

  ghost predicate NoList<T(!new)>(encode: T -> seq<Byte>, ok: T -> bool, d: seq<Byte>, p: nat, count: nat)
  {
    forall items :: |items| == count && AllOk(ok, items) ==> !At(d, p, EncodeList(encode, items, count))
  }

  /** Once the records found so far cannot be continued, there is no list at all. */
  lemma NoItemNoList<T(!new)>(encode: T -> seq<Byte>, ok: T -> bool, d: seq<Byte>, p: nat, found: seq<T>, count: nat)
    requires Unambiguous(encode, ok) && AllOk(ok, found) && |found| < count
    requires At(d, p, EncodeList(encode, found, |found|))
    requires NoItem(encode, ok, d, p + |EncodeList(encode, found, |found|)|)
    ensures NoList(encode, ok, d, p, count)
  {
    var i := |found|;
    forall items | |items| == count && AllOk(ok, items) ensures !At(d, p, EncodeList(encode, items, count)) {
      assert ok(items[i]);
      if At(d, p, EncodeList(encode, items, count)) {
        FrontStands(encode, d, p, items, i, count);
        ListsAgree(encode, ok, d, p, found, items, i);
        SamePrefix(encode, found, items, i);
      }
    }
  }

  lemma OneMore<T>(encode: T -> seq<Byte>, d: seq<Byte>, p: nat, found: seq<T>, x: T)
    requires At(d, p, EncodeList(encode, found, |found|))
    requires At(d, p + |EncodeList(encode, found, |found|)|, encode(x))
    ensures EncodeList(encode, found + [x], |found| + 1) == EncodeList(encode, found, |found|) + encode(x)
    ensures At(d, p, EncodeList(encode, found + [x], |found| + 1))
  {
    SamePrefix(encode, found + [x], found, |found|);
    AtConcat(d, p, EncodeList(encode, found, |found|), encode(x));
  }
}
