/** What parse_entries turns away, and what it never lets through. */
module DebugRejections {
  import opened Base
  import opened DebugForests
  import opened DebugInfo
  import opened Leb128
  import opened Readers

  // ----- one attribute -----

  /** The name and the form of the attribute at p can be read; its value is to stand at t. */
  ghost predicate HeadedAt(x: Lexer, p: nat, form: U64, t: nat)
  {
    x.uleb(p).Some? && x.uleb(x.uleb(p).value.1) == Some((form, t))
  }

  /** No value in this form stands at t: a number cannot be read, or a text is longer than what is left or
      than the limit. */
  ghost predicate NoValueAt(limits: Limits, x: Lexer, form: U64, t: nat)
  {
    || (form == 1 && x.uleb(t).None?)
    || (form == 2 && x.sleb(t).None?)
    || (form == 3
        && (|| x.uleb(t).None?
            || x.uleb(t).value.1 + x.uleb(t).value.0 > |x.input|
            || x.uleb(t).value.0 > limits.maxStringBytes))
  }

  lemma AttributeFails(limits: Limits, x: Lexer, p: nat)
    ensures AttributeAt(limits, x, p) == Err(Truncated) <==> forall form: U64, t: nat :: !HeadedAt(x, p, form, t)
    ensures forall form: U64, t: nat {:trigger HeadedAt(x, p, form, t)} :: HeadedAt(x, p, form, t) ==>
              && (AttributeAt(limits, x, p) == Err(InvalidDebugInfo) <==> form != 1 && form != 2 && form != 3)
              && (AttributeAt(limits, x, p) == Err(Unspecified) <==> NoValueAt(limits, x, form, t))
              && (AttributeAt(limits, x, p).Err? ==>
                    AttributeAt(limits, x, p).code == InvalidDebugInfo || AttributeAt(limits, x, p).code == Unspecified)
  {
    if x.uleb(p).Some? && x.uleb(x.uleb(p).value.1).Some? {
      var (form, t) := x.uleb(x.uleb(p).value.1).value;
      assert HeadedAt(x, p, form, t);
    }
  }

  // ----- what is let through -----

  /** The lexer's signed numbers are 64-bit ones. */
  ghost predicate SignedFit(x: Lexer)
  {
    forall p: nat {:trigger x.sleb(p)} :: x.sleb(p).Some? ==> IsInt64(x.sleb(p).value.0)
  }

  /** Form 1 holds an unsigned number, form 2 a signed one, form 3 a text within the limit; there is no
      other form. */
  predicate Known(limits: Limits, a: DebugAttribute)
  {
    match a.value
    case Unsigned(_) => a.form == 1
    case Signed(i) => a.form == 2 && IsInt64(i)
    case Characters(text) => a.form == 3 && |text| <= limits.maxStringBytes
  }

  ghost predicate EntryKnown(limits: Limits, e: DebugEntry)
  {
    && (forall i {:trigger e.attributes[i]} :: 0 <= i < |e.attributes| ==> Known(limits, e.attributes[i]))
    && AllKnown(limits, e.children)
  }

  ghost predicate AllKnown(limits: Limits, forest: Forest)
  {
    forall i {:trigger forest[i]} :: 0 <= i < |forest| ==> EntryKnown(limits, forest[i])
  }

  lemma {:induction false} AttributesKnown(limits: Limits, x: Lexer, p: nat, n: nat)
    requires SignedFit(x) && p <= |x.input| && AttributesAt(limits, x, p, n).Ok?
    ensures var all := AttributesAt(limits, x, p, n).value.0;
            |all| == n && forall i {:trigger all[i]} :: 0 <= i < |all| ==> Known(limits, all[i])
    decreases n
  {
    if n > 0 {
      var (a, q) := AttributeAt(limits, x, p).value;
      AttributesKnown(limits, x, q, n - 1);
      assert Known(limits, a);
    }
  }

  lemma ItemKnown(limits: Limits, x: Lexer, p: nat, level: nat)
    requires SignedFit(x) && ItemAt(limits, x, p, level).Found?
    ensures EntryKnown(limits, ItemAt(limits, x, p, level).entry)
  {
    var (tag, q) := x.uleb(p).value;
    AttributesKnown(limits, x, q + 2, x.input[q + 1]);
  }

  /** Every attribute of every entry that is read, at any depth, has a known form and a value that fits it. */
  lemma {:induction false} ReadIsKnown(limits: Limits, x: Lexer, p: nat, level: nat)
    requires SignedFit(x) && p <= |x.input|
    ensures AllKnown(limits, ParseLevel(limits, x, p, level).entries)
    decreases |x.input| - p
  {
    if p < |x.input| && ItemAt(limits, x, p, level).Found? {
      var item := ItemAt(limits, x, p, level);
      ItemKnown(limits, x, p, level);
      if item.entry.hasChildren {
        var inner := ParseLevel(limits, x, item.next, level + 1);
        ReadIsKnown(limits, x, item.next, level + 1);
        ReadIsKnown(limits, x, inner.next, level);
      } else {
        ReadIsKnown(limits, x, item.next, level);
      }
    }
  }

  lemma SlebFits(b: seq<Byte>)
    requires 0 < |b| <= 10
    ensures IsInt64(FromSleb(b))
  {
    if |b| < 10 {
      FromLebBound(b);
      Pow128Grows(|b|, 9);
      assert Pow128(9) == TWO64 / 2 by { Pow128Values(); }
    }
  }

  lemma InputSignedFit(d: seq<Byte>)
    ensures SignedFit(LexerOf(d))
  {
    var x := LexerOf(d);
    forall p: nat | x.sleb(p).Some? ensures IsInt64(x.sleb(p).value.0) {
      var n :| SlebSpan(d, p, n);
      SlebFound(d, p, n);
      SlebFits(d[p..p + n]);
    }
  }

  /** So parse_entries adds only such entries, whatever its input. */
  lemma AddedIsKnown(limits: Limits, data: Blob)
    ensures AllKnown(limits, ParseLevel(limits, LexerOf(data), 0, 1).entries)
  {
    InputSignedFit(data);
    ReadIsKnown(limits, LexerOf(data), 0, 1);
  }

  // ----- what ends the parse -----

  /** The first attribute that cannot be read decides the error. */
  lemma {:induction false} FirstFault(limits: Limits, x: Lexer, p: nat, n: nat, k: nat,
                                      first: seq<DebugAttribute>, t: nat)
    requires p <= |x.input| && k < n && AttributesAt(limits, x, p, k) == Ok((first, t))
    requires AttributeAt(limits, x, t).Err?
    ensures AttributesAt(limits, x, p, n) == Err(AttributeAt(limits, x, t).code)
    decreases k
  {
    if k > 0 {
      var (a, q) := AttributeAt(limits, x, p).value;
      FirstFault(limits, x, q, n - 1, k - 1, AttributesAt(limits, x, q, k - 1).value.0, t);
    }
  }

  /** The entry at p, in a level within the limit, has more than k attributes, and attribute k stands at t,
      behind k attributes that can be read. */
  ghost predicate AttributeStandsAt(limits: Limits, x: Lexer, p: nat, level: nat, k: nat, t: nat)
  {
    && x.uleb(p).Some? && x.uleb(p).value.0 != 0 && level <= limits.maxDebugDepth
    && var q := x.uleb(p).value.1;
       && q + 2 <= |x.input| && k < x.input[q + 1]
       && AttributesAt(limits, x, q + 2, k).Ok? && AttributesAt(limits, x, q + 2, k).value.1 == t
  }

  lemma FaultEnds(limits: Limits, x: Lexer, forest: Forest, depth: nat, p: nat, whole: Level, k: nat, t: nat)
    requires ComesTo(limits, x, forest, depth, p, whole) && p < |x.input|
    requires AttributeStandsAt(limits, x, p, depth, k, t) && AttributeAt(limits, x, t).Err?
    ensures whole == Level(forest, p, Broken(AttributeAt(limits, x, t).code))
  {
    var q := x.uleb(p).value.1;
    FirstFault(limits, x, q + 2, x.input[q + 1], k, AttributesAt(limits, x, q + 2, k).value.0, t);
    StopStep(limits, x, forest, depth, p);
  }

  /** Wherever the parser is, in whatever levels: an attribute of an unknown form ends the whole parse with
      invalid_debug_info, and its entry is not added. */
  lemma UnknownFormEnds(limits: Limits, x: Lexer, forest: Forest, depth: nat, p: nat, whole: Level, k: nat, t: nat,
                        form: U64, v: nat)
    requires ComesTo(limits, x, forest, depth, p, whole) && p < |x.input|
    requires AttributeStandsAt(limits, x, p, depth, k, t) && HeadedAt(x, t, form, v)
    requires form != 1 && form != 2 && form != 3
    ensures whole == Level(forest, p, Broken(InvalidDebugInfo))
  {
    AttributeFails(limits, x, t);
    FaultEnds(limits, x, forest, depth, p, whole, k, t);
  }

  /** A text that is longer than the limit or than what is left, or a number that cannot be read, ends it
      with the error as it was. */
  lemma BadValueEnds(limits: Limits, x: Lexer, forest: Forest, depth: nat, p: nat, whole: Level, k: nat, t: nat,
                     form: U64, v: nat)
    requires ComesTo(limits, x, forest, depth, p, whole) && p < |x.input|
    requires AttributeStandsAt(limits, x, p, depth, k, t) && HeadedAt(x, t, form, v)
    requires NoValueAt(limits, x, form, v)
    ensures whole == Level(forest, p, Broken(Unspecified))
  {
    AttributeFails(limits, x, t);
    FaultEnds(limits, x, forest, depth, p, whole, k, t);
  }

  // ----- and nothing else does -----

  /** Some attribute stands at p behind readable ones, and cannot be read, for this reason. */
  ghost predicate FaultyAt(limits: Limits, x: Lexer, p: nat, n: nat, code: ErrorCode)
    requires p <= |x.input|
  {
    exists k: nat {:trigger AttributesAt(limits, x, p, k)} ::
      && k < n && AttributesAt(limits, x, p, k).Ok?
      && AttributeAt(limits, x, AttributesAt(limits, x, p, k).value.1) == Err(code)
  }

  lemma {:induction false} FaultFound(limits: Limits, x: Lexer, p: nat, n: nat, code: ErrorCode)
    requires p <= |x.input|
    ensures AttributesAt(limits, x, p, n) == Err(code) <==> FaultyAt(limits, x, p, n, code)
    decreases n
  {
    if FaultyAt(limits, x, p, n, code) { FaultStops(limits, x, p, n, code); }
    if AttributesAt(limits, x, p, n) == Err(code) {
      if AttributeAt(limits, x, p).Err? {
        assert AttributesAt(limits, x, p, 0) == Ok(([], p));
      } else {
        FaultFound(limits, x, AttributeAt(limits, x, p).value.1, n - 1, code);
        FaultBehind(limits, x, p, n, code);
      }
    }
  }

  lemma FaultStops(limits: Limits, x: Lexer, p: nat, n: nat, code: ErrorCode)
    requires p <= |x.input| && FaultyAt(limits, x, p, n, code)
    ensures AttributesAt(limits, x, p, n) == Err(code)
  {
    var k: nat :| && k < n && AttributesAt(limits, x, p, k).Ok?
                  && AttributeAt(limits, x, AttributesAt(limits, x, p, k).value.1) == Err(code);
    var (first, t) := AttributesAt(limits, x, p, k).value;
    FirstFault(limits, x, p, n, k, first, t);
  }

  lemma FaultBehind(limits: Limits, x: Lexer, p: nat, n: nat, code: ErrorCode)
    requires p <= |x.input| && n > 0 && AttributeAt(limits, x, p).Ok?
    requires FaultyAt(limits, x, AttributeAt(limits, x, p).value.1, n - 1, code)
    ensures FaultyAt(limits, x, p, n, code)
  {
    var q := AttributeAt(limits, x, p).value.1;
    var k: nat :| && k < n - 1 && AttributesAt(limits, x, q, k).Ok?
                  && AttributeAt(limits, x, AttributesAt(limits, x, q, k).value.1) == Err(code);
    assert AttributesAt(limits, x, p, k + 1).Ok?;
  }

  /** Why an item cannot be read: its tag cannot; its level is too deep; its two header bytes are missing; or
      one of its attributes cannot. */
  lemma ItemFails(limits: Limits, x: Lexer, p: nat, level: nat, code: ErrorCode)
    requires p < |x.input|
    ensures ItemAt(limits, x, p, level) == Fault(code) <==>
            || (x.uleb(p).None? && code == Truncated)
            || (&& x.uleb(p).Some? && x.uleb(p).value.0 != 0
                && var q := x.uleb(p).value.1;
                   if level > limits.maxDebugDepth then code == ResourceLimit
                   else if q + 2 > |x.input| then code == Truncated
                   else FaultyAt(limits, x, q + 2, x.input[q + 1], code))
  {
    if x.uleb(p).Some? {
      var q := x.uleb(p).value.1;
      if q + 2 <= |x.input| { FaultFound(limits, x, q + 2, x.input[q + 1], code); }
    }
  }
}
