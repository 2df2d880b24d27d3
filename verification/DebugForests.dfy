/** The preorder serialization of entry forests, which parse_entries reads back. */
module DebugForests {
  import opened Base
  import opened Cursors
  import opened DebugInfo
  import opened Leb128
  import opened Readers

  /** Some way to write LEB128 numbers; it need not be the shortest one. */
  datatype LebWriter = LebWriter(uleb: nat -> seq<Byte>, sleb: int -> seq<Byte>)

  const SHORTEST: LebWriter := LebWriter(v => EncodeUleb(v), v => EncodeSleb(v))

  function EncodeValue(w: LebWriter, v: DebugValue): seq<Byte>
  {
    match v
    case Unsigned(u) => w.uleb(u)
    case Signed(i) => w.sleb(i)
    case Characters(text) => w.uleb(|text|) + text
  }

  function FormOf(v: DebugValue): U32
  {
    match v
    case Unsigned(_) => 1
    case Signed(_) => 2
    case Characters(_) => 3
  }

  predicate IsInt64(i: int)
  {
    -(TWO64 / 2) <= i < TWO64 / 2
  }

  predicate ValueFits(limits: Limits, v: DebugValue)
  {
    match v
    case Unsigned(_) => true
    case Signed(i) => IsInt64(i)
    case Characters(text) => |text| <= limits.maxStringBytes
  }

  function EncodeAttribute(w: LebWriter, a: DebugAttribute): seq<Byte>
  {
    w.uleb(a.name) + (w.uleb(a.form) + EncodeValue(w, a.value))
  }

  function EncodeAttributes(w: LebWriter, attributes: seq<DebugAttribute>): seq<Byte>
  {
    if attributes == [] then [] else EncodeAttribute(w, attributes[0]) + EncodeAttributes(w, attributes[1..])
  }

  predicate AttributeFits(limits: Limits, a: DebugAttribute)
  {
    a.form == FormOf(a.value) && ValueFits(limits, a.value)
  }

  predicate AttributesFit(limits: Limits, attributes: seq<DebugAttribute>)
  {
    attributes == [] || (AttributeFits(limits, attributes[0]) && AttributesFit(limits, attributes[1..]))
  }

  /** What stands behind an entry's tag. */
  function EncodeBody(w: LebWriter, e: DebugEntry): seq<Byte>
  {
    [if e.hasChildren then 1 else 0] + ([|e.attributes| % 256] + EncodeAttributes(w, e.attributes))
  }

  /** Everything about an entry but its children. */
  function EncodeHead(w: LebWriter, e: DebugEntry): seq<Byte>
  {
    w.uleb(e.tag) + EncodeBody(w, e)
  }

  /** An entry; behind its children stands the zero tag that closes their level. */
  function SerializeEntry(w: LebWriter, e: DebugEntry): seq<Byte>
    decreases e
  {
    if e.hasChildren then EncodeHead(w, e) + (SerializeForest(w, e.children) + w.uleb(0)) else EncodeHead(w, e)
  }

  function SerializeForest(w: LebWriter, forest: Forest): seq<Byte>
    decreases forest
  {
    if forest == [] then [] else SerializeEntry(w, forest[0]) + SerializeForest(w, forest[1..])
  }

  /** The entry without its children keeps within the limits, and its offset is the position
      right behind its header when its serialization starts at p. */
  predicate HeadFits(limits: Limits, w: LebWriter, e: DebugEntry, p: nat, level: nat)
  {
    && level <= limits.maxDebugDepth
    && e.tag > 0 && |e.attributes| <= 255 && AttributesFit(limits, e.attributes)
    && e.offset == p + |w.uleb(e.tag)| + 2
  }

  predicate EntryFits(limits: Limits, w: LebWriter, e: DebugEntry, p: nat, level: nat)
    decreases e
  {
    && HeadFits(limits, w, e, p, level)
    && if e.hasChildren then ForestFits(limits, w, e.children, p + |EncodeHead(w, e)|, level + 1)
       else e.children == []
  }

  predicate ForestFits(limits: Limits, w: LebWriter, forest: Forest, p: nat, level: nat)
    decreases forest
  {
    forest == []
    || (EntryFits(limits, w, forest[0], p, level)
        && ForestFits(limits, w, forest[1..], p + |SerializeEntry(w, forest[0])|, level))
  }

  // ----- each piece is read back -----

  ghost predicate UlebBack(x: Lexer, w: LebWriter)
  {
    forall p: nat, v: U64 {:trigger At(x.input, p, w.uleb(v))} ::
      At(x.input, p, w.uleb(v)) ==> x.uleb(p) == Some((v, p + |w.uleb(v)|))
  }

  ghost predicate SlebBack(x: Lexer, w: LebWriter)
  {
    forall p: nat, v: int {:trigger At(x.input, p, w.sleb(v))} ::
      At(x.input, p, w.sleb(v)) && IsInt64(v) ==> x.sleb(p) == Some((v, p + |w.sleb(v)|))
  }

  /** The lexer reads back, in full, every number the writer has written into its input. */
  ghost predicate ReadsBack(x: Lexer, w: LebWriter)
  {
    UlebBack(x, w) && SlebBack(x, w)
  }

  lemma ValueParses(limits: Limits, x: Lexer, w: LebWriter, p: nat, v: DebugValue)
    requires ReadsBack(x, w) && At(x.input, p, EncodeValue(w, v)) && ValueFits(limits, v)
    ensures ValueAt(limits, x, FormOf(v), p) == Ok((v, p + |EncodeValue(w, v)|))
  {
    if v.Characters? {
      var n := |v.text|;
      AtConcat(x.input, p, w.uleb(n), v.text);
      AtSlice(x.input, p + |w.uleb(n)|, v.text);
    }
  }

  lemma AttributeParses(limits: Limits, x: Lexer, w: LebWriter, p: nat, a: DebugAttribute)
    requires ReadsBack(x, w) && At(x.input, p, EncodeAttribute(w, a)) && AttributeFits(limits, a)
    ensures AttributeAt(limits, x, p) == Ok((a, p + |EncodeAttribute(w, a)|))
  {
    AtConcat(x.input, p, w.uleb(a.name), w.uleb(a.form) + EncodeValue(w, a.value));
    var q := p + |w.uleb(a.name)|;
    AtConcat(x.input, q, w.uleb(a.form), EncodeValue(w, a.value));
    ValueParses(limits, x, w, q + |w.uleb(a.form)|, a.value);
  }

  lemma OneAttributeMore(limits: Limits, x: Lexer, p: nat, attributes: seq<DebugAttribute>, q: nat, next: nat)
    requires p <= |x.input| && attributes != [] && AttributeAt(limits, x, p) == Ok((attributes[0], q))
    requires AttributesAt(limits, x, q, |attributes| - 1) == Ok((attributes[1..], next))
    ensures AttributesAt(limits, x, p, |attributes|) == Ok((attributes, next))
  {
    assert attributes == [attributes[0]] + attributes[1..];
  }

  /** The first attribute is read, and the others stand behind it. */
  lemma FirstAttribute(limits: Limits, x: Lexer, w: LebWriter, p: nat, attributes: seq<DebugAttribute>)
    returns (q: nat)
    requires ReadsBack(x, w) && p <= |x.input| && attributes != [] && AttributesFit(limits, attributes)
    requires At(x.input, p, EncodeAttributes(w, attributes))
    ensures AttributeAt(limits, x, p) == Ok((attributes[0], q)) && AttributesFit(limits, attributes[1..])
    ensures q <= |x.input| && At(x.input, q, EncodeAttributes(w, attributes[1..]))
    ensures q + |EncodeAttributes(w, attributes[1..])| == p + |EncodeAttributes(w, attributes)|
  {
    q := p + |EncodeAttribute(w, attributes[0])|;
    AtConcat(x.input, p, EncodeAttribute(w, attributes[0]), EncodeAttributes(w, attributes[1..]));
    AttributeParses(limits, x, w, p, attributes[0]);
  }

  /** Attributes that are read in full. */
  ghost predicate ReadInFull(limits: Limits, x: Lexer, w: LebWriter, p: nat, attributes: seq<DebugAttribute>)
    requires p <= |x.input|
  {
    AttributesAt(limits, x, p, |attributes|) == Ok((attributes, p + |EncodeAttributes(w, attributes)|))
  }

  /** If the others are read behind the first attribute, all are read. */
  lemma RestRead(limits: Limits, x: Lexer, w: LebWriter, p: nat, attributes: seq<DebugAttribute>)
    returns (q: nat)
    requires ReadsBack(x, w) && p <= |x.input| && attributes != [] && AttributesFit(limits, attributes)
    requires At(x.input, p, EncodeAttributes(w, attributes))
    ensures q <= |x.input| && At(x.input, q, EncodeAttributes(w, attributes[1..]))
    ensures AttributesFit(limits, attributes[1..])
    ensures ReadInFull(limits, x, w, q, attributes[1..]) ==> ReadInFull(limits, x, w, p, attributes)
  {
    q := FirstAttribute(limits, x, w, p, attributes);
    var next := p + |EncodeAttributes(w, attributes)|;
    if ReadInFull(limits, x, w, q, attributes[1..]) {
      OneAttributeMore(limits, x, p, attributes, q, next);
    }
  }

  lemma {:induction false} AttributesParse(limits: Limits, x: Lexer, w: LebWriter, p: nat,
                                           attributes: seq<DebugAttribute>)
    requires ReadsBack(x, w) && p <= |x.input|
    requires At(x.input, p, EncodeAttributes(w, attributes)) && AttributesFit(limits, attributes)
    ensures ReadInFull(limits, x, w, p, attributes)
    decreases |attributes|
  {
    if attributes != [] {
      var q := RestRead(limits, x, w, p, attributes);
      AttributesParse(limits, x, w, q, attributes[1..]);
    }
  }

  lemma BodyMeans(d: seq<Byte>, w: LebWriter, q: nat, e: DebugEntry)
    requires At(d, q, EncodeBody(w, e)) && |e.attributes| <= 255
    ensures q + 2 <= |d| && d[q] == (if e.hasChildren then 1 else 0) && d[q + 1] == |e.attributes|
    ensures At(d, q + 2, EncodeAttributes(w, e.attributes))
  {
    var flag: Byte, count: Byte := if e.hasChildren then 1 else 0, |e.attributes| % 256;
    var tail := EncodeAttributes(w, e.attributes);
    AtConcat(d, q, [flag], [count] + tail);
    AtConcat(d, q + 1, [count], tail);
    AtOne(d, q, flag);
    AtOne(d, q + 1, count);
  }

  lemma BodyParses(limits: Limits, x: Lexer, w: LebWriter, q: nat, e: DebugEntry)
    requires ReadsBack(x, w) && At(x.input, q, EncodeBody(w, e))
    requires |e.attributes| <= 255 && AttributesFit(limits, e.attributes) && e.offset == q + 2
    ensures EntryAt(limits, x, e.tag, q) == Found(e.(children := []), q + |EncodeBody(w, e)|)
  {
    BodyMeans(x.input, w, q, e);
    AttributesParse(limits, x, w, q + 2, e.attributes);
  }

  /** The parser finds the entry, still without its children, and stands behind its head. */
  lemma HeadParses(limits: Limits, x: Lexer, w: LebWriter, p: nat, e: DebugEntry, level: nat)
    requires ReadsBack(x, w) && At(x.input, p, EncodeHead(w, e)) && HeadFits(limits, w, e, p, level)
    ensures p < |x.input| && ItemAt(limits, x, p, level) == Found(e.(children := []), p + |EncodeHead(w, e)|)
  {
    AtConcat(x.input, p, w.uleb(e.tag), EncodeBody(w, e));
    BodyParses(limits, x, w, p + |w.uleb(e.tag)|, e);
  }

  // ----- whole forests -----

  function InFrontOf(forest: Forest, rest: Level): Level
  {
    Level(forest + rest.entries, rest.next, rest.stop)
  }

  /** The grammar as a function of position and level. */
  type Grammar = (nat, nat) -> Level

  /** What one level reads as, given what the levels behind and below its first item read as. */
  ghost function OneLevel(limits: Limits, x: Lexer, parse: Grammar, p: nat, level: nat): Level
  {
    if p >= |x.input| then Level([], p, Exhausted)
    else
      match ItemAt(limits, x, p, level)
      case Fault(code) => Level([], p, Broken(code))
      case EndMark(next) => Level([], next, Closed)
      case Found(entry, next) =>
        if !entry.hasChildren then Behind(entry, parse(next, level))
        else
          var inner := parse(next, level + 1);
          var whole := entry.(children := inner.entries);
          if inner.stop.Closed? then Behind(whole, parse(inner.next, level))
          else Level([whole], inner.next, inner.stop)
  }

  ghost predicate Unfolds(limits: Limits, x: Lexer, parse: Grammar, p: nat, level: nat)
  {
    parse(p, level) == OneLevel(limits, x, parse, p, level)
  }

  /** parse satisfies the equations of the recursive grammar. */
  ghost predicate Obeys(limits: Limits, x: Lexer, parse: Grammar)
  {
    forall p: nat, level: nat {:trigger Unfolds(limits, x, parse, p, level)} :: Unfolds(limits, x, parse, p, level)
  }

  ghost function GrammarOf(limits: Limits, x: Lexer): (parse: Grammar)
    ensures Obeys(limits, x, parse)
  {
    (p: nat, level: nat) => ParseLevel(limits, x, p, level)
  }

  lemma LeafParses(limits: Limits, x: Lexer, parse: Grammar, p: nat, e: DebugEntry, level: nat, next: nat)
    requires Obeys(limits, x, parse)
    requires p < |x.input| && ItemAt(limits, x, p, level) == Found(e.(children := []), next)
    requires !e.hasChildren && e.children == []
    ensures parse(p, level) == Behind(e, parse(next, level))
  {
    assert e.(children := []) == e;
    assert Unfolds(limits, x, parse, p, level);
  }

  /** An entry whose level of children is read up to its end mark. */
  lemma NodeParses(limits: Limits, x: Lexer, parse: Grammar, p: nat, e: DebugEntry, level: nat, q: nat, next: nat)
    requires Obeys(limits, x, parse)
    requires p < |x.input| && ItemAt(limits, x, p, level) == Found(e.(children := []), q) && e.hasChildren
    requires parse(q, level + 1) == Level(e.children, next, Closed)
    ensures parse(p, level) == Behind(e, parse(next, level))
  {
    assert e.(children := []).(children := e.children) == e;
    assert Unfolds(limits, x, parse, p, level);
  }

  lemma MarkCloses(limits: Limits, x: Lexer, w: LebWriter, parse: Grammar, p: nat, level: nat)
    requires Obeys(limits, x, parse) && ReadsBack(x, w) && At(x.input, p, w.uleb(0))
    ensures parse(p, level) == Level([], p + |w.uleb(0)|, Closed)
  {
    assert Unfolds(limits, x, parse, p, level);
  }

  lemma FrontGrows(e: DebugEntry, forest: Forest, rest: Level)
    ensures Behind(e, InFrontOf(forest, rest)) == InFrontOf([e] + forest, rest)
    ensures InFrontOf([], rest) == rest
  {
    Associate([e], forest, rest.entries);
    assert [] + rest.entries == rest.entries;
  }

  lemma ClosedLevel(parse: Grammar, q: nat, forest: Forest, level: nat, mark: nat, next: nat)
    requires parse(q, level) == InFrontOf(forest, parse(mark, level))
    requires parse(mark, level) == Level([], next, Closed)
    ensures parse(q, level) == Level(forest, next, Closed)
  {
    assert forest + [] == forest;
  }

  lemma ThreeParts(d: seq<Byte>, p: nat, whole: seq<Byte>, a: seq<Byte>, b: seq<Byte>, c: seq<Byte>)
    requires At(d, p, whole) && whole == a + (b + c)
    ensures At(d, p, a) && At(d, p + |a|, b) && At(d, p + |a| + |b|, c)
    ensures |whole| == |a| + |b| + |c|
  {
    AtConcat(d, p, a, b + c);
    AtConcat(d, p + |a|, b, c);
  }

  lemma NodeBytes(w: LebWriter, e: DebugEntry)
    requires e.hasChildren
    ensures SerializeEntry(w, e) == EncodeHead(w, e) + (SerializeForest(w, e.children) + w.uleb(0))
  {
  }

  /** Where the parts of a serialized entry with children stand. */
  lemma NodeLayout(d: seq<Byte>, w: LebWriter, p: nat, e: DebugEntry, q: nat, mark: nat)
    requires At(d, p, SerializeEntry(w, e)) && e.hasChildren
    requires q == p + |EncodeHead(w, e)| && mark == q + |SerializeForest(w, e.children)|
    ensures At(d, p, EncodeHead(w, e)) && At(d, q, SerializeForest(w, e.children)) && At(d, mark, w.uleb(0))
    ensures p + |SerializeEntry(w, e)| == mark + |w.uleb(0)|
  {
    NodeBytes(w, e);
    ThreeParts(d, p, SerializeEntry(w, e), EncodeHead(w, e), SerializeForest(w, e.children), w.uleb(0));
  }

  lemma {:induction false} EntryParses(limits: Limits, x: Lexer, w: LebWriter, parse: Grammar,
                                       p: nat, e: DebugEntry, level: nat, next: nat)
    requires Obeys(limits, x, parse) && ReadsBack(x, w)
    requires At(x.input, p, SerializeEntry(w, e)) && EntryFits(limits, w, e, p, level)
    requires next == p + |SerializeEntry(w, e)|
    ensures parse(p, level) == Behind(e, parse(next, level))
    decreases e
  {
    var q := p + |EncodeHead(w, e)|;
    if e.hasChildren {
      var mark := q + |SerializeForest(w, e.children)|;
      NodeLayout(x.input, w, p, e, q, mark);
      ForestParses(limits, x, w, parse, q, e.children, level + 1, mark);
      NodeWith(limits, x, w, parse, p, e, level, q, mark, next);
    } else {
      HeadParses(limits, x, w, p, e, level);
      LeafParses(limits, x, parse, p, e, level, q);
    }
  }

  lemma NodeWith(limits: Limits, x: Lexer, w: LebWriter, parse: Grammar,
                 p: nat, e: DebugEntry, level: nat, q: nat, mark: nat, next: nat)
    requires Obeys(limits, x, parse) && ReadsBack(x, w)
    requires e.hasChildren && At(x.input, p, EncodeHead(w, e)) && HeadFits(limits, w, e, p, level)
    requires q == p + |EncodeHead(w, e)| && At(x.input, mark, w.uleb(0)) && next == mark + |w.uleb(0)|
    requires parse(q, level + 1) == InFrontOf(e.children, parse(mark, level + 1))
    ensures parse(p, level) == Behind(e, parse(next, level))
  {
    HeadParses(limits, x, w, p, e, level);
    MarkCloses(limits, x, w, parse, mark, level + 1);
    ClosedLevel(parse, q, e.children, level + 1, mark, next);
    NodeParses(limits, x, parse, p, e, level, q, next);
  }

  /** Where a forest's serialization stands, the grammar reads the forest and goes on behind it. */
  lemma {:induction false} ForestParses(limits: Limits, x: Lexer, w: LebWriter, parse: Grammar,
                                        p: nat, forest: Forest, level: nat, next: nat)
    requires Obeys(limits, x, parse) && ReadsBack(x, w)
    requires At(x.input, p, SerializeForest(w, forest)) && ForestFits(limits, w, forest, p, level)
    requires next == p + |SerializeForest(w, forest)|
    ensures parse(p, level) == InFrontOf(forest, parse(next, level))
    decreases forest
  {
    if forest == [] {
      FrontGrows(DebugEntry(0, 0, false, [], []), [], parse(next, level));
    } else {
      var e, others := forest[0], forest[1..];
      var q := p + |SerializeEntry(w, e)|;
      AtConcat(x.input, p, SerializeEntry(w, e), SerializeForest(w, others));
      EntryParses(limits, x, w, parse, p, e, level, q);
      ForestParses(limits, x, w, parse, q, others, level, next);
      FrontGrows(e, others, parse(next, level));
      assert forest == [e] + others;
    }
  }

  /** Parsing the serialization of a forest gives exactly the forest: to the end of the input, or
      up to a zero tag whatever stands behind it. */
  lemma SerializationParses(limits: Limits, x: Lexer, w: LebWriter, forest: Forest)
    requires ReadsBack(x, w) && At(x.input, 0, SerializeForest(w, forest)) && ForestFits(limits, w, forest, 0, 1)
    ensures var n := |SerializeForest(w, forest)|;
            && (|x.input| == n ==> ParseLevel(limits, x, 0, 1) == Level(forest, n, Exhausted))
            && (At(x.input, n, w.uleb(0)) ==> ParseLevel(limits, x, 0, 1) == Level(forest, n + |w.uleb(0)|, Closed))
  {
    var parse := GrammarOf(limits, x);
    var n := |SerializeForest(w, forest)|;
    ForestParses(limits, x, w, parse, 0, forest, 1, n);
    assert forest + [] == forest;
    if At(x.input, n, w.uleb(0)) { MarkCloses(limits, x, w, parse, n, 1); }
  }

  // ----- the shortest encodings -----

  lemma UlebFoundAt(d: seq<Byte>, p: nat, v: U64)
    requires At(d, p, EncodeUleb(v))
    ensures UlebAt(d, p) == Some((v, p + |EncodeUleb(v)|))
  {
    var n := |EncodeUleb(v)|;
    AtSlice(d, p, EncodeUleb(v));
    UlebRoundTrip(v);
    Pow128Values();
    UlebLength(v, 10);
    UlebFound(d, p, n);
  }

  lemma SlebFoundAt(d: seq<Byte>, p: nat, v: int)
    requires At(d, p, EncodeSleb(v)) && IsInt64(v)
    ensures SlebAt(d, p) == Some((v, p + |EncodeSleb(v)|))
  {
    var n := |EncodeSleb(v)|;
    AtSlice(d, p, EncodeSleb(v));
    SlebValue(v);
    SlebFound(d, p, n);
  }

  lemma ShortestUleb(x: Lexer, w: LebWriter)
    requires x == LexerOf(x.input) && w == SHORTEST
    ensures UlebBack(x, w)
  {
    forall p: nat, v: U64 | At(x.input, p, w.uleb(v)) ensures x.uleb(p) == Some((v, p + |w.uleb(v)|)) {
      UlebFoundAt(x.input, p, v);
    }
  }

  lemma ShortestSleb(x: Lexer, w: LebWriter)
    requires x == LexerOf(x.input) && w == SHORTEST
    ensures SlebBack(x, w)
  {
    forall p: nat, v: int | At(x.input, p, w.sleb(v)) && IsInt64(v)
      ensures x.sleb(p) == Some((v, p + |w.sleb(v)|))
    {
      SlebFoundAt(x.input, p, v);
    }
  }

  /** With shortest encodings: the serialization of a forest that keeps within the limits, parsed
      by itself, gives the forest back. */
  lemma ForestRoundTrip(limits: Limits, forest: Forest)
    requires ForestFits(limits, SHORTEST, forest, 0, 1)
    ensures var d := SerializeForest(SHORTEST, forest);
            ParseLevel(limits, LexerOf(d), 0, 1) == Level(forest, |d|, Exhausted)
  {
    var d := SerializeForest(SHORTEST, forest);
    ShortestUleb(LexerOf(d), SHORTEST);
    ShortestSleb(LexerOf(d), SHORTEST);
    AtSelf(d);
    SerializationParses(limits, LexerOf(d), SHORTEST, forest);
  }
}
