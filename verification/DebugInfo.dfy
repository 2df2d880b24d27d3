/** DebugInfoParser::parse_entries of src/debug_info.cc: a tree parser with an explicit stack,
    and the recursive grammar it implements. */
module DebugInfo {
  import opened Base
  import opened Readers

  datatype DebugValue = Unsigned(u: U64) | Signed(i: int) | Characters(text: Text)

  datatype DebugAttribute = DebugAttribute(name: U32, form: U32, value: DebugValue)

  datatype DebugEntry = DebugEntry(
    offset: nat, tag: U32, hasChildren: bool, attributes: seq<DebugAttribute>, children: seq<DebugEntry>)

  type Forest = seq<DebugEntry>

  /** The part of a debug unit that parse_entries works on. */
  class DebugUnit {
    var entries: Forest
    constructor ()
      ensures entries == []
    {
      entries := [];
    }
  }

  // ----- the grammar of one entry -----

  /** An input and what the two LEB128 readers find at each of its positions. */
  datatype RawLexer = RawLexer(
    input: seq<Byte>, uleb: nat -> Option<(U64, nat)>, sleb: nat -> Option<(int, nat)>)

  ghost predicate Advances(x: RawLexer)
  {
    && (forall p: nat {:trigger x.uleb(p)} :: x.uleb(p).Some? ==> p < x.uleb(p).value.1 <= |x.input|)
    && (forall p: nat {:trigger x.sleb(p)} :: x.sleb(p).Some? ==> p < x.sleb(p).value.1 <= |x.input|)
  }

  type Lexer = x: RawLexer | Advances(x) ghost witness RawLexer([], p => None, p => None)

  ghost function LexerOf(d: seq<Byte>): Lexer
  {
    var x := RawLexer(d, p => UlebAt(d, p), p => SlebAt(d, p));
    assert Advances(x);
    x
  }

  ghost predicate LexesAt(x: Lexer, p: nat)
  {
    x.uleb(p) == UlebAt(x.input, p) && x.sleb(p) == SlebAt(x.input, p)
  }

  ghost predicate Lexes(x: Lexer, d: seq<Byte>)
  {
    x.input == d && forall p: nat {:trigger LexesAt(x, p)} :: LexesAt(x, p)
  }

  ghost function ValueAt(limits: Limits, x: Lexer, form: U64, p: nat): (r: Result<(DebugValue, nat)>)
    ensures r.Ok? ==> p < r.value.1 <= |x.input|
  {
    if form == 1 then
      match x.uleb(p)
      case Some((v, q)) => Ok((Unsigned(v), q))
      case None => Err(Unspecified)
    else if form == 2 then
      match x.sleb(p)
      case Some((v, q)) => Ok((Signed(v), q))
      case None => Err(Unspecified)
    else if form == 3 then
      match x.uleb(p)
      case Some((n, q)) =>
        if n > |x.input| - q || n > limits.maxStringBytes then Err(Unspecified)
        else Ok((Characters(x.input[q..q + n]), q + n))
      case None => Err(Unspecified)
    else Err(InvalidDebugInfo)
  }

  /** A name, a form, and a value in that form. Name and form are cut to 32 bits. */
  ghost function AttributeAt(limits: Limits, x: Lexer, p: nat): (r: Result<(DebugAttribute, nat)>)
    ensures r.Ok? ==> p < r.value.1 <= |x.input|
  {
    match x.uleb(p)
    case None => Err(Truncated)
    case Some((name, q)) =>
      match x.uleb(q)
      case None => Err(Truncated)
      case Some((form, t)) =>
        match ValueAt(limits, x, form, t)
        case Ok((value, next)) => Ok((DebugAttribute(name % TWO32, form % TWO32, value), next))
        case Err(code) => Err(code)
  }

  ghost function AttributesAt(limits: Limits, x: Lexer, p: nat, n: nat): (r: Result<(seq<DebugAttribute>, nat)>)
    requires p <= |x.input|
    ensures r.Ok? ==> p <= r.value.1 <= |x.input|
    decreases n
  {
    if n == 0 then Ok(([], p))
    else
      match AttributeAt(limits, x, p)
      case Err(code) => Err(code)
      case Ok((a, q)) =>
        match AttributesAt(limits, x, q, n - 1)
        case Err(code) => Err(code)
        case Ok((rest, next)) => Ok(([a] + rest, next))
  }

  datatype Item = EndMark(next: nat) | Found(entry: DebugEntry, next: nat) | Fault(code: ErrorCode)

  /** What stands behind a nonzero tag: the flag, the attribute count and the attributes. */
  ghost function EntryAt(limits: Limits, x: Lexer, tag: U64, p: nat): (r: Item)
    ensures r.Found? ==> p < r.next <= |x.input| && r.entry.children == []
    ensures !r.EndMark?
  {
    if p + 2 > |x.input| then Fault(Truncated)
    else
      match AttributesAt(limits, x, p + 2, x.input[p + 1])
      case Err(code) => Fault(code)
      case Ok((attributes, next)) => Found(DebugEntry(p + 2, tag % TWO32, x.input[p] != 0, attributes, []), next)
  }

  /** The next item of a level: the zero tag that closes it, or an entry without its children. */
  ghost function ItemAt(limits: Limits, x: Lexer, p: nat, level: nat): (r: Item)
    ensures !r.Fault? ==> p < r.next <= |x.input|
    ensures r.Found? ==> r.entry.children == [] && level <= limits.maxDebugDepth
  {
    match x.uleb(p)
    case None => Fault(Truncated)
    case Some((tag, q)) =>
      if tag == 0 then EndMark(q)
      else if level > limits.maxDebugDepth then Fault(ResourceLimit)
      else EntryAt(limits, x, tag, q)
  }

  // ----- the recursive grammar -----

  datatype Stop = Closed | Exhausted | Broken(code: ErrorCode)

  /** The entries of a level as far as they could be read, and why reading stopped. */
  datatype Level = Level(entries: Forest, next: nat, stop: Stop)

  /** level ::= { entry [ level of children ] } ( zero tag | end of input ). */
  ghost function ParseLevel(limits: Limits, x: Lexer, p: nat, level: nat): (r: Level)
    ensures p <= r.next && (p <= |x.input| ==> r.next <= |x.input|)
    decreases |x.input| - p
  {
    if p >= |x.input| then Level([], p, Exhausted)
    else
      match ItemAt(limits, x, p, level)
      case Fault(code) => Level([], p, Broken(code))
      case EndMark(next) => Level([], next, Closed)
      case Found(entry, next) =>
        if !entry.hasChildren then Behind(entry, ParseLevel(limits, x, next, level))
        else
          var inner := ParseLevel(limits, x, next, level + 1);
          var whole := entry.(children := inner.entries);
          if inner.stop.Closed? then Behind(whole, ParseLevel(limits, x, inner.next, level))
          else Level([whole], inner.next, inner.stop)
  }

  function Behind(entry: DebugEntry, rest: Level): Level
  {
    Level([entry] + rest.entries, rest.next, rest.stop)
  }

  // ----- the explicit stack -----

  /** levels points down the last entries of the forest: depth levels are open. */
  ghost predicate Open(forest: Forest, depth: nat)
    decreases depth
  {
    depth == 1 || (depth > 1 && forest != [] && Open(forest[|forest| - 1].children, depth - 1))
  }

  /** levels.back(): entries are pushed to the innermost open level. */
  function PushAt(forest: Forest, depth: nat, entries: Forest): (r: Forest)
    requires Open(forest, depth)
    ensures Open(r, depth)
    decreases depth
  {
    if depth == 1 then forest + entries
    else
      var n := |forest| - 1;
      forest[n := forest[n].(children := PushAt(forest[n].children, depth - 1, entries))]
  }

  lemma {:induction false} PushNothing(forest: Forest, depth: nat)
    requires Open(forest, depth)
    ensures PushAt(forest, depth, []) == forest
    decreases depth
  {
    if depth > 1 { PushNothing(forest[|forest| - 1].children, depth - 1); }
  }

  lemma {:induction false} PushTwice(forest: Forest, depth: nat, a: Forest, b: Forest)
    requires Open(forest, depth)
    ensures PushAt(PushAt(forest, depth, a), depth, b) == PushAt(forest, depth, a + b)
    decreases depth
  {
    if depth == 1 {
      Associate(forest, a, b);
    } else {
      PushTwice(forest[|forest| - 1].children, depth - 1, a, b);
    }
  }

  /** Pushing an entry opens its children; what is pushed there next becomes its children. */
  lemma {:induction false} PushInside(forest: Forest, depth: nat, e: DebugEntry, inner: Forest)
    requires Open(forest, depth) && e.children == []
    ensures Open(PushAt(forest, depth, [e]), depth + 1)
    ensures PushAt(PushAt(forest, depth, [e]), depth + 1, inner) == PushAt(forest, depth, [e.(children := inner)])
    decreases depth
  {
    var full := e.(children := inner);
    if depth == 1 {
      assert [] + inner == inner;
      assert (forest + [e])[|forest| := full] == forest + [full];
    } else {
      var n := |forest| - 1;
      PushInside(forest[n].children, depth - 1, e, inner);
      var once := PushAt(forest, depth, [e]);
      assert once[n].children == PushAt(forest[n].children, depth - 1, [e]);
      assert PushAt(once, depth + 1, inner) == PushAt(forest, depth, [full]);
    }
  }

  lemma {:induction false} StillOpen(forest: Forest, depth: nat)
    requires Open(forest, depth) && depth > 1
    ensures Open(forest, depth - 1)
    decreases depth
  {
    if depth > 2 { StillOpen(forest[|forest| - 1].children, depth - 1); }
  }

  /** Reads the rest of every open level, innermost first. */
  ghost function Resume(limits: Limits, x: Lexer, forest: Forest, depth: nat, p: nat): Level
    requires Open(forest, depth) && p <= |x.input|
    decreases depth
  {
    var rest := ParseLevel(limits, x, p, depth);
    var grown := PushAt(forest, depth, rest.entries);
    if depth > 1 && rest.stop.Closed? then
      StillOpen(grown, depth);
      Resume(limits, x, grown, depth - 1, rest.next)
    else Level(grown, rest.next, rest.stop)
  }

  /** Pushing an entry without children leaves the outcome as it was. */
  lemma LeafStep(limits: Limits, x: Lexer, forest: Forest, depth: nat, p: nat, e: DebugEntry, next: nat)
    requires Open(forest, depth) && p < |x.input| && ItemAt(limits, x, p, depth) == Found(e, next) && !e.hasChildren
    ensures Resume(limits, x, PushAt(forest, depth, [e]), depth, next) == Resume(limits, x, forest, depth, p)
  {
    PushTwice(forest, depth, [e], ParseLevel(limits, x, next, depth).entries);
  }

  /** So does pushing one with children and opening them. */
  lemma NodeStep(limits: Limits, x: Lexer, forest: Forest, depth: nat, p: nat, e: DebugEntry, next: nat)
    requires Open(forest, depth) && p < |x.input| && ItemAt(limits, x, p, depth) == Found(e, next) && e.hasChildren
    ensures Open(PushAt(forest, depth, [e]), depth + 1)
    ensures Resume(limits, x, PushAt(forest, depth, [e]), depth + 1, next) == Resume(limits, x, forest, depth, p)
  {
    var inner := ParseLevel(limits, x, next, depth + 1);
    PushInside(forest, depth, e, inner.entries);
    var whole := e.(children := inner.entries);
    if inner.stop.Closed? {
      PushTwice(forest, depth, [whole], ParseLevel(limits, x, inner.next, depth).entries);
    }
  }

  /** Popping a level does too. */
  lemma PopStep(limits: Limits, x: Lexer, forest: Forest, depth: nat, p: nat, next: nat)
    requires Open(forest, depth) && p < |x.input| && ItemAt(limits, x, p, depth) == EndMark(next) && depth > 1
    ensures Open(forest, depth - 1)
    ensures Resume(limits, x, forest, depth - 1, next) == Resume(limits, x, forest, depth, p)
  {
    StillOpen(forest, depth);
    PushNothing(forest, depth);
  }

  lemma StopStep(limits: Limits, x: Lexer, forest: Forest, depth: nat, p: nat)
    requires Open(forest, depth) && p <= |x.input|
    ensures p == |x.input| ==> Resume(limits, x, forest, depth, p) == Level(forest, p, Exhausted)
    ensures p < |x.input| && ItemAt(limits, x, p, depth).Fault? ==>
              Resume(limits, x, forest, depth, p) == Level(forest, p, Broken(ItemAt(limits, x, p, depth).code))
    ensures p < |x.input| && ItemAt(limits, x, p, depth).EndMark? && depth == 1 ==>
              Resume(limits, x, forest, depth, p) == Level(forest, ItemAt(limits, x, p, depth).next, Closed)
  {
    PushNothing(forest, depth);
  }

  // ----- the parser -----

  method NextUleb(reader: ByteReader, ghost x: Lexer) returns (ok: bool, v: U64)
    requires reader.Valid() && Lexes(x, reader.data)
    modifies reader
    ensures reader.Valid()
    ensures x.uleb(old(reader.position)) == if ok then Some((v, reader.position)) else None
  {
    assert LexesAt(x, reader.position);
    ok, v := reader.ReadUleb128();
  }

  method NextSleb(reader: ByteReader, ghost x: Lexer) returns (ok: bool, v: int)
    requires reader.Valid() && Lexes(x, reader.data)
    modifies reader
    ensures reader.Valid()
    ensures x.sleb(old(reader.position)) == if ok then Some((v, reader.position)) else None
  {
    assert LexesAt(x, reader.position);
    ok, v := reader.ReadSleb128();
  }

  method ReadValue(limits: Limits, reader: ByteReader, ghost x: Lexer, form: U64) returns (r: Result<DebugValue>)
    requires reader.Valid() && Lexes(x, reader.data)
    modifies reader
    ensures reader.Valid()
    ensures ValueAt(limits, x, form, old(reader.position)) ==
            if r.Ok? then Ok((r.value, reader.position)) else Err(r.code)
  {
    if form == 1 {
      var ok, v := NextUleb(reader, x);
      return if ok then Ok(Unsigned(v)) else Err(Unspecified);
    } else if form == 2 {
      var ok, v := NextSleb(reader, x);
      return if ok then Ok(Signed(v)) else Err(Unspecified);
    } else if form == 3 {
      var ok, length := NextUleb(reader, x);
      if !ok || length > reader.Remaining() || length > limits.maxStringBytes { return Err(Unspecified); }
      var bytes;
      ok, bytes := reader.ReadBytes(length);
      return Ok(Characters(bytes));
    } else {
      return Err(InvalidDebugInfo);
    }
  }

  method ReadAttribute(limits: Limits, reader: ByteReader, ghost x: Lexer) returns (r: Result<DebugAttribute>)
    requires reader.Valid() && Lexes(x, reader.data)
    modifies reader
    ensures reader.Valid()
    ensures AttributeAt(limits, x, old(reader.position)) ==
            if r.Ok? then Ok((r.value, reader.position)) else Err(r.code)
  {
    var ok, name, form := false, 0, 0;
    ok, name := NextUleb(reader, x);
    if ok { ok, form := NextUleb(reader, x); }
    if !ok { return Err(Truncated); }
    var value := ReadValue(limits, reader, x, form);
    match value
    case Ok(v) => r := Ok(DebugAttribute(name % TWO32, form % TWO32, v));
    case Err(code) => r := Err(code);
  }

  /** What AttributesAt says about all attributes once the first ones are known. */
  ghost function After(first: seq<DebugAttribute>, rest: Result<(seq<DebugAttribute>, nat)>)
    : Result<(seq<DebugAttribute>, nat)>
  {
    match rest
    case Ok((attributes, next)) => Ok((first + attributes, next))
    case Err(code) => Err(code)
  }

  lemma NothingFirst(rest: Result<(seq<DebugAttribute>, nat)>)
    ensures After([], rest) == rest
  {
    if rest.Ok? { assert [] + rest.value.0 == rest.value.0; }
  }

  /** One turn of the attribute loop. */
  lemma AttributeStep(limits: Limits, x: Lexer, p: nat, n: nat, first: seq<DebugAttribute>)
    requires p <= |x.input| && n > 0
    ensures AttributeAt(limits, x, p).Err? ==>
              After(first, AttributesAt(limits, x, p, n)) == Err(AttributeAt(limits, x, p).code)
    ensures AttributeAt(limits, x, p).Ok? ==>
              var (a, next) := AttributeAt(limits, x, p).value;
              After(first, AttributesAt(limits, x, p, n)) == After(first + [a], AttributesAt(limits, x, next, n - 1))
  {
    if AttributeAt(limits, x, p).Ok? {
      var (a, next) := AttributeAt(limits, x, p).value;
      var rest := AttributesAt(limits, x, next, n - 1);
      if rest.Ok? { Associate(first, [a], rest.value.0); }
    }
  }

  method ReadAttributes(limits: Limits, reader: ByteReader, ghost x: Lexer, count: Byte)
    returns (r: Result<seq<DebugAttribute>>)
    requires reader.Valid() && Lexes(x, reader.data)
    modifies reader
    ensures reader.Valid()
    ensures AttributesAt(limits, x, old(reader.position), count) ==
            if r.Ok? then Ok((r.value, reader.position)) else Err(r.code)
  {
    ghost var all := AttributesAt(limits, x, reader.position, count);
    var attributes: seq<DebugAttribute> := [];
    NothingFirst(all);
    for a := 0 to count
      invariant reader.Valid()
      invariant all == After(attributes, AttributesAt(limits, x, reader.position, count - a))
    {
      AttributeStep(limits, x, reader.position, count - a, attributes);
      var one := ReadAttribute(limits, reader, x);
      if one.Err? { return Err(one.code); }
      attributes := attributes + [one.value];
    }
    assert attributes + [] == attributes;
    return Ok(attributes);
  }

  /** The reads behind a nonzero tag. */
  method ReadEntry(limits: Limits, reader: ByteReader, ghost x: Lexer, tag: U64) returns (item: Item)
    requires reader.Valid() && Lexes(x, reader.data)
    modifies reader
    ensures reader.Valid()
    ensures item == EntryAt(limits, x, tag, old(reader.position))
    ensures item.Found? ==> reader.position == item.next
  {
    var children, count: Byte := 0, 0;
    var ok;
    ok, children := reader.ReadU8();
    if ok { ok, count := reader.ReadU8(); }
    if !ok { return Fault(Truncated); }
    var offset := reader.position;
    var attributes := ReadAttributes(limits, reader, x, count);
    match attributes
    case Ok(all) => item := Found(DebugEntry(offset, tag % TWO32, children != 0, all, []), reader.position);
    case Err(code) => item := Fault(code);
  }

  /** The item at the reader's position. */
  method ReadItem(limits: Limits, reader: ByteReader, ghost x: Lexer, depth: nat) returns (item: Item)
    requires reader.Valid() && Lexes(x, reader.data)
    modifies reader
    ensures reader.Valid()
    ensures item == ItemAt(limits, x, old(reader.position), depth)
    ensures !item.Fault? ==> reader.position == item.next
  {
    var ok, tag := NextUleb(reader, x);
    if !ok { return Fault(Truncated); }
    if tag == 0 { return EndMark(reader.position); }
    if depth > limits.maxDebugDepth { return Fault(ResourceLimit); }
    item := ReadEntry(limits, reader, x, tag);
  }

  function Outcome(stop: Stop): Status
  {
    if stop.Broken? then Failed(stop.code) else Done
  }

  /** The open levels, resumed at p, come to whole. */
  ghost predicate ComesTo(limits: Limits, x: Lexer, forest: Forest, depth: nat, p: nat, whole: Level)
  {
    Open(forest, depth) && p <= |x.input| && Resume(limits, x, forest, depth, p) == whole
  }

  /** What an item does to the open levels: it ends the parse, closes a level, or adds an entry. */
  method TakeItem(limits: Limits, ghost x: Lexer, forest: Forest, depth: nat, ghost p: nat, item: Item,
                  ghost whole: Level)
    returns (r: Forest, d: nat, ended: Option<Status>)
    requires ComesTo(limits, x, forest, depth, p, whole) && p < |x.input| && item == ItemAt(limits, x, p, depth)
    ensures ended.None? ==> !item.Fault? && ComesTo(limits, x, r, d, item.next, whole)
    ensures ended.Some? ==> r == whole.entries && ended.value == Outcome(whole.stop)
  {
    match item
    case Fault(code) =>
      StopStep(limits, x, forest, depth, p);
      return forest, depth, Some(Failed(code));
    case EndMark(next) =>
      if depth == 1 {
        StopStep(limits, x, forest, depth, p);
        return forest, depth, Some(Done);
      }
      PopStep(limits, x, forest, depth, p, next);
      return forest, depth - 1, None;
    case Found(entry, next) =>
      r := PushAt(forest, depth, [entry]);
      if entry.hasChildren {
        NodeStep(limits, x, forest, depth, p, entry, next);
        return r, depth + 1, None;
      }
      LeafStep(limits, x, forest, depth, p, entry, next);
      return r, depth, None;
  }

  lemma ComesToEnd(limits: Limits, x: Lexer, forest: Forest, depth: nat, whole: Level)
    requires ComesTo(limits, x, forest, depth, |x.input|, whole)
    ensures whole.entries == forest && Outcome(whole.stop) == Done
  {
    StopStep(limits, x, forest, depth, |x.input|);
  }

  lemma Begins(limits: Limits, x: Lexer, forest: Forest) returns (whole: Level)
    ensures ComesTo(limits, x, forest, 1, 0, whole)
    ensures whole.entries == forest + ParseLevel(limits, x, 0, 1).entries
    ensures whole.stop == ParseLevel(limits, x, 0, 1).stop
  {
    whole := Resume(limits, x, forest, 1, 0);
  }

  /** parse_entries: on every input, the entries of the unit grow by what the recursive grammar
      reads from the input, complete or cut short. */
  method ParseEntries(limits: Limits, data: Blob, order: ByteOrder, unit: DebugUnit) returns (s: Status)
    modifies unit
    ensures |data| > limits.maxDebugBytes ==> s == Failed(ResourceLimit) && unit.entries == old(unit.entries)
    ensures |data| <= limits.maxDebugBytes ==>
              var whole := ParseLevel(limits, LexerOf(data), 0, 1);
              s == Outcome(whole.stop) && unit.entries == old(unit.entries) + whole.entries
  {
    if |data| > limits.maxDebugBytes { return Failed(ResourceLimit); }
    ghost var x := LexerOf(data);
    var reader := new ByteReader(data, order);
    var depth := 1;
    ghost var whole := Begins(limits, x, unit.entries);
    while reader.Remaining() > 0
      invariant reader.Valid() && fresh(reader) && reader.data == data
      invariant ComesTo(limits, x, unit.entries, depth, reader.position, whole)
      decreases |data| - reader.position
    {
      ghost var p := reader.position;
      var item := ReadItem(limits, reader, x, depth);
      var ended;
      unit.entries, depth, ended := TakeItem(limits, x, unit.entries, depth, p, item, whole);
      if ended.Some? { return ended.value; }
    }
    ComesToEnd(limits, x, unit.entries, depth, whole);
    return Done;
  }

  // ----- nesting -----

  ghost predicate NestedWithin(forest: Forest, n: int)
    decreases forest
  {
    forest == []
    || (n > 0
        && forall i {:trigger forest[i]} :: 0 <= i < |forest| ==> NestedWithin(forest[i].children, n - 1))
  }

  lemma NestedBehind(e: DebugEntry, rest: Forest, n: int)
    requires n > 0 && NestedWithin(e.children, n - 1) && NestedWithin(rest, n)
    ensures NestedWithin([e] + rest, n)
  {
  }

  /** Whatever is read, complete or not, is nested no deeper than the limit. */
  lemma {:induction false} NestingBounded(limits: Limits, x: Lexer, p: nat, level: nat)
    requires p <= |x.input|
    ensures NestedWithin(ParseLevel(limits, x, p, level).entries, limits.maxDebugDepth + 1 - level)
    decreases |x.input| - p, 0
  {
    if p < |x.input| {
      match ItemAt(limits, x, p, level) {
        case Fault(_) =>
        case EndMark(_) =>
        case Found(e, next) =>
          var n := limits.maxDebugDepth + 1 - level;
          if !e.hasChildren {
            NestingBounded(limits, x, next, level);
            NestedBehind(e, ParseLevel(limits, x, next, level).entries, n);
          } else {
            NestedInside(limits, x, next, level, e);
          }
      }
    }
  }

  lemma {:induction false} NestedInside(limits: Limits, x: Lexer, next: nat, level: nat, e: DebugEntry)
    requires next <= |x.input| && level <= limits.maxDebugDepth
    ensures var n, inner := limits.maxDebugDepth + 1 - level, ParseLevel(limits, x, next, level + 1);
            var whole := e.(children := inner.entries);
            && NestedWithin([whole], n)
            && NestedWithin([whole] + ParseLevel(limits, x, inner.next, level).entries, n)
    decreases |x.input| - next, 1
  {
    var n, inner := limits.maxDebugDepth + 1 - level, ParseLevel(limits, x, next, level + 1);
    var whole := e.(children := inner.entries);
    NestingBounded(limits, x, next, level + 1);
    NestingBounded(limits, x, inner.next, level);
    NestedBehind(whole, ParseLevel(limits, x, inner.next, level).entries, n);
    NestedBehind(whole, [], n);
    assert [whole] + [] == [whole];
  }
}
