/** Which sections of an image refer to which, in terms of its records alone, and that the section graph
    reports exactly that. */
module SectionReferences {
  import opened Base
  import opened Graphs
  import opened Image
  import opened Relations
  import opened SectionGraphs
  import opened Sorting

  // ----- the four kinds of references -----

  /** Section record i has index x and links to y. */
  predicate Links(image: BinaryImage, i: nat, x: nat, y: nat)
  {
    i < |image.sections| && image.sections[i].index == x && image.sections[i].link == y && y != 0
  }

  /** Section record i has index x and holds relocations for y. */
  predicate Relocates(image: BinaryImage, i: nat, x: nat, y: nat)
  {
    && i < |image.sections| && image.sections[i].index == x && image.sections[i].info == y
    && (image.sections[i].kind == SectionKind.Relocations || image.sections[i].kind == SectionKind.RelocationAddends)
  }

  /** Segment g lists x at position k, directly in front of y. */
  predicate Precedes(image: BinaryImage, g: nat, k: nat, x: nat, y: nat)
  {
    && g < |image.segments| && k + 1 < |image.segments[g].sections|
    && image.segments[g].sections[k] == x && image.segments[g].sections[k + 1] == y
  }

  /** Relocation r patches section x with a symbol of section y. */
  predicate Uses(image: BinaryImage, r: nat, x: nat, y: nat)
  {
    && r < |image.relocations| && image.relocations[r].targetSection == x
    && image.relocations[r].symbolIndex < |image.symbols|
    && image.symbols[image.relocations[r].symbolIndex].sectionIndex == y
  }

  ghost function LinksFrom(image: BinaryImage, k: nat, x: nat, y: nat): set<nat>
  {
    set i: nat | i < k && Links(image, i, x, y)
  }

  ghost function RelocatesFrom(image: BinaryImage, k: nat, x: nat, y: nat): set<nat>
  {
    set i: nat | i < k && Relocates(image, i, x, y)
  }

  ghost function PrecedesIn(image: BinaryImage, g: nat, m: nat, x: nat, y: nat): set<nat>
  {
    set k: nat | k < m && Precedes(image, g, k, x, y)
  }

  ghost function PrecedesFrom(image: BinaryImage, n: nat, x: nat, y: nat): set<(nat, nat)>
    requires n <= |image.segments|
  {
    set g: nat, k: nat | g < n && k < |image.segments[g].sections| && Precedes(image, g, k, x, y) :: (g, k)
  }

  ghost function UsesFrom(image: BinaryImage, k: nat, x: nat, y: nat): set<nat>
  {
    set r: nat | r < k && Uses(image, r, x, y)
  }

  /** How often the image makes x refer to y. */
  ghost function ReferenceCount(image: BinaryImage, x: nat, y: nat): nat
  {
    |LinksFrom(image, |image.sections|, x, y)| + |RelocatesFrom(image, |image.sections|, x, y)|
    + |PrecedesFrom(image, |image.segments|, x, y)| + |UsesFrom(image, |image.relocations|, x, y)|
  }

  /** x refers to y, for the given reason. */
  ghost predicate RefersBy(image: BinaryImage, x: nat, y: nat, reason: string)
  {
    && x < |image.sections| && y < |image.sections|
    && (|| (reason == "link" && exists i :: Links(image, i, x, y))
        || (reason == "relocation-target" && exists i :: Relocates(image, i, x, y))
        || (reason == "segment-order" && exists g, k :: Precedes(image, g, k, x, y))
        || (reason == "symbol-reference" && exists r :: Uses(image, r, x, y)))
  }

  ghost predicate Refers(image: BinaryImage, x: nat, y: nat)
  {
    exists reason :: RefersBy(image, x, y, reason)
  }

  // ----- the events are the references -----

  lemma {:induction false} CountConcat(a: seq<Event>, b: seq<Event>, x: nat, y: nat)
    ensures Count(a + b, x, y) == Count(a, x, y) + Count(b, x, y)
  {
    if b == [] {
      assert a + b == a;
    } else {
      assert (a + b)[..|a + b| - 1] == a + b[..|b| - 1];
      CountConcat(a, b[..|b| - 1], x, y);
    }
  }

  lemma {:induction false} CountAccepted(n: nat, events: seq<Event>, x: nat, y: nat)
    requires x < n && y < n
    ensures Count(Accepted(n, events), x, y) == Count(events, x, y)
  {
    if events != [] {
      var e := events[|events| - 1];
      CountAccepted(n, events[..|events| - 1], x, y);
      CountConcat(Accepted(n, events[..|events| - 1]), if InRange(e, n) then [e] else [], x, y);
      CountSingle(e, x, y);
    }
  }

  lemma CountSingle(e: Event, x: nat, y: nat)
    ensures Count([e], x, y) == if e.source == x && e.target == y then 1 else 0
    ensures Count([], x, y) == 0
  {
    assert [e][..0] == [];
  }

  lemma CountSection(image: BinaryImage, k: nat, x: nat, y: nat)
    requires k < |image.sections| && y < |image.sections|
    ensures Count(SectionEvents(image.sections[k], |image.sections|), x, y) ==
            (if Links(image, k, x, y) then 1 else 0) + (if Relocates(image, k, x, y) then 1 else 0)
  {
    var s, n := image.sections[k], |image.sections|;
    var a := if s.link != 0 && s.link < n then [Event(s.index, s.link, "link")] else [];
    var b := if (s.kind.Relocations? || s.kind.RelocationAddends?) && s.info < n
             then [Event(s.index, s.info, "relocation-target")] else [];
    CountConcat(a, b, x, y);
    CountSingle(Event(s.index, s.link, "link"), x, y);
    CountSingle(Event(s.index, s.info, "relocation-target"), x, y);
  }

  /** Two counts grow alike at k. */
  ghost predicate GrowsAlike(a: nat -> nat, b: nat -> nat, k: nat)
  {
    a(k + 1) - a(k) == b(k + 1) - b(k)
  }

  lemma {:induction false} SameCounts(a: nat -> nat, b: nat -> nat, n: nat)
    requires a(0) == b(0)
    requires forall k: nat {:trigger GrowsAlike(a, b, k)} :: k < n ==> GrowsAlike(a, b, k)
    ensures a(n) == b(n)
  {
    if n > 0 {
      SameCounts(a, b, n - 1);
      assert GrowsAlike(a, b, n - 1);
    }
  }

  lemma CountSections(image: BinaryImage, n: nat, x: nat, y: nat)
    requires n <= |image.sections| && y < |image.sections|
    ensures Count(AllSectionEvents(image, n), x, y) ==
            |LinksFrom(image, n, x, y)| + |RelocatesFrom(image, n, x, y)|
  {
    var a, b := SectionCount(image, x, y), LinkCount(image, x, y);
    forall k: nat | k < n ensures GrowsAlike(a, b, k) { SectionsGrow(image, k, x, y); }
    NoSections(image, x, y);
    SameCounts(a, b, n);
  }

  ghost function SectionCount(image: BinaryImage, x: nat, y: nat): nat -> nat
  {
    (k: nat) => if k <= |image.sections| then Count(AllSectionEvents(image, k), x, y) else 0
  }

  ghost function LinkCount(image: BinaryImage, x: nat, y: nat): nat -> nat
  {
    (k: nat) => |LinksFrom(image, k, x, y)| + |RelocatesFrom(image, k, x, y)|
  }

  lemma SectionsGrow(image: BinaryImage, k: nat, x: nat, y: nat)
    requires k < |image.sections| && y < |image.sections|
    ensures GrowsAlike(SectionCount(image, x, y), LinkCount(image, x, y), k)
  {
    CountNextSection(image, k, x, y);
    OneMoreSection(image, k, x, y);
  }

  lemma NoSections(image: BinaryImage, x: nat, y: nat)
    ensures SectionCount(image, x, y)(0) == LinkCount(image, x, y)(0)
  {
    assert LinksFrom(image, 0, x, y) == {} && RelocatesFrom(image, 0, x, y) == {};
  }

  lemma CountNextSection(image: BinaryImage, k: nat, x: nat, y: nat)
    requires k < |image.sections| && y < |image.sections|
    ensures Count(AllSectionEvents(image, k + 1), x, y) ==
            Count(AllSectionEvents(image, k), x, y)
            + (if Links(image, k, x, y) then 1 else 0) + if Relocates(image, k, x, y) then 1 else 0
  {
    CountSection(image, k, x, y);
    CountConcat(AllSectionEvents(image, k), SectionEvents(image.sections[k], |image.sections|), x, y);
  }

  lemma OneMoreLink(image: BinaryImage, k: nat, x: nat, y: nat)
    ensures |LinksFrom(image, k + 1, x, y)| == |LinksFrom(image, k, x, y)| + if Links(image, k, x, y) then 1 else 0
  {
    assert LinksFrom(image, k + 1, x, y) ==
           LinksFrom(image, k, x, y) + (if Links(image, k, x, y) then {k} else {});
  }

  lemma OneMoreSection(image: BinaryImage, k: nat, x: nat, y: nat)
    ensures |LinksFrom(image, k + 1, x, y)| == |LinksFrom(image, k, x, y)| + if Links(image, k, x, y) then 1 else 0
    ensures |RelocatesFrom(image, k + 1, x, y)| ==
            |RelocatesFrom(image, k, x, y)| + if Relocates(image, k, x, y) then 1 else 0
  {
    OneMoreLink(image, k, x, y);
    assert RelocatesFrom(image, k + 1, x, y) ==
           RelocatesFrom(image, k, x, y) + (if Relocates(image, k, x, y) then {k} else {});
  }

  lemma {:induction false} CountOrder(image: BinaryImage, g: nat, m: nat, x: nat, y: nat)
    requires g < |image.segments| && m < |image.segments[g].sections|
    ensures Count(OrderEvents(image.segments[g].sections, m), x, y) == |PrecedesIn(image, g, m, x, y)|
  {
    if m > 0 {
      var s := image.segments[g].sections;
      CountOrder(image, g, m - 1, x, y);
      CountConcat(OrderEvents(s, m - 1), [Event(s[m - 1], s[m], "segment-order")], x, y);
      CountSingle(Event(s[m - 1], s[m], "segment-order"), x, y);
      OneMorePosition(image, g, m - 1, x, y);
    }
  }

  lemma OneMorePosition(image: BinaryImage, g: nat, m: nat, x: nat, y: nat)
    ensures |PrecedesIn(image, g, m + 1, x, y)| ==
            |PrecedesIn(image, g, m, x, y)| + if Precedes(image, g, m, x, y) then 1 else 0
  {
    assert PrecedesIn(image, g, m + 1, x, y) ==
           PrecedesIn(image, g, m, x, y) + (if Precedes(image, g, m, x, y) then {m} else {});
  }

  ghost function PairedWith(g: nat, s: set<nat>): set<(nat, nat)>
  {
    set k | k in s :: (g, k)
  }

  lemma {:induction false} PairedCount(g: nat, s: set<nat>)
    ensures |PairedWith(g, s)| == |s|
  {
    if s != {} {
      var k :| k in s;
      PairedCount(g, s - {k});
      assert PairedWith(g, s) == PairedWith(g, s - {k}) + {(g, k)};
    }
  }

  lemma CountSegment(image: BinaryImage, g: nat, x: nat, y: nat)
    requires g < |image.segments|
    ensures Count(SegmentEvents(image.segments[g]), x, y) ==
            |PrecedesIn(image, g, |image.segments[g].sections|, x, y)|
  {
    var m := |image.segments[g].sections|;
    if m > 0 {
      CountOrder(image, g, m - 1, x, y);
      assert PrecedesIn(image, g, m, x, y) == PrecedesIn(image, g, m - 1, x, y);
    } else {
      assert PrecedesIn(image, g, m, x, y) == {};
    }
  }

  lemma {:induction false} CountSegments(image: BinaryImage, n: nat, x: nat, y: nat)
    requires n <= |image.segments|
    ensures Count(AllSegmentEvents(image, n), x, y) == |PrecedesFrom(image, n, x, y)|
  {
    if n > 0 {
      var g := n - 1;
      CountSegments(image, g, x, y);
      CountSegment(image, g, x, y);
      CountConcat(AllSegmentEvents(image, g), SegmentEvents(image.segments[g]), x, y);
      OneMoreSegment(image, g, x, y);
    }
  }

  lemma OneMoreSegment(image: BinaryImage, g: nat, x: nat, y: nat)
    requires g < |image.segments|
    ensures |PrecedesFrom(image, g + 1, x, y)| ==
            |PrecedesFrom(image, g, x, y)| + |PrecedesIn(image, g, |image.segments[g].sections|, x, y)|
  {
    var inside := PrecedesIn(image, g, |image.segments[g].sections|, x, y);
    PairedCount(g, inside);
    assert PrecedesFrom(image, g + 1, x, y) == PrecedesFrom(image, g, x, y) + PairedWith(g, inside);
  }

  lemma CountRelocation(image: BinaryImage, r: nat, x: nat, y: nat)
    requires r < |image.relocations| && x < |image.sections| && y < |image.sections|
    ensures Count(RelocationEvents(image, image.relocations[r]), x, y) ==
            if Uses(image, r, x, y) then 1 else 0
  {
    var rel := image.relocations[r];
    match image.SymbolAt(rel.symbolIndex)
    case None =>
    case Some(symbol) => CountSingle(Event(rel.targetSection, symbol.sectionIndex, "symbol-reference"), x, y);
  }

  lemma CountRelocations(image: BinaryImage, n: nat, x: nat, y: nat)
    requires n <= |image.relocations| && x < |image.sections| && y < |image.sections|
    ensures Count(AllRelocationEvents(image, n), x, y) == |UsesFrom(image, n, x, y)|
  {
    var a, b := RelocationCount(image, x, y), UseCount(image, x, y);
    forall k: nat | k < n ensures GrowsAlike(a, b, k) { RelocationsGrow(image, k, x, y); }
    assert UsesFrom(image, 0, x, y) == {};
    SameCounts(a, b, n);
  }

  ghost function RelocationCount(image: BinaryImage, x: nat, y: nat): nat -> nat
  {
    (k: nat) => if k <= |image.relocations| then Count(AllRelocationEvents(image, k), x, y) else 0
  }

  ghost function UseCount(image: BinaryImage, x: nat, y: nat): nat -> nat
  {
    (k: nat) => |UsesFrom(image, k, x, y)|
  }

  lemma RelocationsGrow(image: BinaryImage, k: nat, x: nat, y: nat)
    requires k < |image.relocations| && x < |image.sections| && y < |image.sections|
    ensures GrowsAlike(RelocationCount(image, x, y), UseCount(image, x, y), k)
  {
    CountNextRelocation(image, k, x, y);
    OneMoreUse(image, k, x, y);
  }

  lemma CountNextRelocation(image: BinaryImage, k: nat, x: nat, y: nat)
    requires k < |image.relocations| && x < |image.sections| && y < |image.sections|
    ensures Count(AllRelocationEvents(image, k + 1), x, y) ==
            Count(AllRelocationEvents(image, k), x, y) + if Uses(image, k, x, y) then 1 else 0
  {
    CountRelocation(image, k, x, y);
    CountConcat(AllRelocationEvents(image, k), RelocationEvents(image, image.relocations[k]), x, y);
  }

  lemma OneMoreUse(image: BinaryImage, k: nat, x: nat, y: nat)
    ensures |UsesFrom(image, k + 1, x, y)| == |UsesFrom(image, k, x, y)| + if Uses(image, k, x, y) then 1 else 0
  {
    assert UsesFrom(image, k + 1, x, y) == UsesFrom(image, k, x, y) + (if Uses(image, k, x, y) then {k} else {});
  }

  lemma CountReferences(image: BinaryImage, x: nat, y: nat)
    requires x < |image.sections| && y < |image.sections|
    ensures Count(Accepted(|image.sections|, ReferenceEvents(image)), x, y) == ReferenceCount(image, x, y)
  {
    var a := AllSectionEvents(image, |image.sections|);
    var b := AllSegmentEvents(image, |image.segments|);
    var c := AllRelocationEvents(image, |image.relocations|);
    CountAccepted(|image.sections|, ReferenceEvents(image), x, y);
    CountConcat(a + b, c, x, y);
    CountConcat(a, b, x, y);
    CountSections(image, |image.sections|, x, y);
    CountSegments(image, |image.segments|, x, y);
    CountRelocations(image, |image.relocations|, x, y);
  }

  // ----- the reasons -----

  /** Section record i gives this event. */
  predicate SectionGives(image: BinaryImage, i: nat, e: Event)
  {
    || (Links(image, i, e.source, e.target) && e.reason == "link")
    || (Relocates(image, i, e.source, e.target) && e.reason == "relocation-target")
  }

  predicate OrderGives(image: BinaryImage, g: nat, k: nat, e: Event)
  {
    Precedes(image, g, k, e.source, e.target) && e.reason == "segment-order"
  }

  ghost predicate SegmentGives(image: BinaryImage, g: nat, e: Event)
  {
    exists k: nat :: OrderGives(image, g, k, e)
  }

  predicate RelocationGives(image: BinaryImage, r: nat, e: Event)
  {
    Uses(image, r, e.source, e.target) && e.reason == "symbol-reference"
  }

  lemma {:induction false} InAccepted(n: nat, events: seq<Event>, e: Event)
    ensures e in Accepted(n, events) <==> e in events && InRange(e, n)
  {
    if events != [] {
      InAccepted(n, events[..|events| - 1], e);
      assert events == events[..|events| - 1] + [events[|events| - 1]];
    }
  }

  lemma {:induction false} InSectionEvents(image: BinaryImage, n: nat, e: Event)
    requires n <= |image.sections| && e.target < |image.sections|
    ensures e in AllSectionEvents(image, n) <==> exists i: nat :: i < n && SectionGives(image, i, e)
  {
    if n > 0 {
      InSectionEvents(image, n - 1, e);
      assert e in SectionEvents(image.sections[n - 1], |image.sections|) <==> SectionGives(image, n - 1, e);
    }
  }

  lemma {:induction false} InOrderEvents(image: BinaryImage, g: nat, m: nat, e: Event)
    requires g < |image.segments| && m < |image.segments[g].sections|
    ensures e in OrderEvents(image.segments[g].sections, m) <==> exists k: nat :: k < m && OrderGives(image, g, k, e)
  {
    if m > 0 {
      InOrderEvents(image, g, m - 1, e);
      var s := image.segments[g].sections;
      assert e == Event(s[m - 1], s[m], "segment-order") <==> OrderGives(image, g, m - 1, e);
    }
  }

  lemma LaterSegments(image: BinaryImage, n: nat, e: Event)
    requires n < |image.segments|
    ensures e in AllSegmentEvents(image, n + 1) <==>
            e in AllSegmentEvents(image, n) || e in SegmentEvents(image.segments[n])
  {
  }

  lemma GivenBySegment(image: BinaryImage, n: nat, g: nat, e: Event)
    requires g < n <= |image.segments| && e in SegmentEvents(image.segments[g])
    ensures e in AllSegmentEvents(image, n)
  {
    LaterSegments(image, g, e);
    for i := g + 1 to n
      invariant e in AllSegmentEvents(image, i)
    {
      LaterSegments(image, i, e);
    }
  }

  lemma GivingSegment(image: BinaryImage, n: nat, e: Event) returns (g: nat)
    requires n <= |image.segments| && e in AllSegmentEvents(image, n)
    ensures g < n && e in SegmentEvents(image.segments[g])
  {
    g := n - 1;
    LaterSegments(image, g, e);
    while e in AllSegmentEvents(image, g)
      invariant g < n && (e in AllSegmentEvents(image, g) || e in SegmentEvents(image.segments[g]))
      decreases g
    {
      g := g - 1;
      LaterSegments(image, g, e);
    }
  }

  lemma InSegmentEvents(image: BinaryImage, n: nat, e: Event)
    requires n <= |image.segments|
    ensures e in AllSegmentEvents(image, n) <==> exists g: nat :: g < n && SegmentGives(image, g, e)
  {
    if e in AllSegmentEvents(image, n) {
      var g := GivingSegment(image, n, e);
      InOneSegment(image, g, e);
    }
    forall g: nat | g < n && SegmentGives(image, g, e) ensures e in AllSegmentEvents(image, n) {
      InOneSegment(image, g, e);
      GivenBySegment(image, n, g, e);
    }
  }

  lemma InOneSegment(image: BinaryImage, g: nat, e: Event)
    requires g < |image.segments|
    ensures e in SegmentEvents(image.segments[g]) <==> SegmentGives(image, g, e)
  {
    var m := |image.segments[g].sections|;
    if m > 0 { InOrderEvents(image, g, m - 1, e); }
  }

  lemma {:induction false} InRelocationEvents(image: BinaryImage, n: nat, e: Event)
    requires n <= |image.relocations| && InRange(e, |image.sections|)
    ensures e in AllRelocationEvents(image, n) <==> exists r: nat :: r < n && RelocationGives(image, r, e)
  {
    if n > 0 {
      InRelocationEvents(image, n - 1, e);
      assert e in RelocationEvents(image, image.relocations[n - 1]) <==> RelocationGives(image, n - 1, e);
    }
  }

  /** The accepted events are the references, each with its reason. */
  lemma EventsAre(image: BinaryImage, e: Event)
    ensures e in Accepted(|image.sections|, ReferenceEvents(image)) <==> RefersBy(image, e.source, e.target, e.reason)
  {
    InAccepted(|image.sections|, ReferenceEvents(image), e);
    if InRange(e, |image.sections|) {
      InSectionEvents(image, |image.sections|, e);
      InSegmentEvents(image, |image.segments|, e);
      InRelocationEvents(image, |image.relocations|, e);
      SameGivers(image, e);
    }
  }

  lemma SameGivers(image: BinaryImage, e: Event)
    requires InRange(e, |image.sections|)
    ensures RefersBy(image, e.source, e.target, e.reason) <==>
            || (exists i: nat :: i < |image.sections| && SectionGives(image, i, e))
            || (exists g: nat :: g < |image.segments| && SegmentGives(image, g, e))
            || (exists r: nat :: r < |image.relocations| && RelocationGives(image, r, e))
  {
    if e.reason == "link" && exists i :: Links(image, i, e.source, e.target) {
      var i :| Links(image, i, e.source, e.target);
      assert SectionGives(image, i, e);
    }
    if e.reason == "relocation-target" && exists i :: Relocates(image, i, e.source, e.target) {
      var i :| Relocates(image, i, e.source, e.target);
      assert SectionGives(image, i, e);
    }
    if e.reason == "segment-order" && exists g, k :: Precedes(image, g, k, e.source, e.target) {
      var g, k :| Precedes(image, g, k, e.source, e.target);
      assert OrderGives(image, g, k, e) && SegmentGives(image, g, e);
    }
    if e.reason == "symbol-reference" && exists r :: Uses(image, r, e.source, e.target) {
      var r :| Uses(image, r, e.source, e.target);
      assert RelocationGives(image, r, e);
    }
  }

  const REASONS: set<string> := {"link", "relocation-target", "segment-order", "symbol-reference"}

  lemma SharedChar(text: string, part: string, c: char)
    requires Relations.Mentions(text, part) && c in part
    ensures c in text
  {
    var i :| 0 <= i <= |text| && OccursAt(text, part, i);
    var j :| 0 <= j < |part| && part[j] == c;
    assert text[i + j] == text[i..i + |part|][j];
  }

  function LetterOf(reason: string): char
  {
    if reason == "link" then 'k'
    else if reason == "relocation-target" then 'a'
    else if reason == "segment-order" then 'd'
    else 'y'
  }

  /** Each of the four has a letter of its own. */
  lemma OwnLetter(reason: string)
    requires reason in REASONS
    ensures LetterOf(reason) in reason && ',' !in reason
    ensures forall p {:trigger p in REASONS} :: p in REASONS && LetterOf(p) in reason ==> p == reason
  {
    if reason == "link" { LinkLetters(); }
    else if reason == "relocation-target" { TargetLetters(); }
    else if reason == "segment-order" { OrderLetters(); }
    else { SymbolLetters(); }
  }

  lemma LinkLetters()
    ensures var s := "link"; 'k' in s && 'a' !in s && 'd' !in s && 'y' !in s && ',' !in s
  {
    assert "link"[3] == 'k';
  }

  lemma TargetLetters()
    ensures var s := "relocation-target"; 'a' in s && 'k' !in s && 'd' !in s && 'y' !in s && ',' !in s
  {
    assert "relocation-target"[5] == 'a';
  }

  lemma OrderLetters()
    ensures var s := "segment-order"; 'd' in s && 'k' !in s && 'a' !in s && 'y' !in s && ',' !in s
  {
    assert "segment-order"[10] == 'd';
  }

  lemma SymbolLetters()
    ensures var s := "symbol-reference"; 'y' in s && 'k' !in s && 'a' !in s && 'd' !in s && ',' !in s
  {
    assert "symbol-reference"[1] == 'y';
  }

  lemma ReasonsPlain()
    ensures Plain(REASONS)
  {
    forall p, q | p in REASONS && q in REASONS && Relations.Mentions(q, p) ensures p == q {
      OwnLetter(p);
      SharedChar(q, p, LetterOf(p));
      OwnLetter(q);
    }
  }

  // ----- the report -----

  lemma GivenReasonsAre(image: BinaryImage, x: nat, y: nat, reason: string)
    ensures reason in DistinctReasons(Accepted(|image.sections|, ReferenceEvents(image)), x, y) <==>
            RefersBy(image, x, y, reason)
  {
    var accepted := Accepted(|image.sections|, ReferenceEvents(image));
    GivenReasons(accepted, x, y, reason);
    EventsAre(image, Event(x, y, reason));
    assert (exists e :: e in accepted && e.source == x && e.target == y && e.reason == reason) <==>
           Event(x, y, reason) in accepted;
  }

  lemma OnlyTheseReasons(image: BinaryImage)
    ensures AllGivenFrom(Accepted(|image.sections|, ReferenceEvents(image)), REASONS)
  {
    forall e | e in Accepted(|image.sections|, ReferenceEvents(image)) ensures e.reason in REASONS {
      EventsAre(image, e);
    }
  }

  /** The text lists every reason that x has to refer to y, once, and nothing else. */
  ghost predicate ListsReasons(image: BinaryImage, text: string, x: nat, y: nat)
  {
    exists parts ::
      && text == Join(parts) && NoDuplicates(parts)
      && forall reason {:trigger reason in parts} :: reason in parts <==> RefersBy(image, x, y, reason)
  }

  lemma {:induction false} ReasonsOnce(events: seq<Event>, x: nat, y: nat)
    ensures NoDuplicates(DistinctReasons(events, x, y))
  {
    if events != [] { ReasonsOnce(events[..|events| - 1], x, y); }
  }

  /** What each reported relation says: how often its pair is referred to, and why. */
  lemma RelationMeans(image: BinaryImage, result: SectionGraph, k: nat)
    requires Describes(result, |image.sections|, ReferenceEvents(image)) && k < |result.relations|
    ensures var r := result.relations[k];
            && r.references == ReferenceCount(image, r.source, r.target) > 0
            && ListsReasons(image, r.reason, r.source, r.target)
  {
    var accepted, r := Accepted(|image.sections|, ReferenceEvents(image)), result.relations[k];
    assert Tallies(r, |image.sections|, accepted);
    CountReferences(image, r.source, r.target);
    ReasonsPlain();
    OnlyTheseReasons(image);
    assert Worded(r, accepted);
    var parts := DistinctReasons(accepted, r.source, r.target);
    ReasonsOnce(accepted, r.source, r.target);
    forall reason ensures reason in parts <==> RefersBy(image, r.source, r.target, reason) {
      GivenReasonsAre(image, r.source, r.target, reason);
    }
  }

  /** The edges of the reported graph are the references of the image. */
  lemma EdgesAreReferences(image: BinaryImage, result: SectionGraph, x: nat, y: nat)
    requires Describes(result, |image.sections|, ReferenceEvents(image))
    ensures Edge(Adjacency(|image.sections|, result.relations), x, y) <==> Refers(image, x, y)
    ensures Related(result.relations, x, y) <==> Refers(image, x, y)
  {
    var n, events := |image.sections|, ReferenceEvents(image);
    EdgesAreEvents(result, n, events, x, y);
    AdjacencyMeans(n, result.relations);
    if exists e :: e in Accepted(n, events) && e.source == x && e.target == y {
      var e :| e in Accepted(n, events) && e.source == x && e.target == y;
      EventsAre(image, e);
    }
    if Refers(image, x, y) {
      var reason :| RefersBy(image, x, y, reason);
      EventsAre(image, Event(x, y, reason));
    }
  }

  /** The roots are the sections that nothing refers to; the orphans are those of them that refer to
      nothing. */
  lemma RootsAreUnreferred(image: BinaryImage, result: SectionGraph, v: nat)
    requires Describes(result, |image.sections|, ReferenceEvents(image))
    ensures v in result.roots <==> v < |image.sections| && forall x: nat :: !Refers(image, x, v)
    ensures v in result.orphans <==> v in result.roots && forall y: nat :: !Refers(image, v, y)
  {
    var g := Adjacency(|image.sections|, result.relations);
    AdjacencyMeans(|image.sections|, result.relations);
    forall x: nat ensures Edge(g, x, v) <==> Refers(image, x, v) { EdgesAreReferences(image, result, x, v); }
    forall y: nat ensures Edge(g, v, y) <==> Refers(image, v, y) { EdgesAreReferences(image, result, v, y); }
  }
}
