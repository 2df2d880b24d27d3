/** The relation table of src/section_graph.cc: reference events merged per (source, target). */
module Relations {
  import opened Graphs

  datatype SectionRelation = SectionRelation(source: nat, target: nat, reason: string, references: nat)

  /** One call of add_relation. */
  datatype Event = Event(source: nat, target: nat, reason: string)

  ghost predicate InRange(e: Event, n: nat)
  {
    e.source < n && e.target < n
  }

  /** The events add_relation does not turn away. */
  ghost function Accepted(n: nat, events: seq<Event>): seq<Event>
  {
    if events == [] then []
    else
      var e := events[|events| - 1];
      Accepted(n, events[..|events| - 1]) + (if InRange(e, n) then [e] else [])
  }

  ghost function Count(events: seq<Event>, source: nat, target: nat): nat
  {
    if events == [] then 0
    else
      var e := events[|events| - 1];
      Count(events[..|events| - 1], source, target) + (if e.source == source && e.target == target then 1 else 0)
  }

  ghost function TotalReferences(relations: seq<SectionRelation>): nat
  {
    if relations == [] then 0
    else TotalReferences(relations[..|relations| - 1]) + relations[|relations| - 1].references
  }

  predicate OccursAt(reason: string, part: string, i: nat)
  {
    i + |part| <= |reason| && reason[i..i + |part|] == part
  }

  /** reason.find(part) != npos. */
  predicate Mentions(reason: string, part: string)
  {
    exists i :: 0 <= i <= |reason| && OccursAt(reason, part, i)
  }

  lemma MentionsGrows(reason: string, more: string, part: string)
    requires Mentions(reason, part)
    ensures Mentions(reason + more, part)
  {
    var i :| 0 <= i <= |reason| && OccursAt(reason, part, i);
    assert (reason + more)[i..i + |part|] == reason[i..i + |part|];
    assert OccursAt(reason + more, part, i);
  }

  lemma MentionsEnd(reason: string, part: string)
    ensures Mentions(reason + part, part)
  {
    assert OccursAt(reason + part, part, |reason|);
  }

  lemma AcceptedOne(n: nat, events: seq<Event>, e: Event)
    ensures Accepted(n, events + [e]) == Accepted(n, events) + (if InRange(e, n) then [e] else [])
  {
    assert (events + [e])[..|events|] == events;
  }

  lemma {:induction false} CountZero(events: seq<Event>, source: nat, target: nat)
    ensures Count(events, source, target) == 0 <==>
            forall e :: e in events ==> !(e.source == source && e.target == target)
  {
    if events != [] {
      var front := events[..|events| - 1];
      CountZero(front, source, target);
      assert events == front + [events[|events| - 1]];
    }
  }

  lemma CountOne(events: seq<Event>, e: Event, source: nat, target: nat)
    ensures Count(events + [e], source, target) ==
            Count(events, source, target) + (if e.source == source && e.target == target then 1 else 0)
  {
    assert (events + [e])[..|events|] == events;
  }

  lemma {:induction false} TotalUpdate(relations: seq<SectionRelation>, k: nat, r: SectionRelation)
    requires k < |relations|
    ensures TotalReferences(relations[k := r]) ==
            TotalReferences(relations) + r.references - relations[k].references
  {
    var m := |relations| - 1;
    if k == m {
      assert relations[k := r][..m] == relations[..m];
    } else {
      TotalUpdate(relations[..m], k, r);
      assert relations[k := r][..m] == relations[..m][k := r];
    }
  }

  lemma TotalAppend(relations: seq<SectionRelation>, r: SectionRelation)
    ensures TotalReferences(relations + [r]) == TotalReferences(relations) + r.references
  {
    assert (relations + [r])[..|relations|] == relations;
  }

  /** The relations summarise the accepted events: one per pair that occurs, with the number of
      its events and every reason that was given for it. */
  ghost predicate Summarises(relations: seq<SectionRelation>, n: nat, accepted: seq<Event>)
  {
    && (forall k {:trigger relations[k].references} :: 0 <= k < |relations| ==> Tallies(relations[k], n, accepted))
    && (forall j, k {:trigger Key(relations[j]), Key(relations[k])} ::
          0 <= j < k < |relations| ==> Key(relations[j]) != Key(relations[k]))
    && (forall e {:trigger Covered(relations, e)} :: e in accepted ==> Covered(relations, e))
    && TotalReferences(relations) == |accepted|
  }

  ghost predicate Tallies(r: SectionRelation, n: nat, accepted: seq<Event>)
  {
    && r.source < n && r.target < n && r.references > 0
    && r.references == Count(accepted, r.source, r.target)
  }

  ghost predicate Covered(relations: seq<SectionRelation>, e: Event)
  {
    exists k :: 0 <= k < |relations| && Covers(relations[k], e)
  }

  ghost predicate Covers(r: SectionRelation, e: Event)
  {
    r.source == e.source && r.target == e.target && Mentions(r.reason, e.reason)
  }

  /** The pairs of the events, in the order in which they first occur. */
  ghost function DistinctPairs(events: seq<Event>): seq<(nat, nat)>
  {
    if events == [] then []
    else
      var e, front := events[|events| - 1], DistinctPairs(events[..|events| - 1]);
      if (e.source, e.target) in front then front else front + [(e.source, e.target)]
  }

  /** The reasons given for a pair, in the order in which they are first given. */
  ghost function DistinctReasons(events: seq<Event>, source: nat, target: nat): seq<string>
  {
    if events == [] then []
    else
      var e, front := events[|events| - 1], DistinctReasons(events[..|events| - 1], source, target);
      if e.source != source || e.target != target || e.reason in front then front else front + [e.reason]
  }

  function Join(parts: seq<string>): string
  {
    if |parts| == 0 then ""
    else if |parts| == 1 then parts[0]
    else Join(parts[..|parts| - 1]) + "," + parts[|parts| - 1]
  }

  /** No reason occurs inside another one, nor across a comma. */
  ghost predicate Plain(reasons: set<string>)
  {
    && (forall p {:trigger p in reasons} :: p in reasons ==> p != "" && ',' !in p)
    && (forall p, q {:trigger Mentions(q, p)} :: p in reasons && q in reasons && Mentions(q, p) ==> p == q)
  }

  ghost predicate AllGivenFrom(events: seq<Event>, reasons: set<string>)
  {
    forall e {:trigger e.reason in reasons} :: e in events ==> e.reason in reasons
  }

  /** The text of the relation is the list of its reasons, as long as none occurs inside another. */
  ghost predicate Worded(r: SectionRelation, accepted: seq<Event>)
  {
    forall reasons {:trigger AllGivenFrom(accepted, reasons)} :: Plain(reasons) && AllGivenFrom(accepted, reasons) ==>
      r.reason == Join(DistinctReasons(accepted, r.source, r.target))
  }

  ghost function PairsOf(relations: seq<SectionRelation>): seq<(nat, nat)>
  {
    seq(|relations|, i requires 0 <= i < |relations| => Key(relations[i]))
  }

  /** The relations come in the order in which their pairs first occur, each with its reasons. */
  ghost predicate Listed(relations: seq<SectionRelation>, accepted: seq<Event>)
  {
    && PairsOf(relations) == DistinctPairs(accepted)
    && forall k {:trigger relations[k].reason} :: 0 <= k < |relations| ==> Worded(relations[k], accepted)
  }

  /** The index finds the relation of each pair. */
  ghost predicate Indexed(relations: seq<SectionRelation>, at: map<(nat, nat), nat>)
  {
    && (forall k {:trigger Key(relations[k])} :: 0 <= k < |relations| ==>
          Key(relations[k]) in at && at[Key(relations[k])] == k)
    && (forall key {:trigger at[key]} :: key in at ==> at[key] < |relations| && Key(relations[at[key]]) == key)
  }

  function Key(r: SectionRelation): (nat, nat)
  {
    (r.source, r.target)
  }

  /** graph.relations and relation_at. */
  class RelationTable {
    const count: nat
    var relations: seq<SectionRelation>
    var relationAt: map<(nat, nat), nat>
    ghost var calls: seq<Event>

    ghost predicate Valid()
      reads this
    {
      Consistent(relations, relationAt, count, calls)
    }

    constructor (count: nat)
      ensures Valid() && this.count == count && calls == []
    {
      this.count := count;
      relations := [];
      relationAt := map[];
      calls := [];
    }

    /** add_relation. */
    method AddRelation(source: nat, target: nat, reason: string) returns (added: bool)
      requires Valid()
      modifies this
      ensures Valid()
      ensures added <==> source < count && target < count
      ensures calls == old(calls) + [Event(source, target, reason)]
    {
      ghost var e, before := Event(source, target, reason), calls;
      calls := calls + [e];
      if source >= count || target >= count {
        TurnsAway(relations, relationAt, count, before, e);
        return false;
      }
      var key := (source, target);
      if key in relationAt {
        var found := relationAt[key];
        var r := relations[found];
        var text := if Mentions(r.reason, reason) then r.reason else r.reason + "," + reason;
        Merges(relations, relationAt, count, before, e, text);
        relations := relations[found := SectionRelation(source, target, text, r.references + 1)];
        return true;
      }
      Appends(relations, relationAt, count, before, e);
      relationAt := relationAt[key := |relations|];
      relations := relations + [SectionRelation(source, target, reason, 1)];
      return true;
    }
  }

  /** The table says what the calls so far amount to. */
  ghost predicate Consistent(relations: seq<SectionRelation>, at: map<(nat, nat), nat>, n: nat, calls: seq<Event>)
  {
    Summarises(relations, n, Accepted(n, calls)) && Indexed(relations, at) && Listed(relations, Accepted(n, calls))
  }

  lemma TurnsAway(relations: seq<SectionRelation>, at: map<(nat, nat), nat>, n: nat, calls: seq<Event>, e: Event)
    requires Consistent(relations, at, n, calls) && !InRange(e, n)
    ensures Consistent(relations, at, n, calls + [e])
  {
    AcceptedOne(n, calls, e);
    assert Accepted(n, calls + [e]) == Accepted(n, calls);
  }

  lemma Merges(relations: seq<SectionRelation>, at: map<(nat, nat), nat>, n: nat, calls: seq<Event>, e: Event,
               text: string)
    requires Consistent(relations, at, n, calls) && InRange(e, n) && (e.source, e.target) in at
    ensures at[(e.source, e.target)] < |relations|
    ensures var found := at[(e.source, e.target)];
            var r := relations[found];
            text == (if Mentions(r.reason, e.reason) then r.reason else r.reason + "," + e.reason) ==>
              Consistent(relations[found := SectionRelation(e.source, e.target, text, r.references + 1)],
                         at, n, calls + [e])
  {
    var found := at[(e.source, e.target)];
    var r := relations[found];
    if text == if Mentions(r.reason, e.reason) then r.reason else r.reason + "," + e.reason {
      assert Key(r) == (e.source, e.target);
      AcceptedOne(n, calls, e);
      MergedCovers(r.reason, e.reason, text);
      SummaryMerge(relations, n, Accepted(n, calls), found, e, text);
      ListMerge(relations, n, Accepted(n, calls), found, e, text);
      IndexedMerge(relations, at, found, SectionRelation(e.source, e.target, text, r.references + 1));
    }
  }

  lemma Appends(relations: seq<SectionRelation>, at: map<(nat, nat), nat>, n: nat, calls: seq<Event>, e: Event)
    requires Consistent(relations, at, n, calls) && InRange(e, n) && (e.source, e.target) !in at
    ensures Consistent(relations + [SectionRelation(e.source, e.target, e.reason, 1)],
                       at[(e.source, e.target) := |relations|], n, calls + [e])
  {
    AcceptedOne(n, calls, e);
    IndexedAppend(relations, at, SectionRelation(e.source, e.target, e.reason, 1));
    SummaryAppend(relations, n, Accepted(n, calls), e);
    ListAppend(relations, n, Accepted(n, calls), e);
  }

  lemma IndexedMerge(relations: seq<SectionRelation>, at: map<(nat, nat), nat>, k: nat, r: SectionRelation)
    requires Indexed(relations, at) && k < |relations| && Key(r) == Key(relations[k])
    ensures Indexed(relations[k := r], at)
  {
  }

  lemma IndexedAppend(relations: seq<SectionRelation>, at: map<(nat, nat), nat>, r: SectionRelation)
    requires Indexed(relations, at) && Key(r) !in at
    ensures Indexed(relations + [r], at[Key(r) := |relations|])
    ensures forall k :: 0 <= k < |relations| ==> !(relations[k].source == r.source && relations[k].target == r.target)
  {
    forall k | 0 <= k < |relations| ensures !(relations[k].source == r.source && relations[k].target == r.target) {
      assert Key(relations[k]) in at;
    }
  }

  lemma MergedCovers(before: string, part: string, text: string)
    requires text == if Mentions(before, part) then before else before + "," + part
    ensures Mentions(text, part)
    ensures forall p :: Mentions(before, p) ==> Mentions(text, p)
  {
    if !Mentions(before, part) {
      MentionsEnd(before + ",", part);
      forall p | Mentions(before, p) ensures Mentions(text, p) {
        MentionsGrows(before, "," + part, p);
        assert before + ("," + part) == text;
      }
    }
  }

  lemma SummaryMerge(relations: seq<SectionRelation>, n: nat, accepted: seq<Event>, k: nat, e: Event, text: string)
    requires Summarises(relations, n, accepted) && k < |relations|
    requires relations[k].source == e.source && relations[k].target == e.target
    requires Mentions(text, e.reason) && forall p :: Mentions(relations[k].reason, p) ==> Mentions(text, p)
    ensures Summarises(relations[k := SectionRelation(e.source, e.target, text, relations[k].references + 1)],
                       n, accepted + [e])
  {
    var r := SectionRelation(e.source, e.target, text, relations[k].references + 1);
    var merged := relations[k := r];
    TotalUpdate(relations, k, r);
    forall j | 0 <= j < |merged|
      ensures merged[j].references == Count(accepted + [e], merged[j].source, merged[j].target)
    {
      CountOne(accepted, e, merged[j].source, merged[j].target);
      if j != k { assert Key(relations[j]) != Key(relations[k]); }
    }
    forall d | d in accepted + [e] ensures Covered(merged, d) {
      if d in accepted {
        assert Covered(relations, d);
        var j :| 0 <= j < |relations| && Covers(relations[j], d);
        assert Covers(merged[j], d);
      } else {
        assert Covers(merged[k], d);
      }
    }
  }

  lemma SummaryAppend(relations: seq<SectionRelation>, n: nat, accepted: seq<Event>, e: Event)
    requires Summarises(relations, n, accepted) && InRange(e, n)
    requires forall k :: 0 <= k < |relations| ==> !(relations[k].source == e.source && relations[k].target == e.target)
    ensures Summarises(relations + [SectionRelation(e.source, e.target, e.reason, 1)], n, accepted + [e])
  {
    var r := SectionRelation(e.source, e.target, e.reason, 1);
    var grown := relations + [r];
    TotalAppend(relations, r);
    assert Mentions(e.reason, e.reason) by { MentionsEnd("", e.reason); assert "" + e.reason == e.reason; }
    CountZero(accepted, e.source, e.target);
    forall j | 0 <= j < |grown|
      ensures grown[j].references == Count(accepted + [e], grown[j].source, grown[j].target)
    {
      CountOne(accepted, e, grown[j].source, grown[j].target);
      if j == |relations| {
        forall d | d in accepted ensures !(d.source == e.source && d.target == e.target) {
          assert Covered(relations, d);
          var i :| 0 <= i < |relations| && Covers(relations[i], d);
        }
      }
    }
    forall d | d in accepted + [e] ensures Covered(grown, d) {
      if d in accepted {
        assert Covered(relations, d);
        var j :| 0 <= j < |relations| && Covers(relations[j], d);
        assert Covers(grown[j], d);
      } else {
        assert Covers(grown[|relations|], d);
      }
    }
  }

  // ----- the order of the relations and of their reasons -----

  lemma CharInside(text: string, p: string, i: nat, c: nat)
    requires OccursAt(text, p, i) && i <= c < i + |p|
    ensures text[c] in p
  {
    assert p[c - i] == text[i..i + |p|][c - i];
  }

  /** A text without a comma that occurs in a list occurs in one of its parts. */
  lemma {:induction false} FoundInPart(parts: seq<string>, p: string)
    requires p != "" && ',' !in p && Mentions(Join(parts), p)
    ensures exists i :: 0 <= i < |parts| && Mentions(parts[i], p)
  {
    var i :| 0 <= i <= |Join(parts)| && OccursAt(Join(parts), p, i);
    if |parts| == 1 {
      assert Mentions(parts[0], p);
    } else {
      var front, last := Join(parts[..|parts| - 1]), parts[|parts| - 1];
      var comma := |front|;
      assert Join(parts)[comma] == ',';
      if i <= comma < i + |p| {
        CharInside(Join(parts), p, i, comma);
      } else if i + |p| <= comma {
        assert front[i..i + |p|] == Join(parts)[i..i + |p|];
        assert OccursAt(front, p, i);
        FoundInPart(parts[..|parts| - 1], p);
      } else {
        var j := i - comma - 1;
        assert last[j..j + |p|] == Join(parts)[i..i + |p|];
        assert OccursAt(last, p, j);
      }
    }
  }

  lemma MentionsItself(p: string)
    ensures Mentions(p, p)
  {
    MentionsEnd("", p);
    assert "" + p == p;
  }

  lemma PartFoundBehind(front: string, last: string, p: string)
    requires Mentions(front, p) || p == last
    ensures Mentions(front + "," + last, p)
  {
    if p == last {
      MentionsEnd(front + ",", p);
    } else {
      MentionsGrows(front, "," + last, p);
      assert front + ("," + last) == front + "," + last;
    }
  }

  lemma {:induction false} PartFound(parts: seq<string>, p: string)
    requires p in parts
    ensures Mentions(Join(parts), p)
  {
    if |parts| == 1 {
      MentionsItself(p);
    } else {
      var front, last := parts[..|parts| - 1], parts[|parts| - 1];
      assert parts == front + [last];
      if p in front { PartFound(front, p); }
      PartFoundBehind(Join(front), last, p);
    }
  }

  lemma {:induction false} GivenReasons(events: seq<Event>, source: nat, target: nat, p: string)
    ensures p in DistinctReasons(events, source, target) <==>
            exists e :: e in events && e.source == source && e.target == target && e.reason == p
  {
    if events != [] {
      var front, e := events[..|events| - 1], events[|events| - 1];
      GivenReasons(front, source, target, p);
      assert events == front + [e];
      if p in DistinctReasons(front, source, target) {
        var d :| d in front && d.source == source && d.target == target && d.reason == p;
        assert d in events;
      }
      if exists d :: d in events && d.source == source && d.target == target && d.reason == p {
        var d :| d in events && d.source == source && d.target == target && d.reason == p;
        assert d in front || d == e;
      }
    }
  }

  lemma ReasonsOne(events: seq<Event>, e: Event, source: nat, target: nat)
    ensures DistinctReasons(events + [e], source, target) ==
            var before := DistinctReasons(events, source, target);
            if e.source != source || e.target != target || e.reason in before then before else before + [e.reason]
  {
    assert (events + [e])[..|events|] == events;
  }

  lemma PairsOne(events: seq<Event>, e: Event)
    ensures DistinctPairs(events + [e]) ==
            var before := DistinctPairs(events);
            if (e.source, e.target) in before then before else before + [(e.source, e.target)]
  {
    assert (events + [e])[..|events|] == events;
  }

  lemma AllGivenBefore(events: seq<Event>, e: Event, reasons: set<string>)
    requires AllGivenFrom(events + [e], reasons)
    ensures AllGivenFrom(events, reasons) && e.reason in reasons
  {
    forall d | d in events ensures d.reason in reasons { assert d in events + [e]; }
    assert e in events + [e];
  }

  /** Appending a reason that the text does not mention yet keeps the text the list of the reasons. */
  lemma WordedMerge(r: SectionRelation, accepted: seq<Event>, e: Event, s: SectionRelation)
    requires Worded(r, accepted) && r.source == e.source == s.source && r.target == e.target == s.target
    requires DistinctReasons(accepted, r.source, r.target) != []
    requires s.reason == if Mentions(r.reason, e.reason) then r.reason else r.reason + "," + e.reason
    ensures Worded(s, accepted + [e])
  {
    var before := DistinctReasons(accepted, r.source, r.target);
    ReasonsOne(accepted, e, r.source, r.target);
    forall reasons {:trigger AllGivenFrom(accepted + [e], reasons)}
      | Plain(reasons) && AllGivenFrom(accepted + [e], reasons)
      ensures s.reason == Join(DistinctReasons(accepted + [e], s.source, s.target))
    {
      AllGivenBefore(accepted, e, reasons);
      if e.reason in before {
        PartFound(before, e.reason);
      } else {
        if Mentions(r.reason, e.reason) { NotMentioned(accepted, r.source, r.target, reasons, e.reason); }
        assert (before + [e.reason])[..|before|] == before;
      }
    }
  }

  lemma NotMentioned(accepted: seq<Event>, source: nat, target: nat, reasons: set<string>, p: string)
    requires Plain(reasons) && AllGivenFrom(accepted, reasons) && p in reasons
    requires Mentions(Join(DistinctReasons(accepted, source, target)), p)
    ensures p in DistinctReasons(accepted, source, target)
  {
    var parts := DistinctReasons(accepted, source, target);
    FoundInPart(parts, p);
    var i :| 0 <= i < |parts| && Mentions(parts[i], p);
    GivenReasons(accepted, source, target, parts[i]);
    var e :| e in accepted && e.source == source && e.target == target && e.reason == parts[i];
    assert e.reason in reasons;
  }

  lemma WordedOther(r: SectionRelation, accepted: seq<Event>, e: Event)
    requires Worded(r, accepted) && !(r.source == e.source && r.target == e.target)
    ensures Worded(r, accepted + [e])
  {
    ReasonsOne(accepted, e, r.source, r.target);
    forall reasons {:trigger AllGivenFrom(accepted + [e], reasons)}
      | Plain(reasons) && AllGivenFrom(accepted + [e], reasons)
      ensures r.reason == Join(DistinctReasons(accepted + [e], r.source, r.target))
    {
      AllGivenBefore(accepted, e, reasons);
    }
  }

  lemma ListMerge(relations: seq<SectionRelation>, n: nat, accepted: seq<Event>, k: nat, e: Event, text: string)
    requires Summarises(relations, n, accepted) && Listed(relations, accepted) && k < |relations|
    requires relations[k].source == e.source && relations[k].target == e.target
    requires text == if Mentions(relations[k].reason, e.reason) then relations[k].reason
                     else relations[k].reason + "," + e.reason
    ensures Listed(relations[k := SectionRelation(e.source, e.target, text, relations[k].references + 1)],
                   accepted + [e])
  {
    var s := SectionRelation(e.source, e.target, text, relations[k].references + 1);
    var merged := relations[k := s];
    PairsOne(accepted, e);
    assert PairsOf(relations)[k] == (e.source, e.target);
    assert PairsOf(merged) == PairsOf(relations);
    SomeReason(relations, n, accepted, k);
    forall j | 0 <= j < |merged| ensures Worded(merged[j], accepted + [e]) {
      if j == k {
        WordedMerge(relations[k], accepted, e, s);
      } else {
        assert Key(relations[j]) != Key(relations[k]);
        WordedOther(relations[j], accepted, e);
      }
    }
  }

  lemma SomeReason(relations: seq<SectionRelation>, n: nat, accepted: seq<Event>, k: nat)
    requires Summarises(relations, n, accepted) && k < |relations|
    ensures DistinctReasons(accepted, relations[k].source, relations[k].target) != []
  {
    var x, y := relations[k].source, relations[k].target;
    assert Tallies(relations[k], n, accepted);
    CountZero(accepted, x, y);
    var e :| e in accepted && e.source == x && e.target == y;
    GivenReasons(accepted, x, y, e.reason);
  }

  lemma ListAppend(relations: seq<SectionRelation>, n: nat, accepted: seq<Event>, e: Event)
    requires Summarises(relations, n, accepted) && Listed(relations, accepted)
    requires forall k :: 0 <= k < |relations| ==> !(relations[k].source == e.source && relations[k].target == e.target)
    ensures Listed(relations + [SectionRelation(e.source, e.target, e.reason, 1)], accepted + [e])
  {
    var s := SectionRelation(e.source, e.target, e.reason, 1);
    var grown := relations + [s];
    PairsOne(accepted, e);
    assert PairsOf(grown) == PairsOf(relations) + [(e.source, e.target)];
    assert (e.source, e.target) !in PairsOf(relations);
    forall j | 0 <= j < |grown| ensures Worded(grown[j], accepted + [e]) {
      if j < |relations| {
        WordedOther(relations[j], accepted, e);
      } else {
        NoReasonYet(relations, accepted, e);
        ReasonsOne(accepted, e, e.source, e.target);
      }
    }
  }

  lemma NoReasonYet(relations: seq<SectionRelation>, accepted: seq<Event>, e: Event)
    requires forall d {:trigger Covered(relations, d)} :: d in accepted ==> Covered(relations, d)
    requires forall k :: 0 <= k < |relations| ==> !(relations[k].source == e.source && relations[k].target == e.target)
    ensures DistinctReasons(accepted, e.source, e.target) == []
  {
    var parts := DistinctReasons(accepted, e.source, e.target);
    forall d | d in accepted ensures !(d.source == e.source && d.target == e.target) {
      assert Covered(relations, d);
    }
    if parts != [] { GivenReasons(accepted, e.source, e.target, parts[0]); }
  }

  // ----- the graph the relations draw -----

  /** The adjacency lists, filled in the order of the relations. */
  function Adjacency(n: nat, relations: seq<SectionRelation>): Graph
  {
    if relations == [] then seq(n, i => [])
    else
      var r := relations[|relations| - 1];
      var g := Adjacency(n, relations[..|relations| - 1]);
      if r.source < |g| then g[r.source := g[r.source] + [r.target]] else g
  }

  ghost predicate Related(relations: seq<SectionRelation>, x: nat, y: nat)
  {
    exists k :: 0 <= k < |relations| && relations[k].source == x && relations[k].target == y
  }

  lemma {:induction false} AdjacencyMeans(n: nat, relations: seq<SectionRelation>)
    requires forall k :: 0 <= k < |relations| ==> relations[k].source < n && relations[k].target < n
    ensures |Adjacency(n, relations)| == n && WellFormed(Adjacency(n, relations))
    ensures forall x, y :: Edge(Adjacency(n, relations), x, y) <==> Related(relations, x, y)
  {
    var g := Adjacency(n, relations);
    if relations != [] {
      var front, r := relations[..|relations| - 1], relations[|relations| - 1];
      assert forall k :: 0 <= k < |front| ==> front[k] == relations[k];
      AdjacencyMeans(n, front);
      var h := Adjacency(n, front);
      forall x, y ensures Edge(g, x, y) <==> Related(relations, x, y) {
        assert Edge(g, x, y) <==> Edge(h, x, y) || (x == r.source && y == r.target);
        if Related(front, x, y) {
          var k :| 0 <= k < |front| && front[k].source == x && front[k].target == y;
          assert relations[k].source == x;
        }
        if Related(relations, x, y) {
          var k :| 0 <= k < |relations| && relations[k].source == x && relations[k].target == y;
          if k < |front| { assert front[k].source == x; }
        }
      }
    }
  }
}
