/** Inserting marker lines into the entries of one bug-tracker file, last entry first. */
module BugEdits {
  import opened Options
  import opened BugEntries

  /** Put `line` after the body of the entry whose header is line `lineno`. */
  datatype Edit = Edit(lineno: nat, line: Line)

  /** What one edit makes of a file. */
  function InsertMarker(lines: Lines, e: Edit): Lines {
    var start := if e.lineno < |lines| then e.lineno else |lines|;
    var end := start + BodyLength(lines[start..]);
    if Mentions(lines[start..end]) then lines else lines[..end] + [e.line] + lines[end..]
  }

  function InsertAll(lines: Lines, edits: seq<Edit>): Lines
    decreases |edits|
  {
    if edits == [] then lines else InsertAll(InsertMarker(lines, edits[0]), edits[1..])
  }

  // ---- Sorting the edits, last header first ----

  predicate Descending(edits: seq<Edit>) {
    forall i, j :: 0 <= i < j < |edits| ==> edits[i].lineno >= edits[j].lineno
  }

  /** A stable insertion: `e` goes behind the edits that are as far down. */
  function Place(e: Edit, sorted: seq<Edit>): (r: seq<Edit>)
    requires Descending(sorted)
    ensures Descending(r) && forall x :: x in r <==> x == e || x in sorted
  {
    if sorted == [] || sorted[|sorted| - 1].lineno >= e.lineno then sorted + [e]
    else
      var last, front := sorted[|sorted| - 1], sorted[..|sorted| - 1];
      var r := Place(e, front);
      assert sorted == front + [last];
      assert forall i :: 0 <= i < |r| ==> r[i] in r;
      r + [last]
  }

  function SortEdits(edits: seq<Edit>): (r: seq<Edit>)
    ensures Descending(r) && forall x :: x in r <==> x in edits
  {
    if edits == [] then []
    else
      var last, front := edits[|edits| - 1], edits[..|edits| - 1];
      assert edits == front + [last];
      Place(last, SortEdits(front))
  }

  /** The edits for one header, in order. */
  function EditsAt(edits: seq<Edit>, n: nat): seq<Edit> {
    if edits == [] then []
    else EditsAt(edits[..|edits| - 1], n) + (if edits[|edits| - 1].lineno == n then [edits[|edits| - 1]] else [])
  }

  lemma EditsAtSnoc(edits: seq<Edit>, e: Edit, n: nat)
    ensures EditsAt(edits + [e], n) == EditsAt(edits, n) + (if e.lineno == n then [e] else [])
  {
    assert (edits + [e])[..|edits|] == edits;
  }

  lemma {:induction false} PlaceKeeps(e: Edit, sorted: seq<Edit>, n: nat)
    requires Descending(sorted)
    ensures EditsAt(Place(e, sorted), n) == EditsAt(sorted, n) + (if e.lineno == n then [e] else [])
  {
    hide EditsAt, Descending;
    EditsAtSnoc(sorted, e, n);
    if sorted != [] && sorted[|sorted| - 1].lineno < e.lineno {
      var last, front := sorted[|sorted| - 1], sorted[..|sorted| - 1];
      assert Descending(front) by { FrontDescending(sorted); }
      PlaceKeeps(e, front, n);
      EditsAtSnoc(front, last, n);
      EditsAtSnoc(Place(e, front), last, n);
      assert sorted == front + [last];
    }
  }

  lemma FrontDescending(sorted: seq<Edit>)
    requires Descending(sorted) && sorted != []
    ensures Descending(sorted[..|sorted| - 1])
  {
  }

  /** Sorting loses and adds nothing, and keeps the order of edits for the same header. */
  lemma {:induction false} SortKeeps(edits: seq<Edit>, n: nat)
    ensures EditsAt(SortEdits(edits), n) == EditsAt(edits, n)
  {
    if edits != [] {
      var last, front := edits[|edits| - 1], edits[..|edits| - 1];
      SortKeeps(front, n);
      PlaceKeeps(last, SortEdits(front), n);
    }
  }

  /** One edit per entry. */
  predicate Distinct(edits: seq<Edit>) {
    forall i, j :: 0 <= i < j < |edits| ==> edits[i].lineno != edits[j].lineno
  }

  lemma {:induction false} PlaceDistinct(e: Edit, sorted: seq<Edit>)
    requires Descending(sorted) && Distinct(sorted) && forall x :: x in sorted ==> x.lineno != e.lineno
    ensures Distinct(Place(e, sorted))
  {
    if sorted != [] && sorted[|sorted| - 1].lineno < e.lineno {
      var last, front := sorted[|sorted| - 1], sorted[..|sorted| - 1];
      PlaceDistinct(e, front);
      assert forall x :: x in front ==> x.lineno != last.lineno;
      assert forall i :: 0 <= i < |Place(e, front)| ==> Place(e, front)[i] in Place(e, front);
    }
  }

  lemma {:induction false} SortDistinct(edits: seq<Edit>)
    requires Distinct(edits)
    ensures Distinct(SortEdits(edits))
  {
    if edits != [] {
      var last, front := edits[|edits| - 1], edits[..|edits| - 1];
      SortDistinct(front);
      PlaceDistinct(last, SortEdits(front));
    }
  }

  /** The file of `apply_planned_edits` for one group of edits. */
  method ApplyToFile(lines: Lines, edits: seq<Edit>) returns (out: Lines, modified: bool)
    ensures out == InsertAll(lines, SortEdits(edits))
    ensures modified <==> out != lines
  {
    hide SortEdits, InsertMarker;
    out, modified := lines, false;
    var sorted := SortEdits(edits);
    var n := 0;
    while n < |sorted|
      invariant n <= |sorted| && |out| >= |lines|
      invariant InsertAll(out, sorted[n..]) == InsertAll(lines, sorted)
      invariant modified <==> |out| > |lines|
      invariant !modified ==> out == lines
    {
      var e := sorted[n];
      assert sorted[n..][0] == e && sorted[n..][1..] == sorted[n + 1..];
      var i := e.lineno;
      var lastBody := i - 1;
      while i < |out| && !Stops(out[i])
        invariant lastBody == i - 1 && e.lineno <= i && (i > e.lineno ==> i <= |out|)
        invariant forall k :: e.lineno <= k < i ==> !Stops(out[k])
      {
        lastBody := i;
        i := i + 1;
      }
      InsertMarkerIs(out, e, i);
      if !Mentions(Slice(out, e.lineno, i)) {
        out := Slice(out, 0, lastBody + 1) + [e.line] + Slice(out, lastBody + 1, |out|);
        modified := true;
      }
      n := n + 1;
    }
  }

  /** A slice whose bounds may lie beyond the end. */
  function Slice(lines: Lines, from: nat, to: nat): Lines {
    if from <= to <= |lines| then lines[from..to] else if from <= |lines| < to then lines[from..] else []
  }

  lemma InsertMarkerIs(lines: Lines, e: Edit, i: nat)
    requires e.lineno <= i && (i > e.lineno ==> i <= |lines|)
    requires (forall k :: e.lineno <= k < i ==> !Stops(lines[k])) && (i < |lines| ==> Stops(lines[i]))
    ensures InsertMarker(lines, e)
            == if Mentions(Slice(lines, e.lineno, i)) then lines
               else Slice(lines, 0, i) + [e.line] + Slice(lines, i, |lines|)
  {
    hide BodyLength, Mentions, Stops;
    var start := if e.lineno < |lines| then e.lineno else |lines|;
    var end := if i < |lines| then i else |lines|;
    BodyLengthIs(lines[start..], end - start);
    assert lines[start..end] == Slice(lines, e.lineno, i);
    assert lines[..end] == Slice(lines, 0, i) && lines[end..] == Slice(lines, i, |lines|);
  }

  // ---- What the edits do to the entries ----

  /** The lines to insert, by the line of the header they belong to. */
  type Marks = map<nat, Line>

  function Mark(s: Segment, at: nat, marks: Marks): Segment {
    if s.Bug? && at in marks && !Mentions(s.body) then Bug(s.head, s.body + [marks[at]]) else s
  }

  /** Every entry at once gets its line at the end of its body, unless its body has the phrase. */
  function Marked(segs: seq<Segment>, at: nat, marks: Marks): seq<Segment> {
    if segs == [] then [] else [Mark(segs[0], at, marks)] + Marked(segs[1..], at + |TextOf(segs[0])|, marks)
  }

  lemma {:induction false} MarkedConcat(a: seq<Segment>, b: seq<Segment>, at: nat, marks: Marks)
    ensures Marked(a + b, at, marks) == Marked(a, at, marks) + Marked(b, at + |Flatten(a)|, marks)
  {
    hide Mark;
    if a == [] {
      assert a + b == b;
    } else {
      assert (a + b)[1..] == a[1..] + b;
      MarkedConcat(a[1..], b, at + |TextOf(a[0])|, marks);
    }
  }

  /** Only the marks within a stretch of the file matter to it. */
  lemma {:induction false} MarkedAgrees(segs: seq<Segment>, at: nat, m1: Marks, m2: Marks)
    requires forall n :: at <= n < at + |Flatten(segs)| ==> (n in m1 <==> n in m2) && (n in m1 ==> m1[n] == m2[n])
    ensures Marked(segs, at, m1) == Marked(segs, at, m2)
  {
    if segs != [] {
      MarkedAgrees(segs[1..], at + |TextOf(segs[0])|, m1, m2);
    }
  }

  lemma {:induction false} NoMarks(segs: seq<Segment>, at: nat)
    ensures Marked(segs, at, map[]) == segs
  {
    if segs != [] {
      NoMarks(segs[1..], at + |TextOf(segs[0])|);
    }
  }

  predicate ProperMarks(marks: Marks) {
    forall n :: n in marks ==> !Stops(marks[n])
  }

  /** Marking leaves the division into entries and gaps as it is. */
  lemma {:induction false} MarkedSegmented(segs: seq<Segment>, at: nat, marks: Marks)
    requires Segmented(segs) && ProperMarks(marks)
    ensures Segmented(Marked(segs, at, marks)) && |Marked(segs, at, marks)| == |segs|
    ensures segs != [] ==> TextOf(Marked(segs, at, marks)[0])[0] == TextOf(segs[0])[0]
  {
    hide Segmented, Marked, ProperMarks, Stops, Mark, ValidSegment, Flatten;
    if segs == [] {
      NothingMarked(at, marks);
    } else {
      var s, rest := segs[0], segs[1..];
      assert segs == [s] + rest;
      SegmentedCons(s, rest);
      MarkedSegmented(rest, at + |TextOf(s)|, marks);
      ValidMark(s, at, marks);
      MarkedStep(segs, at, marks);
      SegmentedCons(Mark(s, at, marks), Marked(rest, at + |TextOf(s)|, marks));
    }
  }

  lemma NothingMarked(at: nat, marks: Marks)
    ensures Marked([], at, marks) == [] && Segmented([])
  {
  }

  lemma MarkedStep(segs: seq<Segment>, at: nat, marks: Marks)
    ensures Marked(segs, at, marks)
            == if segs == [] then [] else [Mark(segs[0], at, marks)] + Marked(segs[1..], at + |TextOf(segs[0])|, marks)
  {
  }

  /** The line of the header of segment `k`. */
  function LineOf(segs: seq<Segment>, k: nat): nat
    requires k <= |segs|
  {
    1 + |Flatten(segs[..k])|
  }

  predicate IsHeader(segs: seq<Segment>, lineno: nat) {
    exists k :: 0 <= k < |segs| && segs[k].Bug? && LineOf(segs, k) == lineno
  }

  /** One edit, made where everything further down has been done already. */
  lemma InsertIsMark(segs: seq<Segment>, k: nat, marks: Marks, e: Edit)
    requires Segmented(segs) && ProperMarks(marks) && !Stops(e.line)
    requires k < |segs| && segs[k].Bug? && e.lineno == LineOf(segs, k)
    requires forall n :: n in marks ==> n > e.lineno
    ensures InsertMarker(Flatten(Marked(segs, 1, marks)), e) == Flatten(Marked(segs, 1, marks[e.lineno := e.line]))
  {
    hide Segmented, Marked, InsertMarker, Stops, Flatten, TextOf;
    var a, s, c := segs[..k], segs[k], segs[k + 1..];
    var marks' := marks[e.lineno := e.line];
    var after := e.lineno + |TextOf(s)|;
    MarkedSplit(segs, k, marks);
    MarkedSplit(segs, k, marks');
    MarkedAgrees(a, 1, marks, map[]);
    MarkedAgrees(a, 1, marks', map[]);
    NoMarks(a, 1);
    TextNotEmpty(s);
    MarkedAgrees(c, after, marks, marks');
    var rest := Flatten(Marked(c, after, marks));
    RestStops(segs, k, marks);
    InsertAfterBody(Flatten(a), s, rest, e);
  }

  lemma MarkedSplit(segs: seq<Segment>, k: nat, marks: Marks)
    requires k < |segs|
    ensures var at := LineOf(segs, k);
            Flatten(Marked(segs, 1, marks))
            == Flatten(Marked(segs[..k], 1, marks)) + TextOf(Mark(segs[k], at, marks))
               + Flatten(Marked(segs[k + 1..], at + |TextOf(segs[k])|, marks))
  {
    hide Mark, Marked, Flatten;
    var a, b, at := segs[..k], segs[k..], LineOf(segs, k);
    assert segs == a + b;
    MarkedConcat(a, b, 1, marks);
    assert b[0] == segs[k] && b[1..] == segs[k + 1..];
    MarkedStep(b, at, marks);
    var m, rest := Mark(segs[k], at, marks), Marked(segs[k + 1..], at + |TextOf(segs[k])|, marks);
    FlattenConcat(Marked(a, 1, marks), [m] + rest);
    FlattenCons(m, rest);
  }

  lemma FlattenCons(s: Segment, rest: seq<Segment>)
    ensures Flatten([s] + rest) == TextOf(s) + Flatten(rest)
  {
    assert ([s] + rest)[1..] == rest;
  }

  lemma RestStops(segs: seq<Segment>, k: nat, marks: Marks)
    requires Segmented(segs) && ProperMarks(marks) && k < |segs| && segs[k].Bug?
    ensures ValidSegment(segs[k])
    ensures var rest := Flatten(Marked(segs[k + 1..], LineOf(segs, k) + |TextOf(segs[k])|, marks));
            rest != [] ==> Stops(rest[0])
  {
    hide Marked, ProperMarks, Stops, ValidSegment;
    var c := segs[k + 1..];
    var at := LineOf(segs, k) + |TextOf(segs[k])|;
    MarkedSegmented(c, at, marks);
    if c == [] {
      MarkedStep(c, at, marks);
    } else {
      var m := Marked(c, at, marks);
      assert Flatten(m) == TextOf(m[0]) + Flatten(m[1..]);
      assert c[0] == segs[k + 1];
    }
  }

  lemma InsertAfterBody(before: Lines, s: Segment, rest: Lines, e: Edit)
    requires ValidSegment(s) && s.Bug? && (rest != [] ==> Stops(rest[0])) && e.lineno == |before| + 1
    ensures InsertMarker(before + TextOf(s) + rest, e)
            == before + TextOf(Mark(s, e.lineno, map[e.lineno := e.line])) + rest
  {
    hide InsertMarker, Mentions, Stops;
    var head := before + [s.head];
    InsertBehind(head, s.body, rest, e);
    assert before + TextOf(s) == head + s.body;
    assert before + ([s.head] + (s.body + [e.line])) == head + s.body + [e.line];
  }

  lemma InsertBehind(head: Lines, body: Lines, rest: Lines, e: Edit)
    requires e.lineno == |head| && (forall i :: 0 <= i < |body| ==> !Stops(body[i])) && (rest != [] ==> Stops(rest[0]))
    ensures InsertMarker(head + body + rest, e)
            == if Mentions(body) then head + body + rest else head + body + [e.line] + rest
  {
    hide BodyLength, Mentions, Stops;
    var lines := head + body + rest;
    assert lines[|head|..] == body + rest;
    BodyLengthIs(body + rest, |body|);
    assert lines[|head|..|head| + |body|] == body;
    assert lines[..|head| + |body|] == head + body && lines[|head| + |body|..] == rest;
    if |head| == |lines| {
      assert lines[|lines|..] == [] && body + rest == [];
    }
  }

  /** Edits of different entries, last first. */
  predicate InOrder(segs: seq<Segment>, edits: seq<Edit>) {
    && (forall i :: 0 <= i < |edits| ==> IsHeader(segs, edits[i].lineno) && !Stops(edits[i].line))
    && (forall i, j :: 0 <= i < j < |edits| ==> edits[i].lineno > edits[j].lineno)
  }

  function MarksOf(edits: seq<Edit>, marks: Marks): Marks {
    if edits == [] then marks else MarksOf(edits[1..], marks[edits[0].lineno := edits[0].line])
  }

  lemma {:induction false} InsertAllFrom(segs: seq<Segment>, edits: seq<Edit>, marks: Marks)
    requires Segmented(segs) && ProperMarks(marks) && InOrder(segs, edits)
    requires forall n, i :: n in marks && 0 <= i < |edits| ==> n > edits[i].lineno
    ensures InsertAll(Flatten(Marked(segs, 1, marks)), edits) == Flatten(Marked(segs, 1, MarksOf(edits, marks)))
  {
    hide Segmented, Marked, InsertMarker, Stops;
    if edits != [] {
      var e := edits[0];
      var k :| 0 <= k < |segs| && segs[k].Bug? && LineOf(segs, k) == e.lineno;
      InsertIsMark(segs, k, marks, e);
      InsertAllFrom(segs, edits[1..], marks[e.lineno := e.line]);
    }
  }

  lemma {:induction false} MarksAre(edits: seq<Edit>, marks: Marks)
    requires Distinct(edits)
    ensures forall e :: e in edits ==> e.lineno in MarksOf(edits, marks) && MarksOf(edits, marks)[e.lineno] == e.line
    ensures forall n :: (forall e :: e in edits ==> e.lineno != n) ==>
                        && (n in MarksOf(edits, marks) <==> n in marks)
                        && (n in marks ==> MarksOf(edits, marks)[n] == marks[n])
    decreases |edits|
  {
    if edits != [] {
      var e, rest := edits[0], edits[1..];
      MarksAre(rest, marks[e.lineno := e.line]);
      assert edits == [e] + rest;
      assert forall x :: x in rest ==> x.lineno != e.lineno;
    }
  }

  /** All edits of one group together: every named entry gets its line at the end of its
      body, nothing else moves, and the file divides into entries as before. */
  lemma EditsMark(lines: Lines, edits: seq<Edit>) returns (marks: Marks)
    requires Distinct(edits)
    requires forall e :: e in edits ==> IsHeader(Segments(lines), e.lineno) && !Stops(e.line)
    ensures InsertAll(lines, SortEdits(edits)) == Flatten(Marked(Segments(lines), 1, marks))
    ensures Segments(InsertAll(lines, SortEdits(edits))) == Marked(Segments(lines), 1, marks)
    ensures forall e :: e in edits ==> e.lineno in marks && marks[e.lineno] == e.line
    ensures forall n :: n in marks ==> exists e :: e in edits && e.lineno == n
  {
    hide Segments, Marked, Flatten, SortEdits, IsHeader, Stops, InsertAll, MarksOf, Segmented;
    var segs, sorted := Segments(lines), SortEdits(edits);
    SegmentsAre(lines);
    SortDistinct(edits);
    NoMarks(segs, 1);
    assert forall i :: 0 <= i < |sorted| ==> sorted[i] in sorted;
    InsertAllFrom(segs, sorted, map[]);
    MarksAre(sorted, map[]);
    marks := MarksOf(sorted, map[]);
    MarkedSegmented(segs, 1, marks);
    SegmentsUnique(Marked(segs, 1, marks));
  }

  // ---- Entries before and after ----

  function MarkedBody(e: Entry, marks: Marks): Lines {
    if e.lineno in marks && !Mentions(e.body) then e.body + [marks[e.lineno]] else e.body
  }

  lemma {:induction false} MarkedEntries(segs: seq<Segment>, at: nat, at': nat, marks: Marks)
    requires forall i :: 0 <= i < |segs| ==> ValidSegment(segs[i])
    ensures var a, b := EntriesFrom(segs, at), EntriesFrom(Marked(segs, at, marks), at');
            && |b| == |a|
            && forall i :: 0 <= i < |a| ==> b[i].header == a[i].header && b[i].body == MarkedBody(a[i], marks)
  {
    hide Mentions, EntriesFrom, Marked, ValidSegment;
    MarkedStep(segs, at, marks);
    if segs == [] {
      NoEntriesAt(at, at');
    } else {
      var s, m, next := segs[0], Mark(segs[0], at, marks), at + |TextOf(segs[0])|;
      var rest := segs[1..];
      assert segs == [s] + rest && forall i :: 0 <= i < |rest| ==> rest[i] == segs[i + 1];
      MarkedEntries(rest, next, at' + |TextOf(m)|, marks);
      ValidMark(s, at, marks);
      EntriesCons(s, rest, at);
      EntriesCons(m, Marked(rest, next, marks), at');
    }
  }

  lemma ValidMark(s: Segment, at: nat, marks: Marks)
    requires ValidSegment(s)
    ensures var m := Mark(s, at, marks);
            && m.Bug? == s.Bug? && (s.Bug? ==> m.head == s.head && m.head.header.Some?)
            && TextOf(m)[0] == TextOf(s)[0] && (ProperMarks(marks) ==> ValidSegment(m))
  {
  }

  lemma NoEntriesAt(at: nat, at': nat)
    ensures EntriesFrom([], at) == EntriesFrom([], at') == []
  {
  }

  predicate Ordered(at: nat, a: seq<Entry>) {
    && (forall i :: 0 <= i < |a| ==> at <= a[i].lineno)
    && (forall i, j :: 0 <= i < j < |a| ==> a[i].lineno < a[j].lineno)
  }

  lemma OrderedCons(e: Entry, next: nat, a: seq<Entry>)
    requires Ordered(next, a) && e.lineno < next
    ensures Ordered(e.lineno, [e] + a) && Ordered(e.lineno, a)
  {
  }

  /** Entries come in the order of their headers. */
  lemma {:induction false} EntryLines(segs: seq<Segment>, at: nat)
    ensures Ordered(at, EntriesFrom(segs, at))
  {
    hide Ordered, TextOf;
    if segs == [] {
      NothingOrdered(at);
    } else {
      var s, next := segs[0], at + |TextOf(segs[0])|;
      var rest := EntriesFrom(segs[1..], next);
      EntryLines(segs[1..], next);
      TextNotEmpty(s);
      var header := if s.Bug? && s.head.header.Some? then s.head.header.value else Header("", false);
      OrderedCons(Entry(at, header, if s.Bug? then s.body else []), next, rest);
      assert [] + rest == rest;
    }
  }

  lemma NothingOrdered(at: nat)
    ensures Ordered(at, EntriesFrom([], at))
  {
  }

  lemma TextNotEmpty(s: Segment)
    ensures |TextOf(s)| > 0
  {
  }

  lemma {:induction false} EntryIsHeader(segs: seq<Segment>, at: nat, i: nat) returns (k: nat)
    requires i < |EntriesFrom(segs, at)|
    ensures k < |segs| && segs[k].Bug? && EntriesFrom(segs, at)[i].lineno == at + |Flatten(segs[..k])|
  {
    hide TextOf;
    var s, rest := segs[0], segs[1..];
    var first := if s.Bug? && s.head.header.Some? then 1 else 0;
    if i < first {
      k := 0;
    } else {
      var j := EntryIsHeader(rest, at + |TextOf(s)|, i - first);
      k := j + 1;
      assert segs[..k][1..] == rest[..j];
    }
  }

  /** Marking only entries that have the phrase already changes nothing. */
  lemma {:induction false} MarkedNothing(segs: seq<Segment>, at: nat, marks: Marks)
    requires forall i :: 0 <= i < |EntriesFrom(segs, at)| && EntriesFrom(segs, at)[i].lineno in marks ==>
                         Mentions(EntriesFrom(segs, at)[i].body)
    requires forall i :: 0 <= i < |segs| ==> ValidSegment(segs[i])
    ensures Marked(segs, at, marks) == segs
  {
    hide Mentions, EntriesFrom, Marked, ValidSegment;
    MarkedStep(segs, at, marks);
    if segs != [] {
      var s, rest, next := segs[0], segs[1..], at + |TextOf(segs[0])|;
      ValidMark(s, at, marks);
      assert segs == [s] + rest && forall i :: 0 <= i < |rest| ==> rest[i] == segs[i + 1];
      EntriesCons(s, rest, at);
      var a, b := EntriesFrom(segs, at), EntriesFrom(rest, next);
      if s.Bug? {
        assert a[0].lineno == at && a[0].body == s.body;
        assert forall i :: 0 <= i < |b| ==> b[i] == a[i + 1];
      } else {
        assert a == b;
      }
      MarkedNothing(rest, next, marks);
    }
  }
}
