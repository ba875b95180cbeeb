/** Applying the same edits twice, without a scan in between. */
module BugRepeats {
  import opened Options
  import opened BugEntries
  import opened BugEdits

  /** The edits name headers, and their lines are marker lines. */
  predicate MarkHeaders(segs: seq<Segment>, edits: seq<Edit>) {
    forall e :: e in edits ==> IsHeader(segs, e.lineno) && !Stops(e.line) && e.line.mentions
  }

  /** The entry that the edit names does not have the phrase. */
  predicate TakesEffect(segs: seq<Segment>, e: Edit) {
    exists k :: 0 <= k < |segs| && segs[k].Bug? && LineOf(segs, k) == e.lineno && !Mentions(segs[k].body)
  }

  /** No edit that takes effect has another one below it, whose header it would move. */
  predicate NothingMoves(segs: seq<Segment>, edits: seq<Edit>) {
    forall d, e :: d in edits && e in edits && d.lineno < e.lineno ==> !TakesEffect(segs, d)
  }

  /** Headers begin with `- [` at the start of their lines. */
  predicate Outdented(segs: seq<Segment>) {
    forall k :: 0 <= k < |segs| && segs[k].Bug? ==> Stops(segs[k].head)
  }

  // ---- Where nothing moves ----

  lemma {:induction false} MarkedIdle(segs: seq<Segment>, at: nat, marks: Marks)
    requires forall k :: 0 <= k < |segs| && segs[k].Bug? && at + |Flatten(segs[..k])| in marks ==>
               Mentions(segs[k].body)
    ensures Marked(segs, at, marks) == segs
  {
    hide Mentions, TextOf, Marked;
    MarkedStep(segs, at, marks);
    if segs != [] {
      var rest, next := segs[1..], at + |TextOf(segs[0])|;
      assert segs[..0] == [];
      forall k | 0 <= k < |rest| ensures next + |Flatten(rest[..k])| == at + |Flatten(segs[..k + 1])| {
        assert segs[..k + 1][1..] == rest[..k];
      }
      assert forall k :: 0 <= k < |rest| ==> rest[k] == segs[k + 1];
      MarkedIdle(rest, next, marks);
      assert segs == [segs[0]] + rest;
    }
  }

  /** An edit that is repeated where nothing above its header has changed. */
  lemma MarkedEditIdle(segs: seq<Segment>, k: nat, marks: Marks, e: Edit)
    requires Segmented(segs) && ProperMarks(marks) && k < |segs| && segs[k].Bug? && e.lineno == LineOf(segs, k)
    requires e.lineno in marks && marks[e.lineno].mentions && Marked(segs[..k], 1, marks) == segs[..k]
    ensures InsertMarker(Flatten(Marked(segs, 1, marks)), e) == Flatten(Marked(segs, 1, marks))
  {
    hide Segmented, Marked, InsertMarker, Stops, Flatten;
    MarkedSplit(segs, k, marks);
    RestStops(segs, k, marks);
    ValidMark(segs[k], e.lineno, marks);
    var m := Mark(segs[k], e.lineno, marks);
    var rest := Flatten(Marked(segs[k + 1..], e.lineno + |TextOf(segs[k])|, marks));
    assert m.body != segs[k].body ==> m.body[|segs[k].body|].mentions;
    InsertAfterBody(Flatten(segs[..k]), m, rest, e);
  }

  lemma {:induction false} InsertAllIdle(lines: Lines, edits: seq<Edit>)
    requires forall e :: e in edits ==> InsertMarker(lines, e) == lines
    ensures InsertAll(lines, edits) == lines
    decreases |edits|
  {
    hide InsertMarker;
    if edits != [] {
      assert edits[0] in edits && forall e :: e in edits[1..] ==> e in edits;
      InsertAllIdle(lines, edits[1..]);
    }
  }

  // ---- Where something moves ----

  lemma {:induction false} InsertAllConcat(lines: Lines, a: seq<Edit>, b: seq<Edit>)
    ensures InsertAll(lines, a + b) == InsertAll(InsertAll(lines, a), b)
    decreases |a|
  {
    hide InsertMarker;
    if a == [] {
      assert a + b == b;
    } else {
      assert (a + b)[1..] == a[1..] + b;
      InsertAllConcat(InsertMarker(lines, a[0]), a[1..], b);
    }
  }

  /** Edits further down leave a line where it is. */
  lemma {:induction false} InsertAllBelow(lines: Lines, edits: seq<Edit>, n: nat)
    requires n < |lines| && forall e :: e in edits ==> e.lineno > n
    ensures |InsertAll(lines, edits)| >= |lines| && InsertAll(lines, edits)[n] == lines[n]
    decreases |edits|
  {
    if edits != [] {
      assert edits[0] in edits && forall e :: e in edits[1..] ==> e in edits;
      InsertAllBelow(InsertMarker(lines, edits[0]), edits[1..], n);
    }
  }

  lemma {:induction false} InsertAllGrows(lines: Lines, edits: seq<Edit>)
    ensures |InsertAll(lines, edits)| >= |lines|
    decreases |edits|
  {
    if edits != [] {
      InsertAllGrows(InsertMarker(lines, edits[0]), edits[1..]);
    }
  }

  /** Of edits that are repeated, one comes to stand before a line that ends bodies. */
  lemma OneInsertsAgain(once: Lines, sorted: seq<Edit>, i: nat)
    requires i < |sorted| && sorted[i].lineno < |once| && Stops(once[sorted[i].lineno])
    requires forall j, k :: 0 <= j < k < |sorted| ==> sorted[j].lineno > sorted[k].lineno
    ensures InsertAll(once, sorted) != once
  {
    var e, n := sorted[i], sorted[i].lineno;
    assert sorted == sorted[..i] + ([e] + sorted[i + 1..]);
    InsertAllConcat(once, sorted[..i], [e] + sorted[i + 1..]);
    InsertAllBelow(once, sorted[..i], n);
    var was := InsertAll(once, sorted[..i]);
    assert was[n..][0] == was[n] && was[n..n] == [];
    assert |InsertMarker(was, e)| == |was| + 1;
    assert ([e] + sorted[i + 1..])[1..] == sorted[i + 1..];
    InsertAllGrows(InsertMarker(was, e), sorted[i + 1..]);
  }

  lemma AboveIdle(segs: seq<Segment>, i: nat, marks: Marks)
    requires i <= |segs|
    requires forall j :: 0 <= j < i && segs[j].Bug? && LineOf(segs, j) in marks ==> Mentions(segs[j].body)
    ensures Marked(segs[..i], 1, marks) == segs[..i]
  {
    hide Mentions, Flatten, Marked;
    forall j | 0 <= j < i ensures segs[..i][..j] == segs[..j] {}
    MarkedIdle(segs[..i], 1, marks);
  }

  lemma BetweenIdle(segs: seq<Segment>, i: nat, k: nat, marks: Marks)
    requires i < k <= |segs|
    requires forall j :: i < j < k && segs[j].Bug? && LineOf(segs, j) in marks ==> Mentions(segs[j].body)
    ensures Marked(segs[i + 1..k], LineOf(segs, i) + |TextOf(segs[i])|, marks) == segs[i + 1..k]
  {
    hide Mentions, Flatten, Marked;
    var c, after := segs[i + 1..k], LineOf(segs, i) + |TextOf(segs[i])|;
    forall j | 0 <= j < |c| ensures after + |Flatten(c[..j])| == LineOf(segs, i + 1 + j) && c[j] == segs[i + 1 + j] {
      assert c[..j] == segs[i + 1..i + 1 + j];
      LinesBetween(segs, i, i + 1 + j);
    }
    MarkedIdle(c, after, marks);
  }

  lemma LinesBetween(segs: seq<Segment>, i: nat, k: nat)
    requires i < k <= |segs|
    ensures LineOf(segs, k) == LineOf(segs, i) + |TextOf(segs[i])| + |Flatten(segs[i + 1..k])|
  {
    hide Flatten, TextOf;
    assert segs[..k] == segs[..i] + ([segs[i]] + segs[i + 1..k]);
    FlattenConcat(segs[..i], [segs[i]] + segs[i + 1..k]);
    FlattenCons(segs[i], segs[i + 1..k]);
  }

  lemma MarkGrows(s: Segment, at: nat, marks: Marks)
    requires s.Bug? && at in marks && !Mentions(s.body)
    ensures |TextOf(Mark(s, at, marks))| == |TextOf(s)| + 1
  {
  }

  /** Between two headers next to each other among the edits, only the upper one grows. */
  lemma UpperMoves(segs: seq<Segment>, marks: Marks, i: nat, k: nat)
    requires i < k < |segs| && segs[i].Bug? && LineOf(segs, i) in marks && !Mentions(segs[i].body)
    requires forall j :: 0 <= j < k && j != i && segs[j].Bug? && LineOf(segs, j) in marks ==> Mentions(segs[j].body)
    ensures |Flatten(Marked(segs[..k], 1, marks))| == LineOf(segs, k)
  {
    hide Mentions, Flatten, Marked, TextOf, Mark;
    var top := segs[..k];
    assert top[..i] == segs[..i] && top[i + 1..] == segs[i + 1..k] && top[i] == segs[i];
    MarkGrows(segs[i], LineOf(segs, i), marks);
    MarkedSplit(top, i, marks);
    AboveIdle(segs, i, marks);
    BetweenIdle(segs, i, k, marks);
    LinesBetween(segs, i, k);
  }

  lemma {:induction false} LinesAscend(segs: seq<Segment>, i: nat, k: nat)
    requires i <= k <= |segs|
    ensures LineOf(segs, i) <= LineOf(segs, k)
  {
    assert segs[..k] == segs[..i] + segs[i..k];
    FlattenConcat(segs[..i], segs[i..k]);
  }

  /** The upmost edit that takes effect. */
  lemma {:induction false} LastEffective(segs: seq<Segment>, sorted: seq<Edit>, i: nat) returns (j: nat)
    requires i < |sorted| && TakesEffect(segs, sorted[i])
    ensures i <= j < |sorted| && TakesEffect(segs, sorted[j])
    ensures forall k :: j < k < |sorted| ==> !TakesEffect(segs, sorted[k])
    decreases |sorted| - i
  {
    hide TakesEffect;
    j := i;
    if k :| i < k < |sorted| && TakesEffect(segs, sorted[k]) {
      j := LastEffective(segs, sorted, k);
    }
  }

  // ---- Both ----

  /** The edits of one file, the lowest first. */
  ghost predicate Arranged(edits: seq<Edit>, sorted: seq<Edit>) {
    && (forall e :: e in sorted <==> e in edits)
    && (forall j, k :: 0 <= j < k < |sorted| ==> sorted[j].lineno > sorted[k].lineno)
  }

  predicate MarksFor(edits: seq<Edit>, marks: Marks) {
    && (forall e :: e in edits ==> e.lineno in marks && marks[e.lineno] == e.line)
    && (forall n :: n in marks ==> exists e :: e in edits && e.lineno == n)
  }

  lemma RepeatIdle(segs: seq<Segment>, edits: seq<Edit>, sorted: seq<Edit>, marks: Marks)
    requires Segmented(segs) && MarkHeaders(segs, edits) && Arranged(edits, sorted) && MarksFor(edits, marks)
    requires NothingMoves(segs, edits)
    ensures var once := Flatten(Marked(segs, 1, marks)); InsertAll(once, sorted) == once
  {
    hide Segmented, Marked, InsertMarker, Flatten, Mentions, Stops;
    var once := Flatten(Marked(segs, 1, marks));
    forall e | e in sorted ensures InsertMarker(once, e) == once {
      var k :| 0 <= k < |segs| && segs[k].Bug? && LineOf(segs, k) == e.lineno;
      forall j | 0 <= j < k && segs[j].Bug? && LineOf(segs, j) in marks ensures Mentions(segs[j].body) {
        HeadersAscend(segs, j, k);
        var d :| d in edits && d.lineno == LineOf(segs, j);
        assert !TakesEffect(segs, d);
      }
      AboveIdle(segs, k, marks);
      MarkedEditIdle(segs, k, marks, e);
    }
    InsertAllIdle(once, sorted);
  }

  lemma HeadersAscend(segs: seq<Segment>, j: nat, k: nat)
    requires j < k <= |segs|
    ensures LineOf(segs, j) < LineOf(segs, k)
  {
    assert segs[..j + 1] == segs[..j] + [segs[j]];
    FlattenConcat(segs[..j], [segs[j]]);
    FlattenCons(segs[j], []);
    LinesAscend(segs, j + 1, k);
  }

  lemma RepeatMoves(segs: seq<Segment>, edits: seq<Edit>, sorted: seq<Edit>, marks: Marks)
    requires Segmented(segs) && MarkHeaders(segs, edits) && Arranged(edits, sorted) && MarksFor(edits, marks)
    requires Outdented(segs)
    requires ProperMarks(marks) && !NothingMoves(segs, edits)
    ensures var once := Flatten(Marked(segs, 1, marks)); InsertAll(once, sorted) != once
  {
    hide Segmented, Marked, InsertAll, Flatten, IsHeader, Outdented, ProperMarks, Stops, Arranged, MarksFor;
    hide NothingMoves, MarkHeaders, TakesEffect;
    var m := UpmostMover(segs, edits, sorted);
    MovedHeaderStops(segs, edits, sorted, marks, m);
    OneInsertsAgain(Flatten(Marked(segs, 1, marks)), sorted, m - 1);
  }

  lemma UpmostMover(segs: seq<Segment>, edits: seq<Edit>, sorted: seq<Edit>) returns (m: nat)
    requires Arranged(edits, sorted) && MarkHeaders(segs, edits) && !NothingMoves(segs, edits)
    ensures 0 < m < |sorted| && IsHeader(segs, sorted[m - 1].lineno) && TakesEffect(segs, sorted[m])
    ensures forall j :: m < j < |sorted| ==> !TakesEffect(segs, sorted[j])
    ensures forall j, k :: 0 <= j < k < |sorted| ==> sorted[j].lineno > sorted[k].lineno
  {
    hide TakesEffect, IsHeader, Stops;
    var d, e :| d in edits && e in edits && d.lineno < e.lineno && TakesEffect(segs, d);
    var j :| 0 <= j < |sorted| && sorted[j] == d;
    var i :| 0 <= i < |sorted| && sorted[i] == e;
    m := LastEffective(segs, sorted, j);
    assert i < j;
    assert sorted[m - 1] in sorted;
  }

  /** Next below the upmost edit that takes effect, the line number of an edit is that of the
      moved header itself. */
  lemma MovedHeaderStops(segs: seq<Segment>, edits: seq<Edit>, sorted: seq<Edit>, marks: Marks, m: nat)
    requires Segmented(segs) && Arranged(edits, sorted) && MarksFor(edits, marks)
    requires Outdented(segs) && ProperMarks(marks)
    requires 0 < m < |sorted| && IsHeader(segs, sorted[m - 1].lineno) && TakesEffect(segs, sorted[m])
    requires forall j :: m < j < |sorted| ==> !TakesEffect(segs, sorted[j])
    ensures var n, once := sorted[m - 1].lineno, Flatten(Marked(segs, 1, marks)); n < |once| && Stops(once[n])
  {
    hide Segmented, Marked, Flatten, Mentions, Stops, LineOf, ProperMarks;
    var i :| 0 <= i < |segs| && segs[i].Bug? && LineOf(segs, i) == sorted[m].lineno && !Mentions(segs[i].body);
    var k :| 0 <= k < |segs| && segs[k].Bug? && LineOf(segs, k) == sorted[m - 1].lineno;
    assert sorted[m] in sorted;
    if k <= i {
      LinesAscend(segs, k, i);
    }
    forall n | 0 <= n < k && n != i && segs[n].Bug? && LineOf(segs, n) in marks ensures Mentions(segs[n].body) {
      OthersIdle(segs, edits, sorted, marks, m, i, k, n);
    }
    UpperMoves(segs, marks, i, k);
    HeaderMoved(segs, marks, k);
  }

  lemma HeaderMoved(segs: seq<Segment>, marks: Marks, k: nat)
    requires Segmented(segs) && ProperMarks(marks) && k < |segs| && segs[k].Bug?
    ensures var n, once := |Flatten(Marked(segs[..k], 1, marks))|, Flatten(Marked(segs, 1, marks));
            n < |once| && once[n] == segs[k].head
  {
    hide Marked, Flatten, ProperMarks, Mark, Stops;
    MarkedSplit(segs, k, marks);
    ValidMark(segs[k], LineOf(segs, k), marks);
  }

  lemma OthersIdle(segs: seq<Segment>, edits: seq<Edit>, sorted: seq<Edit>, marks: Marks,
                   m: nat, i: nat, k: nat, n: nat)
    requires Arranged(edits, sorted) && MarksFor(edits, marks)
    requires 0 < m < |sorted| && n < k < |segs| && i < |segs| && n != i
    requires LineOf(segs, i) == sorted[m].lineno && LineOf(segs, k) == sorted[m - 1].lineno
    requires forall j :: m < j < |sorted| ==> !TakesEffect(segs, sorted[j])
    requires segs[n].Bug? && LineOf(segs, n) in marks
    ensures Mentions(segs[n].body)
  {
    hide Mentions, Flatten;
    HeadersAscend(segs, n, k);
    if n < i {
      HeadersAscend(segs, n, i);
    } else {
      HeadersAscend(segs, i, n);
    }
    var d :| d in edits && d.lineno == LineOf(segs, n);
    var j :| 0 <= j < |sorted| && sorted[j] == d;
    assert j > m;
    assert !TakesEffect(segs, sorted[j]);
  }

  /** Applied again, the same edits change nothing where no edit that takes effect has another
      one below it; and where no header is indented, only there. */
  lemma RepeatedEditsIff(lines: Lines, edits: seq<Edit>)
    requires Distinct(edits) && MarkHeaders(Segments(lines), edits)
    ensures var sorted, segs := SortEdits(edits), Segments(lines);
            var once := InsertAll(lines, sorted);
            && (NothingMoves(segs, edits) ==> InsertAll(once, sorted) == once)
            && (Outdented(segs) ==> (InsertAll(once, sorted) == once <==> NothingMoves(segs, edits)))
  {
    hide Segments, Segmented, Marked, InsertAll, Flatten, NothingMoves, Outdented, IsHeader, Stops;
    var sorted, segs := SortEdits(edits), Segments(lines);
    SegmentsAre(lines);
    SortDistinct(edits);
    var marks := EditsMark(lines, edits);
    if NothingMoves(segs, edits) {
      RepeatIdle(segs, edits, sorted, marks);
    } else if Outdented(segs) {
      RepeatMoves(segs, edits, sorted, marks);
    }
  }

  /** Two entries of one line each: a second application inserts a line again. */
  lemma InsertsAgain(first: Line, second: Line, marker: Line)
    requires first.header.Some? && first.item && second.header.Some? && second.item
    requires !Stops(marker) && marker.mentions
    ensures var sorted := SortEdits([Edit(1, marker), Edit(2, marker)]);
            var once := InsertAll([first, second], sorted);
            InsertAll(once, sorted) != once
  {
    hide Segments, InsertAll, SortEdits, LineOf;
    var edits := [Edit(1, marker), Edit(2, marker)];
    var segs := [Bug(first, []), Bug(second, [])];
    TwoEntries(first, second);
    assert segs[0].Bug? && segs[1].Bug? && !Mentions(segs[0].body);
    assert TakesEffect(segs, edits[0]);
    assert edits[0] in edits && edits[1] in edits;
    RepeatedEditsIff([first, second], edits);
  }

  lemma TwoEntries(first: Line, second: Line)
    requires first.header.Some? && first.item && second.header.Some? && second.item
    ensures var segs := [Bug(first, []), Bug(second, [])];
            Segments([first, second]) == segs && LineOf(segs, 0) == 1 && LineOf(segs, 1) == 2
  {
    hide Segments;
    var segs := [Bug(first, []), Bug(second, [])];
    FlattenCons(segs[0], []);
    FlattenCons(segs[1], []);
    FlattenCons(segs[0], [segs[1]]);
    assert segs == [segs[0]] + [segs[1]] && [segs[0]] + [] == segs[..1] && [segs[1]] + [] == [segs[1]];
    assert Flatten(segs) == [first, second];
    SegmentsUnique(segs);
  }
}
