/** Bug-tracker sections: entries, their lifecycle markers, and the insertion of a marker
    line into entries. */
module BugEntries {
  import opened Options

  datatype Header = Header(id: string, fixed: bool)

  /** A line by what the regular expressions find in it: white space only; `- [` at its
      start; a bug header; a line-start `Superseded by:` in any case, with the target after
      it; the literal phrase `Superseded by:` anywhere; the two blocker markers. */
  datatype Line = Line(blank: bool, item: bool, header: Option<Header>, superseded: bool, target: Option<string>,
                       mentions: bool, blocked: bool, blockedBy: bool)

  type Lines = seq<Line>

  /** A blank line and a list item end the body of an entry. */
  predicate Stops(l: Line) {
    l.blank || l.item
  }

  // ---- Lifecycle markers ----

  datatype Exclusion = Actionable | SupersededByPlan | Blocked | BlockedByTag

  function ClassifyBugExclusion(body: Lines): Exclusion {
    if exists i :: 0 <= i < |body| && body[i].superseded then SupersededByPlan
    else if exists i :: 0 <= i < |body| && body[i].blocked then Blocked
    else if exists i :: 0 <= i < |body| && body[i].blockedBy then BlockedByTag
    else Actionable
  }

  /** The target on the first marker line that has one. */
  function ExtractSupersedeTarget(body: Lines): Option<string> {
    if body == [] then None
    else if body[0].superseded && body[0].target.Some? then body[0].target
    else ExtractSupersedeTarget(body[1..])
  }

  predicate Mentions(body: Lines) {
    exists i :: 0 <= i < |body| && body[i].mentions
  }

  // ---- Segments ----

  /** A line outside entries, or a header with the body lines it collects. */
  datatype Segment = Gap(line: Line) | Bug(head: Line, body: Lines)

  function TextOf(s: Segment): (t: Lines) {
    match s
    case Gap(line) => [line]
    case Bug(head, body) => [head] + body
  }

  function Flatten(segs: seq<Segment>): Lines {
    if segs == [] then [] else TextOf(segs[0]) + Flatten(segs[1..])
  }

  /** How many of the first lines belong to a body. */
  function BodyLength(lines: Lines): (n: nat)
    ensures n <= |lines| && (forall i :: 0 <= i < n ==> !Stops(lines[i]))
    ensures n < |lines| ==> Stops(lines[n])
  {
    if lines == [] || Stops(lines[0]) then 0 else 1 + BodyLength(lines[1..])
  }

  /** The segment at the head of a text. */
  function HeadSegment(lines: Lines): (s: Segment)
    requires lines != []
    ensures ValidSegment(s) && TextOf(s) <= lines
    ensures s.Bug? && |TextOf(s)| < |lines| ==> Stops(lines[|TextOf(s)|])
  {
    if lines[0].header.None? then Gap(lines[0])
    else
      var n := BodyLength(lines[1..]);
      assert n < |lines| - 1 ==> lines[1..][n] == lines[1 + n];
      Bug(lines[0], lines[1..1 + n])
  }

  function Segments(lines: Lines): seq<Segment>
    decreases |lines|
  {
    if lines == [] then []
    else [HeadSegment(lines)] + Segments(lines[|TextOf(HeadSegment(lines))|..])
  }

  predicate ValidSegment(s: Segment) {
    match s
    case Gap(line) => line.header.None?
    case Bug(head, body) => head.header.Some? && forall i :: 0 <= i < |body| ==> !Stops(body[i])
  }

  /** Bodies are as long as they can be. */
  predicate Segmented(segs: seq<Segment>) {
    && (forall i :: 0 <= i < |segs| ==> ValidSegment(segs[i]))
    && (forall i :: 0 <= i < |segs| - 1 && segs[i].Bug? ==> Stops(TextOf(segs[i + 1])[0]))
  }

  lemma SegmentedCons(s: Segment, rest: seq<Segment>)
    ensures Segmented([s] + rest) <==>
            ValidSegment(s) && Segmented(rest) && (s.Bug? && rest != [] ==> Stops(TextOf(rest[0])[0]))
  {
    var all := [s] + rest;
    if Segmented(all) {
      assert ValidSegment(all[0]);
      assert forall i :: 0 <= i < |rest| ==> rest[i] == all[i + 1];
    }
  }

  lemma {:induction false} SegmentsAre(lines: Lines)
    ensures Flatten(Segments(lines)) == lines && Segmented(Segments(lines))
    ensures lines != [] ==> Segments(lines) != [] && TextOf(Segments(lines)[0])[0] == lines[0]
    decreases |lines|
  {
    if lines != [] {
      hide HeadSegment, Segmented, ValidSegment;
      var s := HeadSegment(lines);
      var rest := lines[|TextOf(s)|..];
      SegmentsAre(rest);
      SegmentedCons(s, Segments(rest));
      assert lines == TextOf(s) + rest;
      assert ([s] + Segments(rest))[1..] == Segments(rest);
    }
  }

  lemma {:induction false} BodyLengthIs(lines: Lines, n: nat)
    requires n <= |lines| && (forall i :: 0 <= i < n ==> !Stops(lines[i])) && (n < |lines| ==> Stops(lines[n]))
    ensures BodyLength(lines) == n
  {
    if n > 0 {
      BodyLengthIs(lines[1..], n - 1);
    }
  }

  lemma HeadSegmentIs(s: Segment, rest: Lines)
    requires ValidSegment(s) && (s.Bug? && rest != [] ==> Stops(rest[0]))
    ensures HeadSegment(TextOf(s) + rest) == s
  {
    hide BodyLength, Stops;
    var lines := TextOf(s) + rest;
    if s.Bug? {
      assert lines[1..] == s.body + rest;
      BodyLengthIs(s.body + rest, |s.body|);
      assert lines[1..1 + |s.body|] == s.body;
    }
  }

  lemma SegmentsCons(s: Segment, rest: Lines)
    requires ValidSegment(s) && (s.Bug? && rest != [] ==> Stops(rest[0]))
    ensures Segments(TextOf(s) + rest) == [s] + Segments(rest)
  {
    hide HeadSegment, ValidSegment, Stops;
    HeadSegmentIs(s, rest);
    assert (TextOf(s) + rest)[|TextOf(s)|..] == rest;
  }

  /** Segmenting is the only way to divide a file like this. */
  lemma {:induction false} SegmentsUnique(segs: seq<Segment>)
    requires Segmented(segs)
    ensures Segments(Flatten(segs)) == segs
  {
    hide HeadSegment, Segmented, ValidSegment;
    if segs != [] {
      var s, rest := segs[0], segs[1..];
      assert segs == [s] + rest;
      SegmentedCons(s, rest);
      SegmentsUnique(rest);
      if rest != [] {
        assert Flatten(rest)[0] == TextOf(rest[0])[0];
      }
      SegmentsCons(s, Flatten(rest));
    }
  }

  lemma {:induction false} FlattenConcat(a: seq<Segment>, b: seq<Segment>)
    ensures Flatten(a + b) == Flatten(a) + Flatten(b)
  {
    if a == [] {
      assert a + b == b;
    } else {
      assert (a + b)[1..] == a[1..] + b;
      FlattenConcat(a[1..], b);
    }
  }

  // ---- Entries ----

  /** A parsed entry: the 1-based line of its header, the header, and the body. */
  datatype Entry = Entry(lineno: nat, header: Header, body: Lines)

  function EntriesFrom(segs: seq<Segment>, at: nat): seq<Entry> {
    if segs == [] then []
    else
      (if segs[0].Bug? && segs[0].head.header.Some? then [Entry(at, segs[0].head.header.value, segs[0].body)] else [])
      + EntriesFrom(segs[1..], at + |TextOf(segs[0])|)
  }

  lemma EntriesStep(lines: Lines, i: nat, s: Segment)
    requires i < |lines| && ValidSegment(s) && TextOf(s) <= lines[i..]
    requires s.Bug? && i + |TextOf(s)| < |lines| ==> Stops(lines[i + |TextOf(s)|])
    ensures var next := EntriesFrom(Segments(lines[i + |TextOf(s)|..]), i + 1 + |TextOf(s)|);
            EntriesFrom(Segments(lines[i..]), i + 1)
            == (if s.Bug? then [Entry(i + 1, s.head.header.value, s.body)] + next else next)
  {
    hide Segments, EntriesFrom, Stops, TextOf;
    var rest := lines[i + |TextOf(s)|..];
    assert lines[i..] == TextOf(s) + rest;
    SegmentsCons(s, rest);
    EntriesCons(s, Segments(rest), i + 1);
  }

  lemma EntriesCons(s: Segment, rest: seq<Segment>, at: nat)
    requires s.Bug? ==> s.head.header.Some?
    ensures EntriesFrom([s] + rest, at)
            == (if s.Bug? then [Entry(at, s.head.header.value, s.body)] else []) + EntriesFrom(rest, at + |TextOf(s)|)
  {
    assert ([s] + rest)[1..] == rest;
  }

  lemma GapStep(lines: Lines, i: nat)
    requires i < |lines| && lines[i].header.None?
    ensures EntriesFrom(Segments(lines[i..]), i + 1) == EntriesFrom(Segments(lines[i + 1..]), i + 2)
  {
    hide EntriesFrom, Segments;
    EntriesStep(lines, i, Gap(lines[i]));
  }

  lemma BugStep(lines: Lines, i: nat, j: nat)
    requires i < j <= |lines| && lines[i].header.Some?
    requires (forall k :: i < k < j ==> !Stops(lines[k])) && (j < |lines| ==> Stops(lines[j]))
    ensures EntriesFrom(Segments(lines[i..]), i + 1)
            == [Entry(i + 1, lines[i].header.value, lines[i + 1..j])] + EntriesFrom(Segments(lines[j..]), j + 1)
  {
    hide EntriesFrom, Segments, Stops;
    var body := lines[i + 1..j];
    assert lines[i..j] == [lines[i]] + body;
    assert lines[i..][..j - i] == lines[i..j];
    assert forall k :: 0 <= k < |body| ==> body[k] == lines[i + 1 + k];
    EntriesStep(lines, i, Bug(lines[i], body));
  }

  method ParseBugEntries(lines: Lines) returns (entries: seq<Entry>)
    ensures entries == EntriesFrom(Segments(lines), 1)
  {
    hide EntriesFrom, Segments;
    entries := [];
    var i := 0;
    assert lines[0..] == lines;
    while i < |lines|
      invariant i <= |lines|
      invariant entries + EntriesFrom(Segments(lines[i..]), i + 1) == EntriesFrom(Segments(lines), 1)
      decreases |lines| - i
    {
      if lines[i].header.None? {
        GapStep(lines, i);
        i := i + 1;
        continue;
      }
      var body: Lines := [];
      var j := i + 1;
      while j < |lines| && !Stops(lines[j])
        invariant i < j <= |lines| && body == lines[i + 1..j]
        invariant forall k :: i < k < j ==> !Stops(lines[k])
      {
        body := body + [lines[j]];
        j := j + 1;
      }
      BugStep(lines, i, j);
      entries := entries + [Entry(i + 1, lines[i].header.value, body)];
      i := j;
    }
    NoEntries(i + 1);
    assert lines[|lines|..] == [];
  }

  lemma NoEntries(at: nat)
    ensures EntriesFrom(Segments([]), at) == []
  {
  }
}
