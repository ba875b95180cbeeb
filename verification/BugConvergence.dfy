/** What a rescan finds after one round of marker repair. */
module BugConvergence {
  import opened Options
  import opened BugEntries
  import opened BugEdits
  import opened BugDrift
  import opened BugRepair

  // ---- Planned edits, by entry ----

  function LineFor(planned: seq<Planned>, file: nat, lineno: nat): (r: Option<Line>)
    ensures r.Some? ==> Planned(file, Edit(lineno, r.value)) in planned
    ensures r.None? ==> forall p :: p in planned && p.file == file ==> p.edit.lineno != lineno
  {
    if planned == [] then None
    else if planned[0].file == file && planned[0].edit.lineno == lineno then Some(planned[0].edit.line)
    else LineFor(planned[1..], file, lineno)
  }

  function FixedBody(x: Found, planned: seq<Planned>): Lines {
    match LineFor(planned, x.file, x.entry.lineno)
    case Some(line) => if Mentions(x.entry.body) then x.entry.body else x.entry.body + [line]
    case None => x.entry.body
  }

  /** One edit per entry, and each for an entry there is. */
  predicate WellPlanned(files: Tracker, planned: seq<Planned>) {
    && (forall p :: p in planned ==>
          p.file < |files| && IsHeader(Segments(files[p.file]), p.edit.lineno) && !Stops(p.edit.line))
    && DistinctPlaces(planned)
  }

  predicate DistinctPlaces(planned: seq<Planned>) {
    forall i, j :: 0 <= i < j < |planned| && planned[i].file == planned[j].file ==>
      planned[i].edit.lineno != planned[j].edit.lineno
  }

  lemma {:induction false} EditsDistinct(planned: seq<Planned>, f: nat)
    requires DistinctPlaces(planned)
    ensures Distinct(EditsOf(planned, f))
  {
    if planned != [] {
      var n := |planned| - 1;
      EditsDistinct(planned[..n], f);
      var front := EditsOf(planned[..n], f);
      forall i | 0 <= i < |front| && planned[n].file == f
        ensures front[i].lineno != planned[n].edit.lineno
      {
        assert front[i] in front;
      }
    }
  }

  /** The same entries in the same order, each with its body as planned. */
  predicate Kept(before: seq<Found>, after: seq<Found>, planned: seq<Planned>) {
    && |after| == |before|
    && forall i :: 0 <= i < |before| ==>
         && after[i].file == before[i].file && after[i].entry.header == before[i].entry.header
         && after[i].entry.body == FixedBody(before[i], planned)
  }

  lemma FileRepaired(files: Tracker, planned: seq<Planned>, f: nat)
    requires WellPlanned(files, planned) && f < |files|
    ensures Kept(FoundIn(f, EntriesFrom(Segments(files[f]), 1)),
                 FoundIn(f, EntriesFrom(Segments(Repaired(files, planned)[f]), 1)), planned)
  {
    hide Segments, EntriesFrom, Marked, IsHeader, Mentions, Flatten, InsertAll, SortEdits, Distinct, Stops;
    var edits, segs := EditsOf(planned, f), Segments(files[f]);
    EditsDistinct(planned, f);
    var marks := EditsMark(files[f], edits);
    SegmentsAre(files[f]);
    MarkedEntries(segs, 1, 1, marks);
    var a := EntriesFrom(segs, 1);
    forall i | 0 <= i < |a|
      ensures MarkedBody(a[i], marks) == FixedBody(Found(f, a[i]), planned)
    {
      var l := LineFor(planned, f, a[i].lineno);
      if l.Some? {
        assert Edit(a[i].lineno, l.value) in edits;
      }
    }
  }

  lemma KeptConcat(a: seq<Found>, a': seq<Found>, b: seq<Found>, b': seq<Found>, planned: seq<Planned>)
    requires Kept(a, a', planned) && Kept(b, b', planned)
    ensures Kept(a + b, a' + b', planned)
  {
    hide FixedBody;
  }

  lemma NothingKept(planned: seq<Planned>)
    ensures Kept(ParseDir([]), ParseDir([]), planned)
  {
  }

  lemma {:induction false} TrackerRepaired(files: Tracker, planned: seq<Planned>, n: nat)
    requires WellPlanned(files, planned) && n <= |files|
    ensures Kept(ParseDir(files[..n]), ParseDir(Repaired(files, planned)[..n]), planned)
  {
    hide WellPlanned, Kept, Segments, EntriesFrom, RepairedFile, FoundIn, EditsOf;
    var files' := Repaired(files, planned);
    if n == 0 {
      NothingKept(planned);
    } else {
      TrackerRepaired(files, planned, n - 1);
      FileRepaired(files, planned, n - 1);
      assert files[..n][..n - 1] == files[..n - 1] && files'[..n][..n - 1] == files'[..n - 1];
      KeptConcat(ParseDir(files[..n - 1]), ParseDir(files'[..n - 1]),
                 FoundIn(n - 1, EntriesFrom(Segments(files[n - 1]), 1)),
                 FoundIn(n - 1, EntriesFrom(Segments(files'[n - 1]), 1)), planned);
    }
  }

  // ---- The plan for a scan ----

  function MissingFor(refs: seq<Ref>, found: seq<Found>, id: string): Missing
    requires IsMissing(refs, found, id)
  {
    var x := found[LastWith(found, id)];
    Missing(id, x.file, x.entry.lineno, PlansFor(refs, id)[0])
  }

  predicate DistinctIds(ms: seq<Missing>) {
    forall i, j :: 0 <= i < j < |ms| ==> ms[i].id != ms[j].id
  }

  lemma DistinctSnoc(ms: seq<Missing>, m: Missing)
    requires DistinctIds(ms) && forall i :: 0 <= i < |ms| ==> ms[i].id != m.id
    ensures DistinctIds(ms + [m])
  {
  }

  /** The report lists each missing id once, and nothing else. */
  lemma {:induction false} MissingMembers(ids: seq<string>, refs: seq<Ref>, found: seq<Found>)
    requires forall i, j :: 0 <= i < j < |ids| ==> ids[i] != ids[j]
    ensures forall id :: id in ids && IsMissing(refs, found, id) ==>
              MissingFor(refs, found, id) in MissingAmong(ids, refs, found)
    ensures forall m :: m in MissingAmong(ids, refs, found) ==>
              m.id in ids && IsMissing(refs, found, m.id) && m == MissingFor(refs, found, m.id)
    ensures DistinctIds(MissingAmong(ids, refs, found))
  {
    if ids == [] {
    } else {
      hide IsMissing, PlansFor, DistinctIds;
      var n := |ids| - 1;
      MissingMembers(ids[..n], refs, found);
      var front := MissingAmong(ids[..n], refs, found);
      assert ids == ids[..n] + [ids[n]];
      assert ids[n] !in ids[..n];
      if IsMissing(refs, found, ids[n]) {
        var m := MissingFor(refs, found, ids[n]);
        assert MissingAmong(ids, refs, found) == front + [m];
        forall i | 0 <= i < |front|
          ensures front[i].id != m.id
        {
          assert front[i] in front;
        }
        DistinctSnoc(front, m);
      } else {
        assert MissingAmong(ids, refs, found) == front;
      }
    }
  }

  function PlanOf(missing: seq<Missing>): (r: seq<Planned>) {
    seq(|missing|, i requires 0 <= i < |missing| => FixFor(missing[i]))
  }

  function PlanFor(refs: seq<Ref>, files: Tracker): seq<Planned> {
    PlanOf(MissingAmong(Claimed(refs), refs, ParseDir(files)))
  }

  /** One round: scan, plan, edit. */
  function Repair(refs: seq<Ref>, files: Tracker): Tracker {
    Repaired(files, PlanFor(refs, files))
  }

  lemma PlanIsWell(refs: seq<Ref>, files: Tracker)
    ensures WellPlanned(files, PlanFor(refs, files))
  {
    hide IsHeader, Segments, ParseDir, PlansFor, Claimed, MissingAmong, MarkerLine;
    var found := ParseDir(files);
    var ms := MissingAmong(Claimed(refs), refs, found);
    ClaimedAre(refs);
    MissingMembers(Claimed(refs), refs, found);
    FoundPlaces(files);
    var planned := PlanFor(refs, files);
    forall p | p in planned
      ensures p.file < |files| && IsHeader(Segments(files[p.file]), p.edit.lineno) && !Stops(p.edit.line)
    {
      var i :| 0 <= i < |planned| && planned[i] == p;
      assert ms[i] in ms;
      MarkerIsBody(ms[i].plan);
    }
    forall i, j | 0 <= i < j < |planned| && planned[i].file == planned[j].file
      ensures planned[i].edit.lineno != planned[j].edit.lineno
    {
      assert ms[i] in ms && ms[j] in ms;
      var a, b := LastWith(found, ms[i].id), LastWith(found, ms[j].id);
      assert ms[i].id != ms[j].id;
      assert found[a].entry.header.id == ms[i].id && found[b].entry.header.id == ms[j].id;
      if a < b {
        assert Before(found[a], found[b]);
      } else {
        assert Before(found[b], found[a]);
      }
    }
  }

  lemma MarkerIsBody(plan: string)
    ensures !Stops(MarkerLine(plan)) && MarkerLine(plan).mentions && MarkerLine(plan).superseded
    ensures MarkerLine(plan).target.Some? && MarkerLine(plan).header.None?
    ensures !MarkerLine(plan).blocked && !MarkerLine(plan).blockedBy
  {
  }

  /** An entry is repaired when it is the one its id stands for and lacks its marker. */
  predicate Lacks(refs: seq<Ref>, found: seq<Found>, i: nat)
    requires i < |found|
  {
    IsMissing(refs, found, found[i].entry.header.id) && LastWith(found, found[i].entry.header.id) == i
  }

  lemma PlannedLine(refs: seq<Ref>, files: Tracker, i: nat)
    requires i < |ParseDir(files)|
    ensures var found := ParseDir(files);
            LineFor(PlanFor(refs, files), found[i].file, found[i].entry.lineno)
            == if Lacks(refs, found, i) then Some(MarkerLine(PlansFor(refs, found[i].entry.header.id)[0])) else None
  {
    hide IsHeader, Segments, ParseDir, PlansFor, Claimed, MissingAmong, MarkerLine;
    var found := ParseDir(files);
    var ms := MissingAmong(Claimed(refs), refs, found);
    ClaimedAre(refs);
    MissingMembers(Claimed(refs), refs, found);
    FoundPlaces(files);
    var planned, id := PlanFor(refs, files), found[i].entry.header.id;
    forall p | p in planned && p.file == found[i].file && p.edit.lineno == found[i].entry.lineno
      ensures Lacks(refs, found, i) && p.edit.line == MarkerLine(PlansFor(refs, id)[0])
    {
      var n :| 0 <= n < |planned| && planned[n] == p;
      assert ms[n] in ms;
      var a := LastWith(found, ms[n].id);
      assert !Before(found[a], found[i]) && !Before(found[i], found[a]);
      assert a == i;
    }
    if Lacks(refs, found, i) {
      assert id in Claimed(refs);
      var m := MissingFor(refs, found, id);
      var n :| 0 <= n < |ms| && ms[n] == m;
      assert planned[n] in planned;
    }
  }

  // ---- The rescan ----

  /** The body of entry `i` after one round. */
  function RepairedBody(refs: seq<Ref>, found: seq<Found>, i: nat): Lines
    requires i < |found|
  {
    var e := found[i].entry;
    if Lacks(refs, found, i) && !Mentions(e.body) then e.body + [MarkerLine(PlansFor(refs, e.header.id)[0])] else e.body
  }

  /** A round keeps every entry, in order, and adds at most one line to its body. */
  lemma RoundKeepsEntries(refs: seq<Ref>, files: Tracker)
    ensures var a, b := ParseDir(files), ParseDir(Repair(refs, files));
            && |b| == |a|
            && forall i :: 0 <= i < |a| ==>
                 && b[i].file == a[i].file && b[i].entry.header == a[i].entry.header
                 && b[i].entry.body == RepairedBody(refs, a, i)
  {
    hide ParseDir, WellPlanned, PlanFor, MarkerLine, PlansFor, Lacks, Repaired;
    var planned := PlanFor(refs, files);
    PlanIsWell(refs, files);
    FixedCount(files, planned);
    TrackerRepaired(files, planned, |files|);
    assert files[..|files|] == files;
    var a := ParseDir(files);
    forall i | 0 <= i < |a|
      ensures FixedBody(a[i], planned) == RepairedBody(refs, a, i)
    {
      PlannedLine(refs, files, i);
    }
  }

  lemma FixedCount(files: Tracker, planned: seq<Planned>)
    ensures var r := Repaired(files, planned); |r| == |files| && r[..|r|] == r
  {
  }

  lemma MarkedByLine(body: Lines, line: Line, e: Entry)
    requires line.superseded && line.target.Some? && e.body == body + [line]
    ensures HasMarker(e)
    ensures (forall i :: 0 <= i < |body| ==> !body[i].superseded) ==> DeclaredTarget(e) == line.target.value
  {
    assert e.body[|body|] == line;
    if forall i :: 0 <= i < |body| ==> !body[i].superseded {
      FirstTarget(body, line);
    }
  }

  lemma {:induction false} FirstTarget(body: Lines, line: Line)
    requires forall i :: 0 <= i < |body| ==> !body[i].superseded
    requires line.superseded && line.target.Some?
    ensures ExtractSupersedeTarget(body + [line]) == line.target
  {
    if body == [] {
      assert body + [line] == [line];
    } else {
      assert (body + [line])[1..] == body[1..] + [line];
      FirstTarget(body[1..], line);
    }
  }

  /** The phrase where no rescan takes it for a marker: it stops the edit and leaves the bug unmarked. */
  predicate Blocks(refs: seq<Ref>, found: seq<Found>, id: string) {
    IsMissing(refs, found, id) && Mentions(found[LastWith(found, id)].entry.body)
  }

  /** After one round a bug is missing its marker exactly when it was, and its body has the
      phrase outside a marker. */
  lemma StillMissingIff(refs: seq<Ref>, files: Tracker, id: string)
    ensures IsMissing(refs, ParseDir(Repair(refs, files)), id) <==> Blocks(refs, ParseDir(files), id)
  {
    hide ParseDir, Repair, PlansFor, MarkerLine, ClassifyBugExclusion, Mentions;
    var a, b := ParseDir(files), ParseDir(Repair(refs, files));
    RoundKeepsEntries(refs, files);
    var k := LastWith(a, id);
    if k >= 0 && Lacks(refs, a, k) && !Mentions(a[k].entry.body) {
      var plan := PlansFor(refs, id)[0];
      MarkerIsBody(plan);
      MarkedByLine(a[k].entry.body, MarkerLine(plan), b[k].entry);
    }
  }

  /** The plan the inserted line will be read as naming, when it is none of those claiming the bug. */
  predicate Misnames(refs: seq<Ref>, found: seq<Found>, id: string) {
    && IsMissing(refs, found, id) && !Blocks(refs, found, id)
    && TargetName(MarkerLine(PlansFor(refs, id)[0]).target.value) !in PlansFor(refs, id)
  }

  /** A round creates an orphan exactly when the line it inserts misnames its plan, and removes none. */
  lemma MisdirectedIff(refs: seq<Ref>, files: Tracker, id: string)
    ensures IsMisdirected(refs, ParseDir(Repair(refs, files)), id)
            <==> IsMisdirected(refs, ParseDir(files), id) || Misnames(refs, ParseDir(files), id)
  {
    hide ParseDir, Repair, PlansFor, MarkerLine, TargetName, Mentions, ExtractSupersedeTarget;
    var a, b := ParseDir(files), ParseDir(Repair(refs, files));
    RoundKeepsEntries(refs, files);
    var k := LastWith(a, id);
    if k >= 0 && Lacks(refs, a, k) && !Mentions(a[k].entry.body) {
      var plan := PlansFor(refs, id)[0];
      MarkerIsBody(plan);
      MarkedByLine(a[k].entry.body, MarkerLine(plan), b[k].entry);
    }
  }

  lemma UnclaimedKept(refs: seq<Ref>, files: Tracker, i: nat)
    requires i < |ParseDir(files)|
    ensures |ParseDir(Repair(refs, files))| == |ParseDir(files)|
    ensures IsUnclaimed(refs, ParseDir(Repair(refs, files))[i]) <==> IsUnclaimed(refs, ParseDir(files)[i])
  {
    hide ParseDir, Repair, PlansFor, MarkerLine, Mentions;
    RoundKeepsEntries(refs, files);
  }

  // ---- Fixpoint ----

  lemma {:induction false} FileInDir(files: Tracker, f: nat, i: nat)
    requires f < |files| && i < |EntriesFrom(Segments(files[f]), 1)|
    ensures Found(f, EntriesFrom(Segments(files[f]), 1)[i]) in ParseDir(files)
  {
    hide EntriesFrom, Segments;
    var n := |files| - 1;
    var last := FoundIn(n, EntriesFrom(Segments(files[n]), 1));
    if f < n {
      FileInDir(files[..n], f, i);
    } else {
      assert last[i] in last;
    }
  }

  /** What the second round would still edit has the phrase in its body. */
  lemma SecondRoundBlocked(refs: seq<Ref>, files: Tracker, j: nat)
    ensures var b := ParseDir(Repair(refs, files)); j < |b| && Lacks(refs, b, j) ==> Mentions(b[j].entry.body)
  {
    hide ParseDir, Repair, PlansFor, MarkerLine, Mentions, HasMarker;
    var a, b := ParseDir(files), ParseDir(Repair(refs, files));
    if j < |b| {
      RoundKeepsEntries(refs, files);
      var id := b[j].entry.header.id;
      StillMissingIff(refs, files, id);
    }
  }

  lemma SecondRoundIdle(refs: seq<Ref>, files: Tracker, f: nat)
    requires f < |Repair(refs, files)|
    ensures var once := Repair(refs, files); RepairedFile(once[f], EditsOf(PlanFor(refs, once), f)) == once[f]
  {
    hide ParseDir, Repair, Segments, EntriesFrom, PlanFor, IsHeader, Mentions, Lacks, Marked;
    hide InsertAll, SortEdits, Flatten;
    var once := Repair(refs, files);
    var planned := PlanFor(refs, once);
    PlanIsWell(refs, once);
    EditsDistinct(planned, f);
    var segs, edits := Segments(once[f]), EditsOf(planned, f);
    var marks := EditsMark(once[f], edits);
    var es := EntriesFrom(segs, 1);
    forall i | 0 <= i < |es| && es[i].lineno in marks
      ensures Mentions(es[i].body)
    {
      FileInDir(once, f, i);
      var found := ParseDir(once);
      var j :| 0 <= j < |found| && found[j] == Found(f, es[i]);
      PlannedLine(refs, once, j);
      var e :| e in edits && e.lineno == es[i].lineno;
      assert Planned(f, e) in planned;
      SecondRoundBlocked(refs, files, j);
    }
    SegmentsAre(once[f]);
    MarkedNothing(segs, 1, marks);
  }

  /** A second round changes nothing, whatever the first one could not repair. */
  lemma RepairIsFixpoint(refs: seq<Ref>, files: Tracker)
    ensures Repair(refs, Repair(refs, files)) == Repair(refs, files)
  {
    hide ParseDir, Segments, EntriesFrom, PlanFor, IsHeader, WellPlanned, RepairedFile;
    var once := Repair(refs, files);
    var planned := PlanFor(refs, once);
    PlanIsWell(refs, once);
    forall f | 0 <= f < |once|
      ensures RepairedFile(once[f], EditsOf(planned, f)) == once[f]
    {
      SecondRoundIdle(refs, files, f);
    }
  }

  /** The three steps of a round, on the disk. */
  method RepairRound(refs: seq<Ref>, disk: Disk)
    modifies disk
    ensures disk.files == Repair(refs, old(disk.files))
  {
    hide MissingAmong, Claimed, ParseDir, MarkerLine;
    var missing, orphans := FindSupersedeDrift(refs, disk.files);
    var edits := PlanAutoFixes(missing);
    assert edits == PlanOf(missing);
    var applied := disk.ApplyPlannedEdits(edits);
  }

  /** With clean plan names and no body that has the phrase outside a marker, one round
      leaves no marker missing and creates no orphan. */
  lemma OneRoundConverges(refs: seq<Ref>, files: Tracker, id: string)
    requires forall r :: r in refs ==> DirName(r.plan) && Clean(r.plan)
    requires !Blocks(refs, ParseDir(files), id)
    ensures !IsMissing(refs, ParseDir(Repair(refs, files)), id)
    ensures IsMisdirected(refs, ParseDir(Repair(refs, files)), id) <==> IsMisdirected(refs, ParseDir(files), id)
  {
    hide ParseDir, Repair, MarkerLine, TargetName, Clean;
    StillMissingIff(refs, files, id);
    MisdirectedIff(refs, files, id);
    if PlansFor(refs, id) != [] {
      var plan := PlansFor(refs, id)[0];
      PlansForAre(refs, id);
      assert plan in PlansFor(refs, id);
      MarkerNamesPlanIff(plan);
    }
  }
}
