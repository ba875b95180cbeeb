/** A batch of frontmatter fixes: the rolling preimages keep the batch from
    conflicting with itself. */
module AutoFix {
  import opened Options
  import opened Frontmatter
  import opened PatchProtocol

  type Path = string

  datatype PatchResult = Done(afterHash: Content) | Unapplied(why: Refusal)

  /** What one undisturbed patch does. */
  ghost function PatchOutcome(files: map<Path, Content>, path: Path, edit: Lines -> Lines,
                              preimage: Option<Content>, corpus: set<Path>): PatchResult {
    if path !in corpus then Unapplied(EscapesRoot)
    else if path !in files then Unapplied(Missing)
    else if preimage != Some(files[path]) then Unapplied(ModifiedSinceScan)
    else if files[path].Binary? then Unapplied(NotUtf8)
    else if !Patchable(files[path]) then Unapplied(MalformedFrontmatter)
    else Done(Patch(edit, files[path]))
  }

  /** The undisturbed patch is the run of the protocol with no one else moving. */
  lemma {:induction false} SoloPatchIsProtocolRun(files: map<Path, Content>, path: Path, job: Job, corpus: set<Path>)
    requires path in corpus
    ensures var file := if path in files then Some(files[path]) else None;
            var d := DoAll([job], Initial(file, 1), [ReadCheck(0), Build(0), Commit(0)]);
            match PatchOutcome(files, path, job.edit, Some(job.preimage), corpus)
            case Done(content) => d.file == Some(content) && d.phases == [Applied] && d.history == [ByPatch(0)]
            case Unapplied(why) => d.file == file && d.phases == [Refused(why)] && d.history == []
  {
    hide Patch, Patchable;
    var file := if path in files then Some(files[path]) else None;
    var ms := [ReadCheck(0), Build(0), Commit(0)];
    var w := Initial(file, 1);
    assert ms[..2] == [ReadCheck(0), Build(0)] && ms[..2][..1] == [ReadCheck(0)] && ms[..2][..1][..0] == [];
    var a := Do([job], w, ms[0]);
    var b := Do([job], a, ms[1]);
    assert DoAll([job], w, ms[..2][..1]) == Do([job], DoAll([job], w, []), ms[0]) == a;
    assert DoAll([job], w, ms[..2]) == b;
    assert DoAll([job], w, ms) == Do([job], b, ms[2]);
  }

  /** The edits of one file, carried out one after the other; what cannot be patched stays. */
  ghost function FoldEdits(c: Content, edits: seq<Lines -> Lines>): Content {
    if edits == [] then c
    else
      var before := FoldEdits(c, edits[..|edits| - 1]);
      if Patchable(before) then Patch(edits[|edits| - 1], before) else before
  }

  /** A classified finding, and the plan to fix it if there is one. */
  datatype Finding = Finding(safe: bool, plan: Option<Plan>)
  datatype Plan = Plan(path: Path, edit: Lines -> Lines)

  datatype FixResult = Skipped | PlannedOnly | Attempted(result: PatchResult)

  /** The edits that a batch plans for one file, in order. */
  function EditsFor(path: Path, batch: seq<Finding>): seq<Lines -> Lines> {
    if batch == [] then []
    else
      var f := batch[|batch| - 1];
      EditsFor(path, batch[..|batch| - 1])
      + (if f.plan.Some? && f.plan.value.path == path then [f.plan.value.edit] else [])
  }

  /** The hash taken at scan time is that of the file. */
  predicate Accurate(files: map<Path, Content>, preimages: map<Path, Content>, path: Path) {
    path in files && path in preimages && preimages[path] == files[path]
  }

  /** What a batch makes of the files: each file in the corpus whose preimage was accurate
      has all its edits, in order; every other file is as it was. */
  ghost predicate Folded(files: map<Path, Content>, files': map<Path, Content>, preimages: map<Path, Content>,
                         corpus: set<Path>, batch: seq<Finding>) {
    && files'.Keys == files.Keys
    && forall p :: p in files ==>
         files'[p] == if p in corpus && Accurate(files, preimages, p) then FoldEdits(files[p], EditsFor(p, batch))
                      else files[p]
  }

  lemma {:induction false} FoldStep(files: map<Path, Content>, now: map<Path, Content>,
                                    preimages: map<Path, Content>, working: map<Path, Content>,
                                    corpus: set<Path>, batch: seq<Finding>, f: Finding, next: map<Path, Content>)
    requires Folded(files, now, preimages, corpus, batch)
    requires forall p :: p in files ==> (Accurate(now, working, p) <==> Accurate(files, preimages, p))
    requires f.plan.None? ==> next == now
    requires f.plan.Some? ==>
               var p := f.plan.value.path;
               var preimage := if p in working then Some(working[p]) else None;
               var r := PatchOutcome(now, p, f.plan.value.edit, preimage, corpus);
               next == if r.Done? then now[p := r.afterHash] else now
    ensures Folded(files, next, preimages, corpus, batch + [f])
  {
    hide Patch, Patchable;
    assert (batch + [f])[..|batch|] == batch;
    forall p | p in files
      ensures next[p] ==
              if p in corpus && Accurate(files, preimages, p) then FoldEdits(files[p], EditsFor(p, batch + [f]))
              else files[p]
    {
      var edits := EditsFor(p, batch);
      assert EditsFor(p, batch + [f]) ==
             edits + (if f.plan.Some? && f.plan.value.path == p then [f.plan.value.edit] else []);
      if f.plan.Some? && f.plan.value.path == p {
        assert (edits + [f.plan.value.edit])[..|edits|] == edits;
        PatchableIsText(now[p]);
      } else {
        assert edits + [] == edits;
      }
    }
  }

  lemma {:induction false} PatchableIsText(c: Content)
    ensures Patchable(c) ==> c.Text?
  {
  }

  /** What becomes of fix `i`: the first of the refusals that applies, the preimage being judged
      on the files before the batch, or the patched content of a file that already has the
      earlier edits of the batch. */
  ghost predicate ResultIs(files: map<Path, Content>, preimages: map<Path, Content>, corpus: set<Path>,
                           batch: seq<Finding>, i: nat, r: PatchResult)
    requires i < |batch| && batch[i].plan.Some?
  {
    var p, edit := batch[i].plan.value.path, batch[i].plan.value.edit;
    if p !in corpus then r == Unapplied(EscapesRoot)
    else if p !in files then r == Unapplied(Missing)
    else if !Accurate(files, preimages, p) then r == Unapplied(ModifiedSinceScan)
    else
      var c := FoldEdits(files[p], EditsFor(p, batch[..i]));
      if c.Binary? then r == Unapplied(NotUtf8)
      else if !Patchable(c) then r == Unapplied(MalformedFrontmatter)
      else r == Done(Patch(edit, c))
  }

  lemma {:induction false} OutcomeIsResult(files: map<Path, Content>, now: map<Path, Content>,
                                           preimages: map<Path, Content>, working: map<Path, Content>,
                                           corpus: set<Path>, batch: seq<Finding>, i: nat)
    requires i < |batch| && batch[i].plan.Some? && Folded(files, now, preimages, corpus, batch[..i])
    requires forall p :: p in files ==> (Accurate(now, working, p) <==> Accurate(files, preimages, p))
    ensures var p := batch[i].plan.value.path;
            var preimage := if p in working then Some(working[p]) else None;
            ResultIs(files, preimages, corpus, batch, i,
                     PatchOutcome(now, p, batch[i].plan.value.edit, preimage, corpus))
  {
    hide Patch, Patchable, FoldEdits;
  }

  /** The files under the plans directory; no one else writes while a batch runs. */
  class Disk {
    var files: map<Path, Content>

    method ApplyPatch(path: Path, edit: Lines -> Lines, preimage: Option<Content>, corpus: set<Path>)
      returns (r: PatchResult)
      modifies this
      ensures r == PatchOutcome(old(files), path, edit, preimage, corpus)
      ensures files == if r.Done? then old(files)[path := r.afterHash] else old(files)
    {
      hide Patch;
      if path !in corpus {
        return Unapplied(EscapesRoot);
      }
      if path !in files {
        return Unapplied(Missing);
      }
      var current := files[path];
      if Some(current) != preimage {
        return Unapplied(ModifiedSinceScan);
      }
      if current.Binary? {
        return Unapplied(NotUtf8);
      }
      var closing := ExtractFrontmatterSlice(current.lines);
      if closing.None? || closing.value == 1 {
        return Unapplied(MalformedFrontmatter);
      }
      PatchIs(edit, current, closing.value);
      var next := Text(Reassemble(current.lines, edit(current.lines[1..closing.value]), closing.value));
      var recheck := files[path];
      if recheck != current {
        return Unapplied(ModifiedSinceRead);
      }
      files := files[path := next];
      r := Done(next);
    }

    /** Nothing is done when a finding is not safe to fix. Otherwise each fix has exactly the
        result that the files before the batch and its earlier edits call for; in particular, it
        is refused for a changed file exactly when the preimage of its file was missing or wrong
        from the start. And every file ends up with its edits applied in order. */
    method ApplyFixes(batch: seq<Finding>, preimages: map<Path, Content>, corpus: set<Path>, dryRun: bool)
      returns (results: Option<seq<FixResult>>)
      modifies this
      ensures results.None? <==> exists i :: 0 <= i < |batch| && !batch[i].safe
      ensures results.None? || dryRun ==> files == old(files)
      ensures results.Some? ==> |results.value| == |batch|
      ensures results.Some? ==> forall i :: 0 <= i < |batch| ==>
                var r := results.value[i];
                && (r.Skipped? <==> batch[i].plan.None?)
                && (r.Attempted? <==> batch[i].plan.Some? && !dryRun)
                && (r.Attempted? ==> ResultIs(old(files), preimages, corpus, batch, i, r.result))
      ensures results.Some? && !dryRun ==> Folded(old(files), files, preimages, corpus, batch)
    {
      hide Patch, Patchable, Folded, ResultIs;
      for i := 0 to |batch|
        invariant forall k :: 0 <= k < i ==> batch[k].safe
      {
        if !batch[i].safe {
          return None;
        }
      }
      ghost var before := files;
      var out: seq<FixResult> := [];
      var working := preimages;
      NothingFolded(before, preimages, corpus);
      for i := 0 to |batch|
        invariant |out| == i && (dryRun ==> files == before)
        invariant files.Keys == before.Keys
        invariant forall p :: p in before ==> (Accurate(files, working, p) <==> Accurate(before, preimages, p))
        invariant forall k :: 0 <= k < i ==>
          && (out[k].Skipped? <==> batch[k].plan.None?)
          && (out[k].Attempted? <==> batch[k].plan.Some? && !dryRun)
          && (out[k].Attempted? ==> ResultIs(before, preimages, corpus, batch, k, out[k].result))
        invariant !dryRun ==> Folded(before, files, preimages, corpus, batch[..i])
      {
        ghost var now, was := files, working;
        assert batch[..i + 1] == batch[..i] + [batch[i]];
        if batch[i].plan.None? {
          out := out + [Skipped];
        } else if dryRun {
          out := out + [PlannedOnly];
        } else {
          var plan := batch[i].plan.value;
          var preimage := if plan.path in working then Some(working[plan.path]) else None;
          OutcomeIsResult(before, files, preimages, working, corpus, batch, i);
          var result := ApplyPatch(plan.path, plan.edit, preimage, corpus);
          if result.Done? {
            working := working[plan.path := result.afterHash];
          }
          out := out + [Attempted(result)];
        }
        if !dryRun {
          FoldStep(before, now, preimages, was, corpus, batch[..i], batch[i], files);
        }
      }
      assert batch[..|batch|] == batch;
      results := Some(out);
    }
  }

  lemma {:induction false} NothingFolded(files: map<Path, Content>, preimages: map<Path, Content>, corpus: set<Path>)
    ensures Folded(files, files, preimages, corpus, [])
  {
  }
}
