/** The compare-and-swap patch of one plan file, interleaved with other patchers and
    writers, as a state machine. Hashes stand for contents; a replace is one step. */
module PatchProtocol {
  import opened Options
  import opened Frontmatter

  /** A file: text by lines, or bytes that are not UTF-8. */
  datatype Content = Text(lines: Lines) | Binary(id: nat)

  /** The operations of a patch as one edit of the frontmatter, and the content that was
      hashed at scan time. */
  datatype Job = Job(edit: Lines -> Lines, preimage: Content)

  datatype Refusal = EscapesRoot | Missing | ModifiedSinceScan | NotUtf8 | MalformedFrontmatter | ModifiedSinceRead

  /** There is a frontmatter, and it is not empty. */
  ghost predicate Patchable(c: Content) {
    exists closing: nat :: c.Text? && ClosesAt(c.lines, closing) && closing > 1
  }

  ghost function Patch(edit: Lines -> Lines, c: Content): Content
    requires Patchable(c)
  {
    var closing: nat :| c.Text? && ClosesAt(c.lines, closing) && closing > 1;
    Text(Reassemble(c.lines, edit(c.lines[1..closing]), closing))
  }

  lemma {:induction false} PatchIs(edit: Lines -> Lines, c: Content, closing: nat)
    requires c.Text? && ClosesAt(c.lines, closing) && closing > 1
    ensures Patchable(c) && Patch(edit, c) == Text(Reassemble(c.lines, edit(c.lines[1..closing]), closing))
  {
    var k: nat :| ClosesAt(c.lines, k) && k > 1
      && Patch(edit, c) == Text(Reassemble(c.lines, edit(c.lines[1..k]), k));
  }

  /** A patch changes nothing outside the fences. */
  lemma {:induction false} PatchKeepsOutside(edit: Lines -> Lines, c: Content)
    requires Patchable(c)
    ensures exists closing: nat, closing': nat ::
              && c.Text? && ClosesAt(c.lines, closing) && Patch(edit, c).Text?
              && 0 < closing' <= |Patch(edit, c).lines|
              && Outside(Patch(edit, c).lines, closing') == Outside(c.lines, closing)
              && Patch(edit, c).lines[1..closing'] == edit(c.lines[1..closing])
  {
    var closing: nat :| c.Text? && ClosesAt(c.lines, closing) && closing > 1;
    PatchIs(edit, c, closing);
    ReassembleRoundTrip(c.lines, edit(c.lines[1..closing]), closing);
    assert Outside(Patch(edit, c).lines, 1 + |edit(c.lines[1..closing])|) == Outside(c.lines, closing);
  }

  // ---- Runs ----

  /** How far a patcher has got. `Rechecked` occurs only where recheck and replace are two
      steps; `Crashed` is a file that vanished before the recheck. */
  datatype Phase =
    | Start
    | Checked(current: Content)
    | Built(current: Content, next: Content)
    | Rechecked(next: Content)
    | Applied
    | Refused(why: Refusal)
    | Crashed

  datatype Write = ByPatch(id: nat) | ByOther(content: Option<Content>)

  /** The file, the patchers, and all writes so far in order. */
  datatype World = World(file: Option<Content>, phases: seq<Phase>, history: seq<Write>)

  datatype Move =
    | ReadCheck(id: nat)
    | Build(id: nat)
    | Commit(id: nat)
    | Recheck(id: nat)
    | Replace(id: nat)
    | OtherWrite(content: Option<Content>)

  ghost function AfterRead(job: Job, file: Option<Content>): Phase {
    if file.None? then Refused(Missing)
    else if file.value != job.preimage then Refused(ModifiedSinceScan)
    else Checked(file.value)
  }

  ghost function AfterBuild(job: Job, current: Content): Phase {
    if current.Binary? then Refused(NotUtf8)
    else if !Patchable(current) then Refused(MalformedFrontmatter)
    else Built(current, Patch(job.edit, current))
  }

  /** One atomic move; a move that its patcher is not ready for does nothing. */
  ghost function Do(jobs: seq<Job>, w: World, m: Move): World
    requires |jobs| == |w.phases|
  {
    if m.OtherWrite? then
      World(m.content, w.phases, w.history + [ByOther(m.content)])
    else if m.id >= |jobs| then w
    else
      match (m, w.phases[m.id])
      case (ReadCheck(id), Start) => w.(phases := w.phases[id := AfterRead(jobs[id], w.file)])
      case (Build(id), Checked(c)) => w.(phases := w.phases[id := AfterBuild(jobs[id], c)])
      case (Commit(id), Built(c, next)) =>
        if w.file == Some(c) then World(Some(next), w.phases[id := Applied], w.history + [ByPatch(id)])
        else w.(phases := w.phases[id := if w.file.None? then Crashed else Refused(ModifiedSinceRead)])
      case (Recheck(id), Built(c, next)) =>
        w.(phases := w.phases[id :=
          if w.file == Some(c) then Rechecked(next) else if w.file.None? then Crashed else Refused(ModifiedSinceRead)])
      case (Replace(id), Rechecked(next)) =>
        World(Some(next), w.phases[id := Applied], w.history + [ByPatch(id)])
      case _ => w
  }

  ghost function DoAll(jobs: seq<Job>, w: World, ms: seq<Move>): (r: World)
    requires |jobs| == |w.phases|
    ensures |r.phases| == |jobs|
  {
    if ms == [] then w
    else
      var v := DoAll(jobs, w, ms[..|ms| - 1]);
      Do(jobs, v, ms[|ms| - 1])
  }

  function Initial(file: Option<Content>, n: nat): World {
    World(file, seq(n, _ => Start), [])
  }

  /** The writes carried out one after the other, each patch on the file as it then is. */
  ghost function Replay(jobs: seq<Job>, file: Option<Content>, history: seq<Write>): Option<Content> {
    if history == [] then file
    else
      var before, last := Replay(jobs, file, history[..|history| - 1]), history[|history| - 1];
      match last
      case ByOther(content) => content
      case ByPatch(id) =>
        if id < |jobs| && before.Some? && Patchable(before.value) then Some(Patch(jobs[id].edit, before.value))
        else before
  }

  lemma {:induction false} ReplayAppend(jobs: seq<Job>, file: Option<Content>, history: seq<Write>, w: Write)
    ensures Replay(jobs, file, history + [w]) ==
            match w
            case ByOther(content) => content
            case ByPatch(id) =>
              var before := Replay(jobs, file, history);
              if id < |jobs| && before.Some? && Patchable(before.value) then Some(Patch(jobs[id].edit, before.value))
              else before
  {
    assert (history + [w])[..|history|] == history;
  }

  // ---- Recheck and replace in one step ----

  /** What a patcher carries along is what it scanned, and its patch of it. */
  ghost predicate PhaseSound(job: Job, p: Phase) {
    match p
    case Checked(c) => c == job.preimage
    case Built(c, next) => c == job.preimage && Patchable(c) && next == Patch(job.edit, c)
    case Rechecked(next) => Patchable(job.preimage) && next == Patch(job.edit, job.preimage)
    case _ => true
  }

  /** Every patch in the history was applied to exactly the content that was scanned for it. */
  ghost predicate OnScanned(jobs: seq<Job>, file: Option<Content>, history: seq<Write>) {
    forall i :: 0 <= i < |history| && history[i].ByPatch? ==>
      history[i].id < |jobs| && Replay(jobs, file, history[..i]) == Some(jobs[history[i].id].preimage)
  }

  /** The applied patches, and no others, are in the history, each once. */
  ghost predicate Tracked(w: World) {
    && (forall id: nat :: ByPatch(id) in w.history <==> id < |w.phases| && w.phases[id] == Applied)
    && (forall i, j :: 0 <= i < j < |w.history| && w.history[i].ByPatch? ==> w.history[i] != w.history[j])
  }

  /** The file is the replay of all writes, of applied patches on what they scanned and of
      other writers, in the order in which they replaced the file. */
  ghost predicate Serial(jobs: seq<Job>, file: Option<Content>, w: World)
    requires |jobs| == |w.phases|
  {
    && w.file == Replay(jobs, file, w.history)
    && (forall id: nat :: id < |jobs| ==> PhaseSound(jobs[id], w.phases[id]))
    && Tracked(w)
    && OnScanned(jobs, file, w.history)
  }

  predicate Atomic(m: Move) {
    !m.Recheck? && !m.Replace?
  }

  lemma {:induction false} OnScannedAppend(jobs: seq<Job>, file: Option<Content>, history: seq<Write>, w: Write)
    requires OnScanned(jobs, file, history)
    requires w.ByPatch? ==> w.id < |jobs| && Replay(jobs, file, history) == Some(jobs[w.id].preimage)
    ensures OnScanned(jobs, file, history + [w])
  {
    hide Replay;
    var h := history + [w];
    forall i | 0 <= i < |h| && h[i].ByPatch?
      ensures h[i].id < |jobs| && Replay(jobs, file, h[..i]) == Some(jobs[h[i].id].preimage)
    {
      assert h[..i] == history[..i];
      assert i == |history| ==> history[..i] == history;
    }
  }

  /** A replace that takes effect finds the content that its patch was made from. */
  ghost predicate Clean(jobs: seq<Job>, w: World, m: Move)
    requires |jobs| == |w.phases|
  {
    m.Replace? && m.id < |jobs| && w.phases[m.id].Rechecked? ==> w.file == Some(jobs[m.id].preimage)
  }

  lemma {:induction false} DoTracks(jobs: seq<Job>, w: World, m: Move)
    requires |jobs| == |w.phases| && Tracked(w)
    ensures Tracked(Do(jobs, w, m))
  {
    hide Patch, Patchable;
    if Commits(jobs, w, m) {
      assert ByPatch(m.id) !in w.history;
    }
  }

  /** The move lets a patch replace the file. */
  ghost predicate Commits(jobs: seq<Job>, w: World, m: Move)
    requires |jobs| == |w.phases|
  {
    && !m.OtherWrite? && m.id < |jobs|
    && ((m.Commit? && w.phases[m.id].Built? && w.file == Some(w.phases[m.id].current))
        || (m.Replace? && w.phases[m.id].Rechecked?))
  }

  /** One move of anyone: the world stays serial exactly when the move is clean. */
  lemma {:induction false} DoKeepsSerialIff(jobs: seq<Job>, file: Option<Content>, w: World, m: Move)
    requires |jobs| == |w.phases| && Serial(jobs, file, w)
    ensures Serial(jobs, file, Do(jobs, w, m)) <==> Clean(jobs, w, m)
  {
    hide Serial, OnScanned, Clean, Patch, Patchable;
    if Clean(jobs, w, m) {
      CleanKeepsSerial(jobs, file, w, m);
    } else if Serial(jobs, file, Do(jobs, w, m)) {
      SerialIsOnScanned(jobs, file, Do(jobs, w, m));
      OnScannedIsClean(jobs, file, w, m);
    }
  }

  lemma {:induction false} CleanKeepsSerial(jobs: seq<Job>, file: Option<Content>, w: World, m: Move)
    requires |jobs| == |w.phases| && Serial(jobs, file, w) && Clean(jobs, w, m)
    ensures Serial(jobs, file, Do(jobs, w, m))
  {
    hide Patch, Patchable, Tracked, OnScanned, Replay;
    DoTracks(jobs, w, m);
    if m.OtherWrite? {
      ReplayAppend(jobs, file, w.history, ByOther(m.content));
      OnScannedAppend(jobs, file, w.history, ByOther(m.content));
    } else if Commits(jobs, w, m) {
      ReplayAppend(jobs, file, w.history, ByPatch(m.id));
      OnScannedAppend(jobs, file, w.history, ByPatch(m.id));
    }
  }

  /** Every replace of the run was clean. */
  ghost predicate AllClean(jobs: seq<Job>, w: World, ms: seq<Move>)
    requires |jobs| == |w.phases|
  {
    forall i :: 0 <= i < |ms| ==> Clean(jobs, DoAll(jobs, w, ms[..i]), ms[i])
  }

  lemma {:induction false} AllCleanSnoc(jobs: seq<Job>, w: World, ms: seq<Move>)
    requires |jobs| == |w.phases| && ms != []
    ensures var n := |ms| - 1;
            AllClean(jobs, w, ms) <==> AllClean(jobs, w, ms[..n]) && Clean(jobs, DoAll(jobs, w, ms[..n]), ms[n])
  {
    hide Clean, DoAll;
    var n := |ms| - 1;
    assert forall i :: 0 <= i < n ==> ms[..n][..i] == ms[..i] && ms[..n][i] == ms[i];
  }

  /** Histories only grow, so a patch of the wrong content stays in them. */
  lemma {:induction false} BrokenStaysBroken(jobs: seq<Job>, file: Option<Content>, w: World, m: Move)
    requires |jobs| == |w.phases| && OnScanned(jobs, file, Do(jobs, w, m).history)
    ensures OnScanned(jobs, file, w.history)
  {
    hide Patch, Patchable, Replay;
    var h, h' := w.history, Do(jobs, w, m).history;
    forall i | 0 <= i < |h| && h[i].ByPatch?
      ensures h[i].id < |jobs| && Replay(jobs, file, h[..i]) == Some(jobs[h[i].id].preimage)
    {
      assert h'[i] == h[i] && h'[..i] == h[..i];
    }
  }

  /** Over all runs of all moves, in every interleaving of patchers, writers and deletions:
      every patch was applied to exactly what was scanned for it, and the file is the replay
      of all writes, exactly when every replace that takes effect is clean. */
  lemma {:induction false} RunsAreSerialIff(jobs: seq<Job>, file: Option<Content>, ms: seq<Move>)
    ensures var d := DoAll(jobs, Initial(file, |jobs|), ms);
            && (Serial(jobs, file, d) <==> AllClean(jobs, Initial(file, |jobs|), ms))
            && (OnScanned(jobs, file, d.history) ==> Serial(jobs, file, d))
  {
    var w := Initial(file, |jobs|);
    if ms == [] {
    } else {
      hide Serial, Do, Clean, AllClean, OnScanned;
      var n := |ms| - 1;
      var before := DoAll(jobs, w, ms[..n]);
      RunsAreSerialIff(jobs, file, ms[..n]);
      AllCleanSnoc(jobs, w, ms);
      if Serial(jobs, file, DoAll(jobs, w, ms)) {
        SerialIsOnScanned(jobs, file, DoAll(jobs, w, ms));
      }
      if Serial(jobs, file, before) {
        DoKeepsSerialIff(jobs, file, before, ms[n]);
      }
      if OnScanned(jobs, file, DoAll(jobs, w, ms).history) {
        BrokenStaysBroken(jobs, file, before, ms[n]);
        OnScannedIsClean(jobs, file, before, ms[n]);
      }
    }
  }

  lemma {:induction false} SerialIsOnScanned(jobs: seq<Job>, file: Option<Content>, w: World)
    requires |jobs| == |w.phases| && Serial(jobs, file, w)
    ensures OnScanned(jobs, file, w.history)
  {
  }

  /** An unclean replace shows in the history. */
  lemma {:induction false} OnScannedIsClean(jobs: seq<Job>, file: Option<Content>, w: World, m: Move)
    requires |jobs| == |w.phases| && Serial(jobs, file, w) && OnScanned(jobs, file, Do(jobs, w, m).history)
    ensures Clean(jobs, w, m)
  {
    hide Patch, Patchable, Replay, Tracked;
    if Commits(jobs, w, m) {
      var n, h := |w.history|, Do(jobs, w, m).history;
      assert h[n] == ByPatch(m.id) && h[..n] == w.history;
    }
  }

  /** With recheck and replace in one step every run is serial: no write is lost. */
  lemma {:induction false} RunsAreSerial(jobs: seq<Job>, file: Option<Content>, ms: seq<Move>)
    requires forall m :: m in ms ==> Atomic(m)
    ensures Serial(jobs, file, DoAll(jobs, Initial(file, |jobs|), ms))
  {
    hide Serial, DoAll, Initial;
    assert forall i :: 0 <= i < |ms| ==> ms[i] in ms;
    RunsAreSerialIff(jobs, file, ms);
  }

  // ---- The second check ----

  /** A patcher that has built its patch goes on only if the file is still what it read; with
      another content it refuses, without a file it fails, and in neither case does it write. */
  lemma {:induction false} SecondCheck(jobs: seq<Job>, w: World, id: nat, m: Move)
    requires |jobs| == |w.phases| && id < |jobs| && w.phases[id].Built? && m in {Commit(id), Recheck(id)}
    ensures var d := Do(jobs, w, m);
            && d.phases[id] == (if w.file == None then Crashed
                                else if w.file != Some(w.phases[id].current) then Refused(ModifiedSinceRead)
                                else if m == Commit(id) then Applied
                                else Rechecked(w.phases[id].next))
            && (forall i :: 0 <= i < |jobs| && i != id ==> d.phases[i] == w.phases[i])
            && (if d.phases[id] == Applied
                then d.file == Some(w.phases[id].next) && d.history == w.history + [ByPatch(id)]
                else d.file == w.file && d.history == w.history)
  {
  }

  ghost predicate AllSound(jobs: seq<Job>, w: World)
    requires |jobs| == |w.phases|
  {
    forall id: nat :: id < |jobs| ==> PhaseSound(jobs[id], w.phases[id])
  }

  lemma {:induction false} DoKeepsSound(jobs: seq<Job>, w: World, m: Move)
    requires |jobs| == |w.phases| && AllSound(jobs, w)
    ensures AllSound(jobs, Do(jobs, w, m))
  {
    hide Patch, Patchable;
  }

  lemma {:induction false} RunsAreSound(jobs: seq<Job>, file: Option<Content>, ms: seq<Move>)
    ensures AllSound(jobs, DoAll(jobs, Initial(file, |jobs|), ms))
  {
    if ms == [] {
    } else {
      hide AllSound, Do;
      RunsAreSound(jobs, file, ms[..|ms| - 1]);
      DoKeepsSound(jobs, DoAll(jobs, Initial(file, |jobs|), ms[..|ms| - 1]), ms[|ms| - 1]);
    }
  }

  /** The file was found as scanned at move `n` of the run, by the second check of the patcher. */
  ghost predicate CheckedAt(jobs: seq<Job>, file: Option<Content>, ms: seq<Move>, id: nat, n: nat)
    requires id < |jobs|
  {
    && n < |ms| && ms[n] in {Recheck(id), Commit(id)}
    && DoAll(jobs, Initial(file, |jobs|), ms[..n]).file == Some(jobs[id].preimage)
  }

  /** In every run, no patch is written whose patcher did not find the file as it was scanned a
      second time before. */
  lemma {:induction false} WritesWereChecked(jobs: seq<Job>, file: Option<Content>, ms: seq<Move>, id: nat)
    requires id < |jobs|
    requires var p := DoAll(jobs, Initial(file, |jobs|), ms).phases[id]; p.Rechecked? || p.Applied?
    ensures exists n: nat :: CheckedAt(jobs, file, ms, id, n)
  {
    if ms == [] {
      assert false;
    } else {
      hide Patch, Patchable, AfterRead, AfterBuild;
      var k := |ms| - 1;
      var w := DoAll(jobs, Initial(file, |jobs|), ms[..k]);
      if w.phases[id].Rechecked? || w.phases[id].Applied? {
        WritesWereChecked(jobs, file, ms[..k], id);
        var n: nat :| CheckedAt(jobs, file, ms[..k], id, n);
        assert ms[..k][..n] == ms[..n];
        assert CheckedAt(jobs, file, ms, id, n);
      } else {
        RunsAreSound(jobs, file, ms[..k]);
        assert CheckedAt(jobs, file, ms, id, k);
      }
    }
  }

  // ---- No write is lost ----

  /** What the file should be by now, and what the patchers carry along. */
  ghost predicate Faithful(jobs: seq<Job>, file: Option<Content>, w: World)
    requires |jobs| == |w.phases|
  {
    w.file == Replay(jobs, file, w.history) && forall id: nat :: id < |jobs| ==> PhaseSound(jobs[id], w.phases[id])
  }

  /** A replace that takes effect writes what patching the file that it finds would give;
      a file that has no patch is already what it writes. */
  ghost predicate Harmless(jobs: seq<Job>, w: World, m: Move)
    requires |jobs| == |w.phases|
  {
    m.Replace? && m.id < |jobs| && w.phases[m.id].Rechecked? ==>
      var next := w.phases[m.id].next;
      if w.file.Some? && Patchable(w.file.value) then Patch(jobs[m.id].edit, w.file.value) == next
      else w.file == Some(next)
  }

  /** One move of anyone: the file stays the replay of all writes exactly when the move is
      harmless. */
  lemma {:induction false} DoKeepsFileIff(jobs: seq<Job>, file: Option<Content>, w: World, m: Move)
    requires |jobs| == |w.phases| && Faithful(jobs, file, w)
    ensures Do(jobs, w, m).file == Replay(jobs, file, Do(jobs, w, m).history) <==> Harmless(jobs, w, m)
    ensures Harmless(jobs, w, m) ==> Faithful(jobs, file, Do(jobs, w, m))
  {
    hide Patch, Patchable, Replay;
    if m.OtherWrite? {
      ReplayAppend(jobs, file, w.history, ByOther(m.content));
    } else if Commits(jobs, w, m) {
      ReplayAppend(jobs, file, w.history, ByPatch(m.id));
    }
  }

  ghost predicate FileIsReplay(jobs: seq<Job>, file: Option<Content>, ms: seq<Move>) {
    var d := DoAll(jobs, Initial(file, |jobs|), ms);
    d.file == Replay(jobs, file, d.history)
  }

  ghost predicate HarmlessAt(jobs: seq<Job>, file: Option<Content>, ms: seq<Move>, i: nat)
    requires i < |ms|
  {
    Harmless(jobs, DoAll(jobs, Initial(file, |jobs|), ms[..i]), ms[i])
  }

  /** After every move of the run, the file is the replay of all writes so far. */
  ghost predicate NothingIsLost(jobs: seq<Job>, file: Option<Content>, ms: seq<Move>) {
    forall n :: 0 <= n <= |ms| ==> FileIsReplay(jobs, file, ms[..n])
  }

  ghost predicate AllHarmless(jobs: seq<Job>, file: Option<Content>, ms: seq<Move>) {
    forall i :: 0 <= i < |ms| ==> HarmlessAt(jobs, file, ms, i)
  }

  /** Over all runs of all moves: the file is at all times the replay of all writes so far
      exactly when every replace that takes effect is harmless. */
  lemma {:induction false} NoWriteIsLostIff(jobs: seq<Job>, file: Option<Content>, ms: seq<Move>)
    ensures NothingIsLost(jobs, file, ms) <==> AllHarmless(jobs, file, ms)
    ensures AllHarmless(jobs, file, ms) ==> Faithful(jobs, file, DoAll(jobs, Initial(file, |jobs|), ms))
  {
    if ms == [] {
    } else {
      hide DoAll, Faithful, FileIsReplay, HarmlessAt, NothingIsLost, AllHarmless;
      var ns := ms[..|ms| - 1];
      NoWriteIsLostIff(jobs, file, ns);
      NothingIsLostSnoc(jobs, file, ms);
      AllHarmlessSnoc(jobs, file, ms);
      if AllHarmless(jobs, file, ns) {
        LastMoveHarmless(jobs, file, ms);
      }
    }
  }

  lemma {:induction false} NothingIsLostSnoc(jobs: seq<Job>, file: Option<Content>, ms: seq<Move>)
    requires ms != []
    ensures NothingIsLost(jobs, file, ms) <==>
            NothingIsLost(jobs, file, ms[..|ms| - 1]) && FileIsReplay(jobs, file, ms)
  {
    hide FileIsReplay;
    var ns := ms[..|ms| - 1];
    assert ms[..|ms|] == ms;
    forall n | 0 <= n <= |ns| ensures FileIsReplay(jobs, file, ns[..n]) <==> FileIsReplay(jobs, file, ms[..n]) {
      assert ns[..n] == ms[..n];
    }
    if NothingIsLost(jobs, file, ms) {
      forall n | 0 <= n <= |ns| ensures FileIsReplay(jobs, file, ns[..n]) {
        assert FileIsReplay(jobs, file, ms[..n]);
      }
    }
    if NothingIsLost(jobs, file, ns) && FileIsReplay(jobs, file, ms) {
      forall n | 0 <= n <= |ms| ensures FileIsReplay(jobs, file, ms[..n]) {
        assert n <= |ns| ==> FileIsReplay(jobs, file, ns[..n]);
      }
    }
  }

  lemma {:induction false} AllHarmlessSnoc(jobs: seq<Job>, file: Option<Content>, ms: seq<Move>)
    requires ms != []
    ensures AllHarmless(jobs, file, ms) <==>
            AllHarmless(jobs, file, ms[..|ms| - 1]) && HarmlessAt(jobs, file, ms, |ms| - 1)
  {
    hide HarmlessAt;
    var ns := ms[..|ms| - 1];
    forall i | 0 <= i < |ns| ensures HarmlessAt(jobs, file, ns, i) <==> HarmlessAt(jobs, file, ms, i) {
      SameMoveHarmless(jobs, file, ns, ms, i);
    }
  }

  lemma {:induction false} SameMoveHarmless(jobs: seq<Job>, file: Option<Content>,
                                            ns: seq<Move>, ms: seq<Move>, i: nat)
    requires i < |ns| && ns <= ms
    ensures HarmlessAt(jobs, file, ns, i) <==> HarmlessAt(jobs, file, ms, i)
  {
    hide Harmless, DoAll;
    assert ns[..i] == ms[..i];
  }

  lemma {:induction false} LastMoveHarmless(jobs: seq<Job>, file: Option<Content>, ms: seq<Move>)
    requires ms != [] && Faithful(jobs, file, DoAll(jobs, Initial(file, |jobs|), ms[..|ms| - 1]))
    ensures FileIsReplay(jobs, file, ms) <==> HarmlessAt(jobs, file, ms, |ms| - 1)
    ensures HarmlessAt(jobs, file, ms, |ms| - 1) ==> Faithful(jobs, file, DoAll(jobs, Initial(file, |jobs|), ms))
  {
    hide Do, Harmless, Faithful, Replay;
    DoKeepsFileIff(jobs, file, DoAll(jobs, Initial(file, |jobs|), ms[..|ms| - 1]), ms[|ms| - 1]);
  }

  // ---- Recheck and replace in two steps ----

  /** A write that lands between a recheck and its replace is overwritten; the outcome is
      that of a serial run exactly when patching the new content would have given it too. */
  lemma {:induction false} WriteBeforeReplace(jobs: seq<Job>, file: Option<Content>, w: World, id: nat, x: Content)
    requires |jobs| == |w.phases| && Serial(jobs, file, w)
    requires id < |jobs| && w.phases[id].Built? && w.file == Some(w.phases[id].current) && Patchable(x)
    ensures var d := DoAll(jobs, w, [Recheck(id), OtherWrite(Some(x)), Replace(id)]);
            && d.file == Some(Patch(jobs[id].edit, jobs[id].preimage))
            && d.history == w.history + [ByOther(Some(x)), ByPatch(id)]
            && (d.file == Replay(jobs, file, d.history)
                <==> Patch(jobs[id].edit, x) == Patch(jobs[id].edit, jobs[id].preimage))
  {
    hide Patch, Patchable, Serial, Do, DoAll, Replay;
    BuiltIsSound(jobs, file, w, id);
    DoThree(jobs, w, Recheck(id), OtherWrite(Some(x)), Replace(id));
    Overwritten(jobs, w, id, x);
    var h := w.history + [ByOther(Some(x))];
    ReplayAppend(jobs, file, w.history, ByOther(Some(x)));
    ReplayAppend(jobs, file, h, ByPatch(id));
    assert h + [ByPatch(id)] == w.history + [ByOther(Some(x)), ByPatch(id)];
  }

  lemma {:induction false} DoThree(jobs: seq<Job>, w: World, a: Move, b: Move, c: Move)
    requires |jobs| == |w.phases|
    ensures |Do(jobs, w, a).phases| == |jobs| && |Do(jobs, Do(jobs, w, a), b).phases| == |jobs|
    ensures DoAll(jobs, w, [a, b, c]) == Do(jobs, Do(jobs, Do(jobs, w, a), b), c)
  {
    hide Patch, Patchable, AfterRead, AfterBuild;
    DoAppend(jobs, w, [], a);
    DoAppend(jobs, w, [a], b);
    DoAppend(jobs, w, [a, b], c);
    assert [] + [a] == [a] && [a] + [b] == [a, b] && [a, b] + [c] == [a, b, c];
  }

  lemma {:induction false} DoAppend(jobs: seq<Job>, w: World, ms: seq<Move>, m: Move)
    requires |jobs| == |w.phases|
    ensures DoAll(jobs, w, ms + [m]) == Do(jobs, DoAll(jobs, w, ms), m)
  {
    hide Do;
    assert (ms + [m])[..|ms|] == ms;
  }

  lemma {:induction false} Overwritten(jobs: seq<Job>, w: World, id: nat, x: Content)
    requires |jobs| == |w.phases| && id < |jobs| && w.phases[id].Built? && w.file == Some(w.phases[id].current)
    ensures var a := Do(jobs, w, Recheck(id));
            && |a.phases| == |jobs|
            && var b := Do(jobs, a, OtherWrite(Some(x)));
            && |b.phases| == |jobs|
            && var d := Do(jobs, b, Replace(id));
            && d.file == Some(w.phases[id].next)
            && d.history == w.history + [ByOther(Some(x))] + [ByPatch(id)]
  {
    hide Patch, Patchable, AfterRead, AfterBuild;
  }

  /** Two patchers that both recheck before either replaces: the first patch is lost, unless
      it changed nothing. */
  lemma {:induction false} TwoPatchersRace(jobs: seq<Job>, c: Content)
    requires |jobs| == 2 && jobs[0].preimage == jobs[1].preimage == c && Patchable(c)
    ensures var d := DoAll(jobs, Initial(Some(c), 2),
                           [ReadCheck(0), Build(0), Recheck(0), ReadCheck(1), Build(1), Recheck(1),
                            Replace(0), Replace(1)]);
            && d.file == Some(Patch(jobs[1].edit, c))
            && (Serial(jobs, Some(c), d) <==> Patch(jobs[0].edit, c) == c)
  {
    hide Patch, Patchable, Serial, DoAll, Do;
    var w := Initial(Some(c), 2);
    var first := [ReadCheck(0), Build(0), Recheck(0), ReadCheck(1), Build(1), Recheck(1)];
    var a := DoAll(jobs, w, first);
    BothRechecked(jobs, c);
    DoAppend(jobs, w, first, Replace(0));
    DoAppend(jobs, w, first + [Replace(0)], Replace(1));
    assert first + [Replace(0)] + [Replace(1)]
        == [ReadCheck(0), Build(0), Recheck(0), ReadCheck(1), Build(1), Recheck(1), Replace(0), Replace(1)];
    RechecksAreSerial(jobs, c);
    var b := Do(jobs, a, Replace(0));
    BothReplace(jobs, a, b, c);
    DoKeepsSerialIff(jobs, Some(c), a, Replace(0));
    DoKeepsSerialIff(jobs, Some(c), b, Replace(1));
  }

  lemma {:induction false} BothRechecked(jobs: seq<Job>, c: Content)
    requires |jobs| == 2 && jobs[0].preimage == jobs[1].preimage == c && Patchable(c)
    ensures DoAll(jobs, Initial(Some(c), 2), [ReadCheck(0), Build(0), Recheck(0), ReadCheck(1), Build(1), Recheck(1)])
            == World(Some(c), [Rechecked(Patch(jobs[0].edit, c)), Rechecked(Patch(jobs[1].edit, c))], [])
  {
    hide Patch, Patchable, DoAll, Do;
    var w := Initial(Some(c), 2);
    var one := [ReadCheck(0), Build(0), Recheck(0)];
    var p := Patch(jobs[0].edit, c);
    OnePrepares(jobs, w, 0, c);
    DoThree(jobs, w, ReadCheck(0), Build(0), Recheck(0));
    var v := World(Some(c), w.phases[0 := Rechecked(p)], []);
    OnePrepares(jobs, v, 1, c);
    DoAppend(jobs, w, one, ReadCheck(1));
    DoAppend(jobs, w, one + [ReadCheck(1)], Build(1));
    DoAppend(jobs, w, one + [ReadCheck(1)] + [Build(1)], Recheck(1));
    assert one + [ReadCheck(1)] + [Build(1)] + [Recheck(1)]
        == [ReadCheck(0), Build(0), Recheck(0), ReadCheck(1), Build(1), Recheck(1)];
    assert w.phases[0 := Rechecked(p)][1 := Rechecked(Patch(jobs[1].edit, c))]
        == [Rechecked(p), Rechecked(Patch(jobs[1].edit, c))];
  }

  /** From the start to the recheck, undisturbed. */
  lemma {:induction false} OnePrepares(jobs: seq<Job>, w: World, id: nat, c: Content)
    requires |jobs| == |w.phases| && id < |jobs| && w.phases[id].Start? && w.file == Some(c)
    requires jobs[id].preimage == c && Patchable(c)
    ensures var a := Do(jobs, w, ReadCheck(id));
            && |a.phases| == |jobs|
            && var b := Do(jobs, a, Build(id));
            && |b.phases| == |jobs|
            && Do(jobs, b, Recheck(id)) == w.(phases := w.phases[id := Rechecked(Patch(jobs[id].edit, c))])
  {
    hide Patch;
    assert c.Text?;
    var a := Do(jobs, w, ReadCheck(id));
    var b := Do(jobs, a, Build(id));
    assert b.phases[id := Rechecked(Patch(jobs[id].edit, c))] == w.phases[id := Rechecked(Patch(jobs[id].edit, c))];
  }

  lemma {:induction false} RechecksAreSerial(jobs: seq<Job>, c: Content)
    requires |jobs| == 2 && jobs[0].preimage == jobs[1].preimage == c && Patchable(c)
    ensures Serial(jobs, Some(c),
                   World(Some(c), [Rechecked(Patch(jobs[0].edit, c)), Rechecked(Patch(jobs[1].edit, c))], []))
  {
    hide Patch, Patchable;
  }

  lemma {:induction false} BothReplace(jobs: seq<Job>, a: World, b: World, c: Content)
    requires |jobs| == 2 && jobs[0].preimage == jobs[1].preimage == c && Patchable(c)
    requires a == World(Some(c), [Rechecked(Patch(jobs[0].edit, c)), Rechecked(Patch(jobs[1].edit, c))], [])
    requires b == Do(jobs, a, Replace(0))
    ensures |b.phases| == 2 && Clean(jobs, a, Replace(0))
    ensures Clean(jobs, b, Replace(1)) <==> Patch(jobs[0].edit, c) == c
    ensures Do(jobs, b, Replace(1)).file == Some(Patch(jobs[1].edit, c))
  {
    hide Patch, Patchable;
  }

  lemma {:induction false} BuiltIsSound(jobs: seq<Job>, file: Option<Content>, w: World, id: nat)
    requires |jobs| == |w.phases| && Serial(jobs, file, w) && id < |jobs| && w.phases[id].Built?
    ensures Patchable(jobs[id].preimage) && w.phases[id].next == Patch(jobs[id].edit, jobs[id].preimage)
  {
  }
}
