/** The drift report, in terms of the claims and entries themselves. */
module BugReports {
  import opened Options
  import opened BugEntries
  import opened BugDrift

  // ---- Entries ----

  /** Entry `k` is the last one with the id. */
  predicate StandsFor(found: seq<Found>, id: string, k: nat) {
    k < |found| && found[k].entry.header.id == id && forall i :: k < i < |found| ==> found[i].entry.header.id != id
  }

  predicate HasMarkerLine(body: Lines) {
    exists i :: 0 <= i < |body| && body[i].superseded
  }

  lemma MarkerIff(e: Entry)
    ensures HasMarker(e) <==> HasMarkerLine(e.body)
  {
  }

  lemma LastWithIff(found: seq<Found>, id: string, k: nat)
    ensures StandsFor(found, id, k) <==> LastWith(found, id) == k
  {
  }

  /** The target of the first marker line that has one, and nothing without such a line. */
  lemma {:induction false} TargetIs(body: Lines, i: nat)
    requires i < |body| && body[i].superseded && body[i].target.Some?
    requires forall j :: 0 <= j < i ==> !(body[j].superseded && body[j].target.Some?)
    ensures ExtractSupersedeTarget(body) == body[i].target
  {
    if i > 0 {
      TargetIs(body[1..], i - 1);
    }
  }

  lemma {:induction false} NoTarget(body: Lines)
    requires forall j :: 0 <= j < |body| ==> !(body[j].superseded && body[j].target.Some?)
    ensures ExtractSupersedeTarget(body) == None
  {
    if body != [] {
      NoTarget(body[1..]);
    }
  }

  predicate AllSlashes(s: string) {
    forall i :: 0 <= i < |s| ==> s[i] == '/'
  }

  /** The plan that a target names is its last part before any slashes at its end. */
  lemma TargetNameIs(before: string, name: string, slashes: string)
    requires name != "" && '/' !in name && AllSlashes(slashes)
    requires before == "" || before[|before| - 1] == '/'
    ensures TargetName(before + name + slashes) == name
  {
    var t := before + name;
    assert t[|t| - 1] == name[|name| - 1] && name[|name| - 1] in name;
    SlashesGo(t, slashes);
    LastPartIs(before, name);
  }

  lemma {:induction false} SlashesGo(t: string, slashes: string)
    requires AllSlashes(slashes) && t != "" && t[|t| - 1] != '/'
    ensures StripSlashes(t + slashes) == t
  {
    if slashes == "" {
      assert t + slashes == t;
    } else {
      var n := |slashes| - 1;
      assert (t + slashes)[..|t| + n] == t + slashes[..n];
      SlashesGo(t, slashes[..n]);
    }
  }

  lemma {:induction false} LastPartIs(before: string, name: string)
    requires '/' !in name && (before == "" || before[|before| - 1] == '/')
    ensures LastPart(before + name) == name
  {
    if name == "" {
      assert before + name == before;
    } else {
      var n := |name| - 1;
      assert (before + name)[..|before| + n] == before + name[..n];
      assert name[n] in name;
      LastPartIs(before, name[..n]);
    }
  }

  /** What decides how a bug is excluded: a supersedes marker first, then the two blockers. */
  lemma ExclusionIs(body: Lines)
    ensures ClassifyBugExclusion(body) == SupersededByPlan <==> HasMarkerLine(body)
    ensures ClassifyBugExclusion(body) == Blocked <==>
            !HasMarkerLine(body) && exists i :: 0 <= i < |body| && body[i].blocked
    ensures ClassifyBugExclusion(body) == Actionable <==>
            forall i :: 0 <= i < |body| ==> !body[i].superseded && !body[i].blocked && !body[i].blockedBy
  {
  }

  // ---- The report ----

  /** The last entry of a claimed bug is open. */
  predicate OpenAt(refs: seq<Ref>, found: seq<Found>, id: string, k: nat) {
    Claims(refs, id) && StandsFor(found, id, k) && !found[k].entry.header.fixed
  }

  /** A bug lacks its marker when it is claimed and open, and its last entry has no marker line;
      it is misdirected when there is one, but no claim is by the plan that is named there. */
  lemma DriftIff(refs: seq<Ref>, found: seq<Found>, id: string)
    ensures IsMissing(refs, found, id) <==>
            exists k: nat :: OpenAt(refs, found, id, k) && !HasMarkerLine(found[k].entry.body)
    ensures IsMisdirected(refs, found, id) <==>
            exists k: nat :: OpenAt(refs, found, id, k) && HasMarkerLine(found[k].entry.body)
                             && Ref(id, PlanIn(found[k].entry)) !in refs
    ensures forall k: nat :: StandsFor(found, id, k) <==> LastWith(found, id) == k
  {
    hide PlansFor, LastWith, PlanIn;
    PlansForAre(refs, id);
    var last := LastWith(found, id);
    forall k: nat ensures StandsFor(found, id, k) <==> last == k { LastWithIff(found, id, k); }
    if last >= 0 {
      MarkerIff(found[last].entry);
      assert StandsFor(found, id, last);
    }
  }

  /** An entry is unclaimed when it has a marker line and no plan claims its bug. */
  lemma UnclaimedIff(refs: seq<Ref>, x: Found)
    ensures IsUnclaimed(refs, x) <==> HasMarkerLine(x.entry.body) && !Claims(refs, x.entry.header.id)
  {
    hide PlansFor;
    PlansForAre(refs, x.entry.header.id);
    MarkerIff(x.entry);
  }

  lemma OneClaim(refs: seq<Ref>, id: string)
    requires Claims(refs, id)
    ensures exists c: nat :: FirstClaim(refs, id, c)
    ensures forall c: nat :: FirstClaim(refs, id, c) ==>
              PlansFor(refs, id) != [] && PlansFor(refs, id)[0] == refs[c].plan
  {
    hide PlansFor;
    var k := ClaimExists(refs, id);
    forall c: nat | FirstClaim(refs, id, c)
      ensures PlansFor(refs, id) != [] && PlansFor(refs, id)[0] == refs[c].plan
    {
      FirstPlan(refs, id, c);
    }
  }

  /** The missing bugs are reported each at its last entry and with its first claim. */
  lemma {:induction false} MissingReported(refs: seq<Ref>, found: seq<Found>, ids: seq<string>, m: Missing)
    ensures m in MissingAmong(ids, refs, found) <==>
            m.id in ids
            && exists k: nat, c: nat ::
                 OpenAt(refs, found, m.id, k) && !HasMarkerLine(found[k].entry.body) && FirstClaim(refs, m.id, c)
                 && m == Missing(m.id, found[k].file, found[k].entry.lineno, refs[c].plan)
  {
    hide PlansFor, LastWith, IsMissing, HasMarkerLine, Claims;
    if ids != [] {
      var n := |ids| - 1;
      assert ids == ids[..n] + [ids[n]];
      MissingReported(refs, found, ids[..n], m);
      DriftIff(refs, found, ids[n]);
      if Claims(refs, ids[n]) {
        OneClaim(refs, ids[n]);
      }
    }
  }

  /** The misdirected bugs are reported with the target that is read, and all their plans. */
  lemma {:induction false} MisdirectedReported(refs: seq<Ref>, found: seq<Found>, ids: seq<string>, o: Orphan)
    ensures o in MisdirectedAmong(ids, refs, found) <==>
            o.id in ids
            && exists k: nat ::
                 OpenAt(refs, found, o.id, k) && HasMarkerLine(found[k].entry.body)
                 && Ref(o.id, PlanIn(found[k].entry)) !in refs
                 && o == Orphan(o.id, found[k].file, found[k].entry.lineno, DeclaredTarget(found[k].entry),
                                PlansFor(refs, o.id))
  {
    hide PlansFor, LastWith, IsMisdirected, HasMarkerLine, Claims, PlanIn, DeclaredTarget;
    if ids != [] {
      var n := |ids| - 1;
      assert ids == ids[..n] + [ids[n]];
      MisdirectedReported(refs, found, ids[..n], o);
      DriftIff(refs, found, ids[n]);
    }
  }

  /** The marked entries that nobody claims are reported with what can be read of their target. */
  lemma {:induction false} UnclaimedReported(refs: seq<Ref>, found: seq<Found>, o: Orphan)
    ensures o in UnclaimedIn(refs, found) <==>
            exists x :: x in found && HasMarkerLine(x.entry.body) && !Claims(refs, x.entry.header.id)
                        && o.id == x.entry.header.id && o.file == x.file && o.lineno == x.entry.lineno && o.plans == []
                        && o.target == match ExtractSupersedeTarget(x.entry.body)
                                       case Some(t) => t
                                       case None => "(unparseable)"
  {
    hide IsUnclaimed, HasMarkerLine, Claims, ExtractSupersedeTarget;
    if found != [] {
      var n := |found| - 1;
      assert found == found[..n] + [found[n]];
      UnclaimedReported(refs, found[..n], o);
      UnclaimedIff(refs, found[n]);
    }
  }

  /** `a` is `b` with some elements left out. */
  predicate Subsequence(a: seq<string>, b: seq<string>)
    decreases |b|
  {
    a == [] || (b != [] && var n, m := |b| - 1, |a| - 1;
                           ((a[m] == b[n] && Subsequence(a[..m], b[..n])) || Subsequence(a, b[..n])))
  }

  function MissingIds(ms: seq<Missing>): (r: seq<string>) {
    seq(|ms|, i requires 0 <= i < |ms| => ms[i].id)
  }

  function OrphanIds(os: seq<Orphan>): (r: seq<string>) {
    seq(|os|, i requires 0 <= i < |os| => os[i].id)
  }

  /** Both lists follow the order of the ids. */
  lemma {:induction false} ReportedInOrder(refs: seq<Ref>, found: seq<Found>, ids: seq<string>)
    ensures Subsequence(MissingIds(MissingAmong(ids, refs, found)), ids)
    ensures Subsequence(OrphanIds(MisdirectedAmong(ids, refs, found)), ids)
  {
    hide PlansFor, LastWith, IsMissing, IsMisdirected, DeclaredTarget;
    if ids != [] {
      var n := |ids| - 1;
      ReportedInOrder(refs, found, ids[..n]);
      var a, b := MissingIds(MissingAmong(ids, refs, found)), OrphanIds(MisdirectedAmong(ids, refs, found));
      var c, d := MissingIds(MissingAmong(ids[..n], refs, found)), OrphanIds(MisdirectedAmong(ids[..n], refs, found));
      assert a == if IsMissing(refs, found, ids[n]) then c + [ids[n]] else c;
      assert b == if IsMisdirected(refs, found, ids[n]) then d + [ids[n]] else d;
      SubsequenceSnoc(c, ids[..n], ids[n]);
      SubsequenceSnoc(d, ids[..n], ids[n]);
      assert ids == ids[..n] + [ids[n]];
    }
  }

  lemma {:induction false} SubsequenceSnoc(a: seq<string>, b: seq<string>, x: string)
    requires Subsequence(a, b)
    ensures Subsequence(a, b + [x]) && Subsequence(a + [x], b + [x])
  {
    assert (b + [x])[..|b|] == b && (a + [x])[..|a|] == a;
  }
}
