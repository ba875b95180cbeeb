/** Drift between the bugs that plans supersede and the markers in the bug tracker, and its repair. */
module BugDrift {
  import opened Options
  import opened BugEntries
  import opened BugEdits

  /** A plan that lists a bug under `supersedes:`, in scan order. */
  datatype Ref = Ref(id: string, plan: string)

  /** The files of the tracker in name order, each known by its place. */
  type Tracker = seq<Lines>

  datatype Found = Found(file: nat, entry: Entry)

  datatype Missing = Missing(id: string, file: nat, lineno: nat, plan: string)

  datatype Orphan = Orphan(id: string, file: nat, lineno: nat, target: string, plans: seq<string>)

  datatype Planned = Planned(file: nat, edit: Edit)

  // ---- Claims ----

  function PlansFor(refs: seq<Ref>, id: string): seq<string> {
    if refs == [] then []
    else PlansFor(refs[..|refs| - 1], id) + (if refs[|refs| - 1].id == id then [refs[|refs| - 1].plan] else [])
  }

  /** The claimed ids, each once, in the order of their first claim. */
  function Claimed(refs: seq<Ref>): seq<string> {
    if refs == [] then []
    else
      var before, id := Claimed(refs[..|refs| - 1]), refs[|refs| - 1].id;
      if id in before then before else before + [id]
  }

  lemma {:induction false} ClaimedAre(refs: seq<Ref>)
    ensures forall id :: id in Claimed(refs) <==> PlansFor(refs, id) != []
    ensures forall i, j :: 0 <= i < j < |Claimed(refs)| ==> Claimed(refs)[i] != Claimed(refs)[j]
  {
    if refs != [] {
      ClaimedAre(refs[..|refs| - 1]);
    }
  }

  lemma {:induction false} PlansForConcat(a: seq<Ref>, b: seq<Ref>, id: string)
    ensures PlansFor(a + b, id) == PlansFor(a, id) + PlansFor(b, id)
  {
    if b == [] {
      assert a + b == a;
    } else {
      var n := |b| - 1;
      assert (a + b)[..|a + b| - 1] == a + b[..n];
      PlansForConcat(a, b[..n], id);
    }
  }

  /** Every claim counts, as often as it is made and in scan order. */
  lemma {:induction false} PlansForOne(r: Ref, id: string)
    ensures PlansFor([r], id) == if r.id == id then [r.plan] else []
  {
    assert [r][..0] == [];
  }

  predicate Claims(refs: seq<Ref>, id: string) {
    exists r :: r in refs && r.id == id
  }

  /** The plans for a bug are exactly those that claim it, each as often as it does. */
  lemma {:induction false} PlansForAre(refs: seq<Ref>, id: string)
    ensures forall p :: p in PlansFor(refs, id) <==> Ref(id, p) in refs
    ensures PlansFor(refs, id) != [] <==> Claims(refs, id)
    ensures forall p :: multiset(PlansFor(refs, id))[p] == multiset(refs)[Ref(id, p)]
  {
    PlansForCount(refs, id);
    forall p ensures p in PlansFor(refs, id) <==> Ref(id, p) in refs {
      assert p in multiset(PlansFor(refs, id)) <==> Ref(id, p) in multiset(refs);
    }
    if PlansFor(refs, id) != [] {
      assert PlansFor(refs, id)[0] in PlansFor(refs, id);
    }
    if r :| r in refs && r.id == id {
      assert r == Ref(id, r.plan);
    }
  }

  lemma {:induction false} PlansForCount(refs: seq<Ref>, id: string)
    ensures forall p :: multiset(PlansFor(refs, id))[p] == multiset(refs)[Ref(id, p)]
  {
    if refs != [] {
      var n := |refs| - 1;
      PlansForCount(refs[..n], id);
      assert refs == refs[..n] + [refs[n]];
      assert multiset(refs) == multiset(refs[..n]) + multiset{refs[n]};
    }
  }

  /** `k` is the first claim of the bug. */
  predicate FirstClaim(refs: seq<Ref>, id: string, k: nat) {
    k < |refs| && refs[k].id == id && forall i :: 0 <= i < k ==> refs[i].id != id
  }

  lemma {:induction false} NoPlans(refs: seq<Ref>, id: string)
    requires forall i :: 0 <= i < |refs| ==> refs[i].id != id
    ensures PlansFor(refs, id) == []
  {
    PlansForAre(refs, id);
  }

  lemma FirstPlan(refs: seq<Ref>, id: string, k: nat)
    requires FirstClaim(refs, id, k)
    ensures PlansFor(refs, id) != [] && PlansFor(refs, id)[0] == refs[k].plan
  {
    hide PlansFor;
    assert refs == refs[..k] + ([refs[k]] + refs[k + 1..]);
    PlansForConcat(refs[..k], [refs[k]] + refs[k + 1..], id);
    PlansForConcat([refs[k]], refs[k + 1..], id);
    NoPlans(refs[..k], id);
    PlansForOne(refs[k], id);
  }

  lemma {:induction false} ClaimExists(refs: seq<Ref>, id: string) returns (k: nat)
    requires Claims(refs, id)
    ensures FirstClaim(refs, id, k)
  {
    if refs[0].id == id {
      k := 0;
    } else {
      assert refs == [refs[0]] + refs[1..];
      k := ClaimExists(refs[1..], id);
      k := k + 1;
    }
  }

  lemma NotClaimed(refs: seq<Ref>, id: string)
    requires !Claims(refs, id)
    ensures forall i :: 0 <= i < |refs| ==> refs[i].id != id
  {
    forall i | 0 <= i < |refs| ensures refs[i].id != id { assert refs[i] in refs; }
  }

  /** The claimed bugs come in the order of their first claims. */
  lemma {:induction false} ClaimedInOrder(refs: seq<Ref>)
    ensures forall id :: id in Claimed(refs) <==> Claims(refs, id)
    ensures forall i, j, a: nat, b: nat ::
              (0 <= i < j < |Claimed(refs)| && FirstClaim(refs, Claimed(refs)[i], a)
               && FirstClaim(refs, Claimed(refs)[j], b)) ==> a < b
  {
    if refs != [] {
      var n := |refs| - 1;
      var front, ids := refs[..n], Claimed(refs[..n]);
      assert refs == front + [refs[n]];
      ClaimedInOrder(front);
      forall i, j, a: nat, b: nat | 0 <= i < j < |Claimed(refs)| && FirstClaim(refs, Claimed(refs)[i], a)
                          && FirstClaim(refs, Claimed(refs)[j], b)
        ensures a < b
      {
        assert ids[i] in ids;
        var c := ClaimExists(front, ids[i]);
        assert a == c;
        if j < |ids| {
          assert ids[j] in ids;
          var d := ClaimExists(front, ids[j]);
          assert b == d;
        } else {
          NotClaimed(front, refs[n].id);
        }
      }
    }
  }

  /** A plan is among those of a bug exactly when it claims the bug, as often as it does, and the
      first one is that of the first claim. */
  ghost predicate Collected(refs: seq<Ref>, claims: map<string, seq<string>>) {
    && (forall id, p :: id in claims && p in claims[id] <==> Ref(id, p) in refs)
    && (forall id, p :: id in claims ==> multiset(claims[id])[p] == multiset(refs)[Ref(id, p)])
    && (forall id, k: nat :: FirstClaim(refs, id, k) ==>
          id in claims && claims[id] != [] && claims[id][0] == refs[k].plan)
  }

  /** What is collected for each bug: exactly the plans that claim it, as often as they do and
      in scan order, the first claim first. */
  method CollectClaims(refs: seq<Ref>) returns (order: seq<string>, claims: map<string, seq<string>>)
    ensures order == Claimed(refs)
    ensures forall id :: id in claims <==> Claims(refs, id)
    ensures forall id :: id in claims ==> claims[id] == PlansFor(refs, id)
    ensures Collected(refs, claims)
  {
    order, claims := [], map[];
    for n := 0 to |refs|
      invariant order == Claimed(refs[..n])
      invariant forall id :: id in claims <==> PlansFor(refs[..n], id) != []
      invariant forall id :: id in claims ==> claims[id] == PlansFor(refs[..n], id)
    {
      var r := refs[n];
      ClaimedAre(refs[..n]);
      assert refs[..n + 1][..n] == refs[..n];
      if r.id !in claims {
        order := order + [r.id];
      }
      claims := claims[r.id := (if r.id in claims then claims[r.id] else []) + [r.plan]];
    }
    assert refs[..|refs|] == refs;
    CollectedClaims(refs, claims);
  }

  lemma CollectedClaims(refs: seq<Ref>, claims: map<string, seq<string>>)
    requires forall id :: id in claims <==> PlansFor(refs, id) != []
    requires forall id :: id in claims ==> claims[id] == PlansFor(refs, id)
    ensures forall id :: id in claims <==> Claims(refs, id)
    ensures Collected(refs, claims)
  {
    hide PlansFor;
    forall id
      ensures id in claims <==> Claims(refs, id)
      ensures forall p :: p in PlansFor(refs, id) <==> Ref(id, p) in refs
      ensures forall p :: multiset(PlansFor(refs, id))[p] == multiset(refs)[Ref(id, p)]
    {
      PlansForAre(refs, id);
    }
    forall id, p | Ref(id, p) in refs ensures id in claims && p in claims[id] {
      assert p in PlansFor(refs, id);
    }
    forall id, k: nat | FirstClaim(refs, id, k)
      ensures id in claims && claims[id] != [] && claims[id][0] == refs[k].plan
    {
      FirstPlan(refs, id, k);
    }
  }

  // ---- The tracker ----

  function FoundIn(file: nat, entries: seq<Entry>): (r: seq<Found>) {
    seq(|entries|, i requires 0 <= i < |entries| => Found(file, entries[i]))
  }

  function ParseDir(files: Tracker): seq<Found> {
    if files == [] then []
    else
      var n := |files| - 1;
      ParseDir(files[..n]) + FoundIn(n, EntriesFrom(Segments(files[n]), 1))
  }

  method ParseBugTrackerDir(files: Tracker) returns (found: seq<Found>)
    ensures found == ParseDir(files)
  {
    found := [];
    for n := 0 to |files|
      invariant found == ParseDir(files[..n])
    {
      var entries := ParseBugEntries(files[n]);
      assert files[..n + 1][..n] == files[..n];
      found := found + FoundIn(n, entries);
    }
    assert files[..|files|] == files;
  }

  predicate Before(a: Found, b: Found) {
    a.file < b.file || (a.file == b.file && a.entry.lineno < b.entry.lineno)
  }

  /** Every entry stands at a header, and no two at the same one. */
  lemma {:induction false} FoundPlaces(files: Tracker)
    ensures forall i :: 0 <= i < |ParseDir(files)| ==>
              var x := ParseDir(files)[i]; x.file < |files| && IsHeader(Segments(files[x.file]), x.entry.lineno)
    ensures forall i, j :: 0 <= i < j < |ParseDir(files)| ==> Before(ParseDir(files)[i], ParseDir(files)[j])
  {
    hide Segments, EntriesFrom;
    if files != [] {
      var n := |files| - 1;
      FoundPlaces(files[..n]);
      var segs := Segments(files[n]);
      EntryLines(segs, 1);
      forall i | 0 <= i < |EntriesFrom(segs, 1)|
        ensures IsHeader(segs, EntriesFrom(segs, 1)[i].lineno)
      {
        var k := EntryIsHeader(segs, 1, i);
        assert LineOf(segs, k) == EntriesFrom(segs, 1)[i].lineno;
      }
    }
  }

  /** The place of the last entry with this id, or -1. */
  function LastWith(found: seq<Found>, id: string): (k: int)
    ensures -1 <= k < |found|
    ensures k >= 0 ==> found[k].entry.header.id == id
    ensures forall i :: k < i < |found| ==> found[i].entry.header.id != id
  {
    if found == [] then -1
    else if found[|found| - 1].entry.header.id == id then |found| - 1
    else LastWith(found[..|found| - 1], id)
  }

  // ---- Drift ----

  predicate HasMarker(e: Entry) {
    ClassifyBugExclusion(e.body) == SupersededByPlan
  }

  function DeclaredTarget(e: Entry): string {
    match ExtractSupersedeTarget(e.body)
    case Some(t) => t
    case None => ""
  }

  function StripSlashes(t: string): (r: string) {
    if t != "" && t[|t| - 1] == '/' then StripSlashes(t[..|t| - 1]) else t
  }

  function LastPart(t: string): string {
    if t == "" || t[|t| - 1] == '/' then "" else LastPart(t[..|t| - 1]) + [t[|t| - 1]]
  }

  /** The plan a marker points at. */
  function TargetName(t: string): string {
    LastPart(StripSlashes(t))
  }

  function PlanIn(e: Entry): string {
    TargetName(DeclaredTarget(e))
  }

  predicate IsMissing(refs: seq<Ref>, found: seq<Found>, id: string) {
    var k := LastWith(found, id);
    PlansFor(refs, id) != [] && k >= 0 && !found[k].entry.header.fixed && !HasMarker(found[k].entry)
  }

  /** Direction A: a claimed bug whose marker names none of its plans. */
  predicate IsMisdirected(refs: seq<Ref>, found: seq<Found>, id: string) {
    var k := LastWith(found, id);
    && PlansFor(refs, id) != [] && k >= 0 && !found[k].entry.header.fixed && HasMarker(found[k].entry)
    && PlanIn(found[k].entry) !in PlansFor(refs, id)
  }

  /** Direction B: an entry with a marker for a bug that nobody claims. */
  predicate IsUnclaimed(refs: seq<Ref>, x: Found) {
    HasMarker(x.entry) && PlansFor(refs, x.entry.header.id) == []
  }

  function MissingAmong(ids: seq<string>, refs: seq<Ref>, found: seq<Found>): seq<Missing> {
    if ids == [] then []
    else
      var id := ids[|ids| - 1];
      MissingAmong(ids[..|ids| - 1], refs, found)
      + if IsMissing(refs, found, id) then
          var x := found[LastWith(found, id)];
          [Missing(id, x.file, x.entry.lineno, PlansFor(refs, id)[0])]
        else []
  }

  function MisdirectedAmong(ids: seq<string>, refs: seq<Ref>, found: seq<Found>): seq<Orphan> {
    if ids == [] then []
    else
      var id := ids[|ids| - 1];
      MisdirectedAmong(ids[..|ids| - 1], refs, found)
      + if IsMisdirected(refs, found, id) then
          var x := found[LastWith(found, id)];
          [Orphan(id, x.file, x.entry.lineno, DeclaredTarget(x.entry), PlansFor(refs, id))]
        else []
  }

  function UnclaimedIn(refs: seq<Ref>, found: seq<Found>): seq<Orphan> {
    if found == [] then []
    else
      var x := found[|found| - 1];
      UnclaimedIn(refs, found[..|found| - 1])
      + if IsUnclaimed(refs, x) then
          var target := ExtractSupersedeTarget(x.entry.body);
          [Orphan(x.entry.header.id, x.file, x.entry.lineno,
                  if target.Some? then target.value else "(unparseable)", [])]
        else []
  }

  /** The orphans of direction A are exactly the misdirected bugs among the ids. */
  lemma {:induction false} MisdirectedMembers(ids: seq<string>, refs: seq<Ref>, found: seq<Found>, id: string)
    ensures (exists o :: o in MisdirectedAmong(ids, refs, found) && o.id == id)
            <==> id in ids && IsMisdirected(refs, found, id)
  {
    hide IsMisdirected, PlansFor, DeclaredTarget;
    if ids != [] {
      var n := |ids| - 1;
      var front := MisdirectedAmong(ids[..n], refs, found);
      MisdirectedMembers(ids[..n], refs, found, id);
      assert ids == ids[..n] + [ids[n]];
      if IsMisdirected(refs, found, ids[n]) {
        var all := MisdirectedAmong(ids, refs, found);
        assert all[|front|] in all && all[|front|].id == ids[n];
        assert forall o :: o in front ==> o in all;
      }
    }
  }

  /** The orphans of direction B are exactly the marked entries that nobody claims, by place. */
  lemma {:induction false} UnclaimedMembers(refs: seq<Ref>, found: seq<Found>, file: nat, lineno: nat)
    ensures (exists o :: o in UnclaimedIn(refs, found) && o.file == file && o.lineno == lineno)
            <==> exists x :: x in found && IsUnclaimed(refs, x) && x.file == file && x.entry.lineno == lineno
  {
    hide IsUnclaimed, ExtractSupersedeTarget;
    if found != [] {
      var n := |found| - 1;
      var front, all := UnclaimedIn(refs, found[..n]), UnclaimedIn(refs, found);
      UnclaimedMembers(refs, found[..n], file, lineno);
      assert found == found[..n] + [found[n]];
      assert forall o :: o in front ==> o in all;
      if IsUnclaimed(refs, found[n]) {
        assert all[|front|] in all;
      }
    }
  }

  method FindSupersedeDrift(refs: seq<Ref>, files: Tracker) returns (missing: seq<Missing>, orphans: seq<Orphan>)
    ensures var found := ParseDir(files);
            && missing == MissingAmong(Claimed(refs), refs, found)
            && orphans == MisdirectedAmong(Claimed(refs), refs, found) + UnclaimedIn(refs, found)
  {
    hide ParseDir, PlansFor, Claimed, TargetName, ExtractSupersedeTarget, ClassifyBugExclusion, Collected, Claims;
    var order, claims := CollectClaims(refs);
    var found := ParseBugTrackerDir(files);
    var byId := IndexById(found);
    missing, orphans := [], [];
    for n := 0 to |order|
      invariant missing == MissingAmong(order[..n], refs, found)
      invariant orphans == MisdirectedAmong(order[..n], refs, found)
    {
      var id := order[n];
      assert order[..n + 1][..n] == order[..n];
      ClaimedAre(refs);
      PlansForAre(refs, id);
      assert order[n] in order;
      var planRefs := claims[id];
      if id !in byId {
        continue;
      }
      var x := byId[id];
      if x.entry.header.fixed {
        continue;
      }
      if ClassifyBugExclusion(x.entry.body) == SupersededByPlan {
        var target := DeclaredTarget(x.entry);
        if TargetName(target) !in planRefs {
          orphans := orphans + [Orphan(id, x.file, x.entry.lineno, target, planRefs)];
        }
      } else {
        missing := missing + [Missing(id, x.file, x.entry.lineno, planRefs[0])];
      }
    }
    assert order[..|order|] == order;
    var unclaimed := FindUnclaimed(refs, found, claims);
    orphans := orphans + unclaimed;
  }

  method FindUnclaimed(refs: seq<Ref>, found: seq<Found>, claims: map<string, seq<string>>)
    returns (orphans: seq<Orphan>)
    requires forall id :: id in claims <==> Claims(refs, id)
    ensures orphans == UnclaimedIn(refs, found)
  {
    hide PlansFor, ExtractSupersedeTarget, ClassifyBugExclusion;
    orphans := [];
    for n := 0 to |found|
      invariant orphans == UnclaimedIn(refs, found[..n])
    {
      var x := found[n];
      PlansForAre(refs, x.entry.header.id);
      assert found[..n + 1][..n] == found[..n];
      if ClassifyBugExclusion(x.entry.body) != SupersededByPlan || x.entry.header.id in claims {
        continue;
      }
      var target := ExtractSupersedeTarget(x.entry.body);
      orphans := orphans + [Orphan(x.entry.header.id, x.file, x.entry.lineno,
                                   if target.Some? then target.value else "(unparseable)", [])];
    }
    assert found[..|found|] == found;
  }

  lemma LastWithSnoc(found: seq<Found>, n: nat, id: string)
    requires n < |found|
    ensures LastWith(found[..n + 1], id) == if found[n].entry.header.id == id then n else LastWith(found[..n], id)
  {
    assert found[..n + 1][..n] == found[..n];
  }

  /** Later entries with an id replace earlier ones. */
  method IndexById(found: seq<Found>) returns (byId: map<string, Found>)
    ensures forall id :: id in byId <==> LastWith(found, id) >= 0
    ensures forall id :: id in byId ==> byId[id] == found[LastWith(found, id)]
  {
    hide LastWith;
    byId := map[];
    for n := 0 to |found|
      invariant forall id :: id in byId <==> LastWith(found[..n], id) >= 0
      invariant forall id :: id in byId ==> byId[id] == found[LastWith(found[..n], id)]
    {
      forall id {
        LastWithSnoc(found, n, id);
      }
      byId := byId[found[n].entry.header.id := found[n]];
    }
    assert found[..|found|] == found;
  }
}
