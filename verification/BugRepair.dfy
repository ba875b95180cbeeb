/** One round of marker repair: scan, plan, edit, rescan. */
module BugRepair {
  import opened Options
  import opened BugEntries
  import opened BugEdits
  import opened BugDrift

  // ---- The inserted line ----

  /** White space, a backtick or a comma ends the target of a marker. */
  predicate EndsTarget(c: char) {
    || c == '`' || c == ','
    || '\U{09}' <= c <= '\U{0D}' || '\U{1C}' <= c <= '\U{20}' || c == '\U{85}' || c == '\U{A0}' || c == '\U{1680}'
    || '\U{2000}' <= c <= '\U{200A}' || c == '\U{2028}' || c == '\U{2029}' || c == '\U{202F}' || c == '\U{205F}'
    || c == '\U{3000}'
  }

  /** The same by code points. */
  const TARGET_ENDS: set<int> :=
    {0x09, 0x0A, 0x0B, 0x0C, 0x0D, 0x1C, 0x1D, 0x1E, 0x1F, 0x20, 0x2C, 0x60, 0x85, 0xA0, 0x1680,
     0x2000, 0x2001, 0x2002, 0x2003, 0x2004, 0x2005, 0x2006, 0x2007, 0x2008, 0x2009, 0x200A,
     0x2028, 0x2029, 0x202F, 0x205F, 0x3000}

  lemma EndsTargetIff(c: char)
    ensures EndsTarget(c) <==> c as int in TARGET_ENDS
  {
  }

  /** The target a marker regular expression captures from the text after the colon. */
  function Captured(t: string): string {
    if t == "" || EndsTarget(t[0]) then "" else [t[0]] + Captured(t[1..])
  }

  function MarkerLine(plan: string): Line {
    Line(false, false, None, true, Some(Captured("plans/" + plan + "/`")), true, false, false)
  }

  /** The name of a plan directory. */
  predicate DirName(plan: string) {
    plan != "" && '/' !in plan
  }

  predicate Clean(plan: string) {
    forall i :: 0 <= i < |plan| ==> !EndsTarget(plan[i])
  }

  lemma {:induction false} CapturedPrefix(a: string, b: string)
    requires Clean(a) && b != "" && EndsTarget(b[0])
    ensures Captured(a + b) == a
  {
    if a == "" {
      assert a + b == b;
    } else {
      assert (a + b)[1..] == a[1..] + b;
      CapturedPrefix(a[1..], b);
    }
  }

  lemma {:induction false} LastPartOf(dir: string, name: string)
    requires '/' !in name
    ensures LastPart(dir + "/" + name) == name
  {
    var t := dir + "/" + name;
    if name == "" {
      assert t[|t| - 1] == '/';
    } else {
      var front := name[..|name| - 1];
      LastPartOf(dir, front);
      assert t[..|t| - 1] == dir + "/" + front;
    }
  }

  /** The part of a name that survives in a captured target. */
  function CleanPart(plan: string): (r: string)
    ensures r <= plan && Clean(r) && (|r| < |plan| ==> EndsTarget(plan[|r|]))
  {
    if plan == "" || EndsTarget(plan[0]) then "" else [plan[0]] + CleanPart(plan[1..])
  }

  lemma NameOf(name: string, slash: string)
    requires DirName(name) && (slash == "" || slash == "/")
    ensures TargetName("plans/" + name + slash) == name
  {
    var t := "plans" + "/" + name;
    assert "plans/" + name == t;
    assert t[|t| - 1] == name[|name| - 1] && name[|name| - 1] in name;
    assert (t + "/")[..|t|] == t && t + "" == t;
    assert StripSlashes(t) == t && StripSlashes(t + "/") == t;
    LastPartOf("plans", name);
  }

  /** The rescan reads the plan back out of the inserted line just when the name is clean. */
  lemma MarkerNamesPlanIff(plan: string)
    requires DirName(plan)
    ensures TargetName(MarkerLine(plan).target.value) == plan <==> Clean(plan)
    ensures Clean(plan) <==> forall i :: 0 <= i < |plan| ==> plan[i] as int !in TARGET_ENDS
  {
    forall i | 0 <= i < |plan| ensures EndsTarget(plan[i]) <==> plan[i] as int in TARGET_ENDS {
      EndsTargetIff(plan[i]);
    }
    assert Clean(plan) <==> forall i :: 0 <= i < |plan| ==> plan[i] as int !in TARGET_ENDS;
    hide TargetName, Captured, EndsTarget, Clean, CleanPart;
    var c := CleanPart(plan);
    CleanWhole(plan);
    if c == plan {
      CleanPlans(plan);
      CapturedPrefix("plans/" + plan + "/", "`");
      assert "plans/" + plan + "/`" == "plans/" + plan + "/" + "`";
      NameOf(plan, "/");
    } else {
      var rest := plan[|c|..] + "/`";
      CleanPlans(c);
      CapturedPrefix("plans/" + c, rest);
      assert "plans/" + plan + "/`" == "plans/" + c + rest;
      if c == "" {
        PlansAlone();
        assert "plans/" + c == "plans/";
      } else {
        assert '/' !in c;
        NameOf(c, "");
        assert "plans/" + c + "" == "plans/" + c;
      }
    }
  }

  lemma CleanWhole(plan: string)
    ensures var c := CleanPart(plan);
            && (c == plan <==> Clean(plan)) && plan == c + plan[|c|..]
            && (c != plan ==> |c| < |plan| && EndsTarget(plan[|c|]))
  {
    var c := CleanPart(plan);
    if |c| == |plan| {
      assert c == plan;
    }
  }

  lemma CleanPlans(c: string)
    requires Clean(c)
    ensures Clean("plans/" + c) && Clean("plans/" + c + "/") && EndsTarget('`')
  {
  }

  lemma PlansAlone()
    ensures TargetName("plans/") == "plans" && Clean("plans")
  {
    var p := "plans";
    assert "plans/"[..5] == p;
    assert StripSlashes("plans/") == p;
    assert p[..4] == "plan" && "plan"[..3] == "pla" && "pla"[..2] == "pl" && "pl"[..1] == "p" && "p"[..0] == "";
  }

  // ---- Planning ----

  function FixFor(m: Missing): Planned {
    Planned(m.file, Edit(m.lineno, MarkerLine(m.plan)))
  }

  method PlanAutoFixes(missing: seq<Missing>) returns (edits: seq<Planned>)
    ensures |edits| == |missing| && forall i :: 0 <= i < |edits| ==> edits[i] == FixFor(missing[i])
  {
    edits := [];
    for n := 0 to |missing|
      invariant |edits| == n && forall i :: 0 <= i < n ==> edits[i] == FixFor(missing[i])
    {
      edits := edits + [FixFor(missing[n])];
    }
  }

  // ---- Applying ----

  function EditsOf(planned: seq<Planned>, file: nat): (r: seq<Edit>)
    ensures forall e :: e in r <==> Planned(file, e) in planned
  {
    if planned == [] then []
    else
      var last := planned[|planned| - 1];
      assert planned == planned[..|planned| - 1] + [last];
      EditsOf(planned[..|planned| - 1], file) + (if last.file == file then [last.edit] else [])
  }

  function RepairedFile(lines: Lines, edits: seq<Edit>): Lines {
    InsertAll(lines, SortEdits(edits))
  }

  function Repaired(files: Tracker, planned: seq<Planned>): (r: Tracker)
    ensures |r| == |files| && forall f :: 0 <= f < |r| ==> r[f] == RepairedFile(files[f], EditsOf(planned, f))
  {
    seq(|files|, f requires 0 <= f < |files| => RepairedFile(files[f], EditsOf(planned, f)))
  }

  lemma NoEdits(lines: Lines)
    ensures RepairedFile(lines, []) == lines
  {
  }

  /** Edit `k` is the first one for the file. */
  predicate FirstEdit(edits: seq<Planned>, f: nat, k: nat) {
    k < |edits| && edits[k].file == f && forall i :: 0 <= i < k ==> edits[i].file != f
  }

  /** The first edit for `f` comes before the first one for `g`. */
  ghost predicate EditedBefore(edits: seq<Planned>, f: nat, g: nat) {
    exists a: nat, b: nat :: a < b && FirstEdit(edits, f, a) && FirstEdit(edits, g, b)
  }

  /** The files come in the order of their first edits, each once. */
  ghost predicate ByFirstEdit(edits: seq<Planned>, files: seq<nat>) {
    forall i, j :: 0 <= i < j < |files| ==> EditedBefore(edits, files[i], files[j])
  }

  lemma NextFile(edits: seq<Planned>, order: seq<nat>, n: nat, done: seq<nat>)
    requires ByFirstEdit(edits, order) && n < |order| && ByFirstEdit(edits, done)
    requires forall f :: f in done ==> f in order[..n]
    ensures ByFirstEdit(edits, done + [order[n]])
  {
    hide EditedBefore;
    forall i | 0 <= i < |done| ensures EditedBefore(edits, done[i], order[n]) {
      assert done[i] in done;
      var x :| 0 <= x < n && order[..n][x] == done[i];
      assert order[x] == done[i];
    }
  }

  class Disk {
    var files: Tracker

    /** Edits for files that do not exist are dropped. */
    method ApplyPlannedEdits(edits: seq<Planned>) returns (applied: seq<nat>)
      modifies this
      ensures files == Repaired(old(files), edits)
      ensures forall f: nat :: f in applied <==> f < |old(files)| && files[f] != old(files)[f]
      ensures ByFirstEdit(edits, applied)
    {
      hide RepairedFile, EditsOf, InsertAll, SortEdits, ByFirstEdit;
      NoFiles(edits);
      var order, byFile := GroupByFile(edits);
      applied := [];
      for n := 0 to |order|
        invariant |files| == |old(files)|
        invariant forall f :: 0 <= f < |files| ==>
                    files[f] == if f in order[..n] then RepairedFile(old(files)[f], EditsOf(edits, f))
                                else old(files)[f]
        invariant forall f: nat :: f in applied <==> f in order[..n] && f < |old(files)| && files[f] != old(files)[f]
        invariant ByFirstEdit(edits, applied)
      {
        var f := order[n];
        assert order[..n + 1] == order[..n] + [f];
        if f >= |files| {
          continue;
        }
        assert f !in order[..n];
        var lines, modified := ApplyToFile(files[f], byFile[f]);
        FoldRepair(files[f], byFile[f]);
        NextFile(edits, order, n, applied);
        if modified {
          files := files[f := lines];
          applied := applied + [f];
        }
      }
      assert order[..|order|] == order;
      forall f | 0 <= f < |files| && f !in order
        ensures RepairedFile(old(files)[f], EditsOf(edits, f)) == old(files)[f]
      {
        if EditsOf(edits, f) != [] {
          assert EditsOf(edits, f)[0] in EditsOf(edits, f);
        }
        NoEdits(old(files)[f]);
      }
    }
  }

  lemma NoFiles(edits: seq<Planned>)
    ensures ByFirstEdit(edits, [])
  {
  }

  lemma FoldRepair(lines: Lines, edits: seq<Edit>)
    ensures InsertAll(lines, SortEdits(edits)) == RepairedFile(lines, edits)
  {
  }

  lemma EditsOfSnoc(edits: seq<Planned>, n: nat, f: nat)
    requires n < |edits|
    ensures EditsOf(edits[..n + 1], f) == EditsOf(edits[..n], f) + (if edits[n].file == f then [edits[n].edit] else [])
  {
    assert edits[..n + 1][..n] == edits[..n];
  }

  lemma NewFile(edits: seq<Planned>, order: seq<nat>, n: nat)
    requires n < |edits| && ByFirstEdit(edits, order) && forall p :: p in edits[..n] ==> p.file != edits[n].file
    requires forall f :: f in order ==> exists p :: p in edits[..n] && p.file == f
    ensures ByFirstEdit(edits, order + [edits[n].file])
  {
    forall i | 0 <= i < n ensures edits[i].file != edits[n].file { assert edits[i] in edits[..n]; }
    assert FirstEdit(edits, edits[n].file, n);
    forall i | 0 <= i < |order| ensures EditedBefore(edits, order[i], edits[n].file) {
      assert order[i] in order;
      var p :| p in edits[..n] && p.file == order[i];
      var k :| 0 <= k < n && edits[..n][k] == p;
      var a := EarliestEdit(edits, order[i], k);
    }
  }

  lemma {:induction false} EarliestEdit(edits: seq<Planned>, f: nat, k: nat) returns (a: nat)
    requires k < |edits| && edits[k].file == f
    ensures a <= k && FirstEdit(edits, f, a)
  {
    a := k;
    if i :| 0 <= i < k && edits[i].file == f {
      a := EarliestEdit(edits, f, i);
    }
  }

  method GroupByFile(edits: seq<Planned>) returns (order: seq<nat>, byFile: map<nat, seq<Edit>>)
    ensures forall f :: f in order <==> f in byFile
    ensures forall f :: f in byFile <==> exists p :: p in edits && p.file == f
    ensures forall f :: f in byFile ==> byFile[f] == EditsOf(edits, f)
    ensures forall i, j :: 0 <= i < j < |order| ==> order[i] != order[j]
    ensures ByFirstEdit(edits, order)
  {
    hide EditsOf, ByFirstEdit;
    NoFiles(edits);
    order, byFile := [], map[];
    for n := 0 to |edits|
      invariant forall f :: f in order <==> f in byFile
      invariant forall f :: f in byFile <==> exists p :: p in edits[..n] && p.file == f
      invariant forall f: nat :: f in byFile ==> byFile[f] == EditsOf(edits[..n], f)
      invariant forall i, j :: 0 <= i < j < |order| ==> order[i] != order[j]
      invariant ByFirstEdit(edits, order)
    {
      var p := edits[n];
      forall f: nat {
        EditsOfSnoc(edits, n, f);
      }
      NoneOf(edits[..n], p.file);
      assert edits[..n + 1] == edits[..n] + [p];
      if p.file !in byFile {
        NewFile(edits, order, n);
        order := order + [p.file];
      }
      byFile := byFile[p.file := (if p.file in byFile then byFile[p.file] else []) + [p.edit]];
    }
    assert edits[..|edits|] == edits;
  }

  lemma NoneOf(edits: seq<Planned>, f: nat)
    ensures (forall p :: p in edits ==> p.file != f) ==> EditsOf(edits, f) == []
  {
    if EditsOf(edits, f) != [] {
      assert Planned(f, EditsOf(edits, f)[0]) in edits;
    }
  }
}
