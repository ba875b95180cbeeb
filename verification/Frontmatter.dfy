/** The frontmatter of a plan file, by lines, and the edits that depend on blocks. */
module Frontmatter {
  import opened Options

  /** A line by its kind: a `---` fence; `name:` at the start of the line and the rest of
      it; a line that begins with a space or tab; white space only; anything else. */
  datatype Line =
    | Fence
    | Key(name: string, rest: string)
    | Indented(text: string)
    | Blank(text: string)
    | Other(text: string)

  type Lines = seq<Line>

  // ---- Fences ----

  /** The frontmatter is `file[1..closing]`. */
  ghost predicate ClosesAt(file: Lines, closing: nat) {
    0 < closing < |file| && file[0] == Fence && file[closing] == Fence && Fence !in file[1..closing]
  }

  method ExtractFrontmatterSlice(file: Lines) returns (closing: Option<nat>)
    ensures closing.Some? ==> ClosesAt(file, closing.value)
    ensures closing.None? ==> forall k :: !ClosesAt(file, k)
    ensures closing.Some? <==> |file| > 0 && file[0] == Fence && exists k :: 1 <= k < |file| && file[k] == Fence
    ensures closing.Some? ==> 1 <= closing.value < |file| && file[closing.value] == Fence
                              && forall k :: 1 <= k < closing.value ==> file[k] != Fence
  {
    if file == [] || file[0] != Fence {
      return None;
    }
    for i := 1 to |file|
      invariant Fence !in file[1..i] && forall k :: 1 <= k < i ==> file[k] != Fence
    {
      if file[i] == Fence {
        return Some(i);
      }
      assert file[1..i + 1] == file[1..i] + [file[i]];
    }
    closing := None;
  }

  function Reassemble(file: Lines, patched: Lines, closing: nat): Lines
    requires 0 < closing <= |file|
  {
    file[..1] + patched + file[closing..]
  }

  /** What a patch may not touch: the fences and the body. */
  function Outside(file: Lines, closing: nat): (Lines, Lines)
    requires 0 < closing <= |file|
  {
    (file[..1], file[closing..])
  }

  /** Splicing keeps everything outside the fences, and without a fence among the new
      lines the result has exactly these lines for its frontmatter. */
  lemma ReassembleRoundTrip(file: Lines, patched: Lines, closing: nat)
    requires ClosesAt(file, closing)
    ensures var r := Reassemble(file, patched, closing);
            && Outside(r, 1 + |patched|) == Outside(file, closing)
            && (Fence !in patched <==> ClosesAt(r, 1 + |patched|))
            && r[1..1 + |patched|] == patched
  {
    var r := Reassemble(file, patched, closing);
    assert r[1..1 + |patched|] == patched && r[1 + |patched|..] == file[closing..] && r[..1] == file[..1];
    assert r[1 + |patched|] == file[closing] && r[0] == file[0];
  }

  // ---- Blocks ----

  /** The first line at or after `k` that is not blank. */
  function NextContent(fm: Lines, k: nat): (j: nat)
    requires k <= |fm|
    ensures k <= j <= |fm| && (forall i :: k <= i < j ==> fm[i].Blank?) && (j < |fm| ==> !fm[j].Blank?)
    decreases |fm| - k
  {
    if k < |fm| && fm[k].Blank? then NextContent(fm, k + 1) else k
  }

  /** Position `k` is still within the block above it: the next content is indented. */
  predicate Continues(fm: Lines, k: nat)
    requires k <= |fm|
  {
    NextContent(fm, k) < |fm| && fm[NextContent(fm, k)].Indented?
  }

  /** `k` is where the block of the line `anchor` ends. */
  predicate EndsBlock(fm: Lines, anchor: nat, k: nat)
    requires anchor < |fm|
  {
    anchor < k <= |fm| && !Continues(fm, k) && forall i :: anchor < i < k ==> Continues(fm, i)
  }

  /** `at` is the place for a new key: behind the block of the first `after` line, or at
      the end when there is none. */
  predicate InsertionPoint(fm: Lines, after: Option<string>, at: nat) {
    if after.Some? && exists i :: 0 <= i < |fm| && IsKey(fm[i], after.value) then
      exists anchor :: 0 <= anchor < |fm| && FirstKey(fm, after.value, anchor) && EndsBlock(fm, anchor, at)
    else
      at == |fm|
  }

  predicate IsKey(line: Line, key: string) {
    line.Key? && line.name == key
  }

  predicate FirstKey(fm: Lines, key: string, i: nat) {
    i < |fm| && IsKey(fm[i], key) && forall j :: 0 <= j < i ==> !IsKey(fm[j], key)
  }

  lemma ContentAbove(fm: Lines, k: nat, j: nat)
    requires k <= j <= |fm| && NextContent(fm, k) >= j
    ensures NextContent(fm, j) == NextContent(fm, k)
    decreases j - k
  {
    if k < j {
      ContentAbove(fm, k + 1, j);
    }
  }

  /** The next content from `k` on is indented. */
  predicate IndentedNext(fm: Lines, k: nat) {
    exists j :: k <= j < |fm| && fm[j].Indented? && forall i :: k <= i < j ==> fm[i].Blank?
  }

  lemma ContinuesIff(fm: Lines, k: nat)
    requires k <= |fm|
    ensures Continues(fm, k) <==> IndentedNext(fm, k)
  {
    var n := NextContent(fm, k);
    assert n < |fm| ==> !fm[n].Blank?;
  }

  /** The place for a new key, line by line: at the end, unless there is a line of the anchor; then
      behind the first one, its indented lines and the blank lines between them, but not behind
      blank lines that nothing indented follows. */
  lemma InsertionPointIff(fm: Lines, after: Option<string>, at: nat)
    requires at <= |fm|
    ensures InsertionPoint(fm, after, at) <==>
            if after.None? || forall i :: 0 <= i < |fm| ==> !(fm[i].Key? && fm[i].name == after.value)
            then at == |fm|
            else exists a: nat :: BehindBlock(fm, after.value, a, at)
  {
    hide Continues, IndentedNext;
    if after.Some? {
      forall a: nat
        ensures FirstKey(fm, after.value, a) && EndsBlock(fm, a, at) <==> BehindBlock(fm, after.value, a, at)
      {
        if a < at && fm[a].Key? {
          EndsBlockIff(fm, a, at);
        }
      }
    }
  }

  lemma BlankPasses(fm: Lines, k: nat)
    requires k < |fm| && fm[k].Blank?
    ensures IndentedNext(fm, k) <==> IndentedNext(fm, k + 1)
  {
    if j :| k <= j < |fm| && fm[j].Indented? && forall i :: k <= i < j ==> fm[i].Blank? {
      assert k + 1 <= j;
    }
    if j :| k + 1 <= j < |fm| && fm[j].Indented? && forall i :: k + 1 <= i < j ==> fm[i].Blank? {
      assert forall i :: k <= i < j ==> fm[i].Blank?;
    }
  }

  /** `at` is behind the first line of the key and what belongs to it by indentation. */
  predicate BehindBlock(fm: Lines, key: string, a: nat, at: nat) {
    && a < at <= |fm| && fm[a].Key? && fm[a].name == key
    && (forall i :: 0 <= i < a ==> !(fm[i].Key? && fm[i].name == key))
    && (forall i :: a < i < at ==> fm[i].Indented? || fm[i].Blank?)
    && !fm[at - 1].Blank? && !IndentedNext(fm, at)
  }

  lemma EndsBlockIff(fm: Lines, a: nat, at: nat)
    requires a < at <= |fm| && fm[a].Key?
    ensures EndsBlock(fm, a, at) <==>
            && (forall i :: a < i < at ==> fm[i].Indented? || fm[i].Blank?)
            && !fm[at - 1].Blank? && !IndentedNext(fm, at)
  {
    hide Continues;
    forall k | 0 <= k <= |fm| ensures Continues(fm, k) <==> IndentedNext(fm, k) { ContinuesIff(fm, k); }
    if EndsBlock(fm, a, at) {
      forall i | a < i < at ensures fm[i].Indented? || fm[i].Blank? {
        assert IndentedNext(fm, i);
      }
      if fm[at - 1].Blank? {
        BlankPasses(fm, at - 1);
      }
    }
    if (forall i :: a < i < at ==> fm[i].Indented? || fm[i].Blank?) && !fm[at - 1].Blank? {
      forall i | a < i < at ensures IndentedNext(fm, i) {
        WithinBlock(fm, i, at);
      }
    }
  }

  lemma {:induction false} WithinBlock(fm: Lines, i: nat, at: nat)
    requires i < at <= |fm| && fm[at - 1].Indented? && forall k :: i <= k < at ==> fm[k].Indented? || fm[k].Blank?
    ensures IndentedNext(fm, i)
    decreases at - i
  {
    if fm[i].Blank? {
      WithinBlock(fm, i + 1, at);
      var j :| i + 1 <= j < |fm| && fm[j].Indented? && forall k :: i + 1 <= k < j ==> fm[k].Blank?;
    }
  }

  method SkipBlock(fm: Lines, anchor: nat) returns (at: nat)
    requires anchor < |fm|
    ensures EndsBlock(fm, anchor, at)
  {
    at := anchor + 1;
    while at < |fm|
      invariant anchor < at <= |fm| && forall i :: anchor < i < at ==> Continues(fm, i)
    {
      if fm[at].Blank? {
        var j := at + 1;
        while j < |fm| && fm[j].Blank?
          invariant at < j <= |fm| && forall i :: at <= i < j ==> fm[i].Blank?
        {
          j := j + 1;
        }
        if j < |fm| && fm[j].Indented? {
          forall i | at <= i < j ensures Continues(fm, i) { ContentAbove(fm, at, i); }
          at := j;
        } else {
          break;
        }
      } else if fm[at].Indented? {
        at := at + 1;
      } else {
        break;
      }
    }
  }

  /** Adds one line, behind the whole block of the anchor or at the end. */
  method InsertKey(fm: Lines, key: string, value: string, after: Option<string>) returns (r: Lines)
    ensures exists at: nat ::
              at <= |fm| && InsertionPoint(fm, after, at) && r == fm[..at] + [Key(key, value)] + fm[at..]
  {
    if after.Some? {
      var i := 0;
      while i < |fm| && !IsKey(fm[i], after.value)
        invariant i <= |fm| && forall j :: 0 <= j < i ==> !IsKey(fm[j], after.value)
      {
        i := i + 1;
      }
      if i < |fm| {
        assert FirstKey(fm, after.value, i);
        var insertAt := SkipBlock(fm, i);
        assert InsertionPoint(fm, after, insertAt);
        return fm[..insertAt] + [Key(key, value)] + fm[insertAt..];
      }
    }
    assert InsertionPoint(fm, after, |fm|);
    r := fm[..|fm|] + [Key(key, value)] + fm[|fm|..];
  }

  /** No indented block is torn: what follows the new line is not indented. */
  lemma InsertTearsNoBlock(fm: Lines, after: Option<string>, at: nat, line: Line)
    requires at <= |fm| && InsertionPoint(fm, after, at)
    ensures !Continues(fm[..at] + [line] + fm[at..], at + 1)
  {
    var r := fm[..at] + [line] + fm[at..];
    Shifted(fm, r, at);
  }

  lemma {:induction false} Shifted(fm: Lines, r: Lines, k: nat)
    requires k <= |fm| && |r| == |fm| + 1 && forall i :: k <= i < |fm| ==> r[i + 1] == fm[i]
    ensures NextContent(r, k + 1) == NextContent(fm, k) + 1
    decreases |fm| - k
  {
    if k < |fm| && fm[k].Blank? {
      Shifted(fm, r, k + 1);
    }
  }

  // ---- Removing a key ----

  /** Line `i` is a line of the key, or separated from one above it by blank and indented
      lines only. */
  predicate BelongsTo(fm: Lines, key: string, i: nat)
    requires i < |fm|
  {
    exists k :: 0 <= k <= i && IsKey(fm[k], key) && forall j :: k < j <= i ==> fm[j].Blank? || fm[j].Indented?
  }

  /** The first `n` lines less those that belong to the key. */
  function Remaining(fm: Lines, key: string, n: nat): Lines
    requires n <= |fm|
  {
    if n == 0 then [] else Remaining(fm, key, n - 1) + (if BelongsTo(fm, key, n - 1) then [] else [fm[n - 1]])
  }

  lemma BelongsStep(fm: Lines, key: string, i: nat)
    requires i < |fm|
    ensures BelongsTo(fm, key, i) <==>
            IsKey(fm[i], key) || (i > 0 && BelongsTo(fm, key, i - 1) && (fm[i].Blank? || fm[i].Indented?))
  {
    if BelongsTo(fm, key, i) && !IsKey(fm[i], key) {
      var k :| 0 <= k <= i && IsKey(fm[k], key) && forall j :: k < j <= i ==> fm[j].Blank? || fm[j].Indented?;
      assert k < i && (fm[i].Blank? || fm[i].Indented?);
    }
  }

  method RemoveKey(fm: Lines, key: string) returns (r: Lines)
    ensures r == Remaining(fm, key, |fm|)
  {
    hide BelongsTo;
    r := [];
    var skipping := false;
    for i := 0 to |fm|
      invariant r == Remaining(fm, key, i)
      invariant skipping <==> i > 0 && BelongsTo(fm, key, i - 1)
    {
      var line := fm[i];
      BelongsStep(fm, key, i);
      if skipping {
        if line.Blank? || line.Indented? {
          continue;
        }
        skipping := false;
      }
      if IsKey(line, key) {
        skipping := true;
        continue;
      }
      r := r + [line];
    }
  }

  /** Afterwards the key is gone. */
  lemma {:induction false} RemainingHasNoKey(fm: Lines, key: string, n: nat)
    requires n <= |fm|
    ensures forall line :: line in Remaining(fm, key, n) ==> !IsKey(line, key)
  {
    hide BelongsTo;
    if n > 0 {
      RemainingHasNoKey(fm, key, n - 1);
      BelongsStep(fm, key, n - 1);
    }
  }

  /** Nothing goes where nothing belongs to the key, and otherwise something does. */
  lemma {:induction false} RemainingBetween(fm: Lines, key: string, m: nat, n: nat)
    requires m <= n <= |fm|
    ensures |Remaining(fm, key, n)| <= |Remaining(fm, key, m)| + (n - m)
    ensures (forall i :: m <= i < n ==> !BelongsTo(fm, key, i)) ==>
              Remaining(fm, key, n) == Remaining(fm, key, m) + fm[m..n]
    decreases n
  {
    hide BelongsTo;
    if m < n {
      RemainingBetween(fm, key, m, n - 1);
      assert fm[m..n] == fm[m..n - 1] + [fm[n - 1]];
    }
  }

  lemma RemainingStep(fm: Lines, key: string, i: nat)
    requires i < |fm|
    ensures Remaining(fm, key, i + 1) == Remaining(fm, key, i) + (if BelongsTo(fm, key, i) then [] else [fm[i]])
  {
  }

  /** Of a single line of a key, only that line goes exactly when no blank or indented line
      follows. */
  lemma OnlyLineGoesIff(r: Lines, key: string, at: nat)
    requires at < |r| && forall j :: 0 <= j < |r| ==> (IsKey(r[j], key) <==> j == at)
    ensures Remaining(r, key, |r|) == r[..at] + r[at + 1..]
            <==> at + 1 == |r| || (!r[at + 1].Blank? && !r[at + 1].Indented?)
  {
    hide Remaining, BelongsTo, IsKey;
    BelongsAround(r, key, at);
    RemainingBetween(r, key, 0, at);
    RemainingStep(r, key, at);
    assert Remaining(r, key, at + 1) == r[..at];
    RemainingBetween(r, key, at + 1, |r|);
    assert r[at + 1..|r|] == r[at + 1..];
    if at + 1 < |r| {
      RemainingStep(r, key, at + 1);
      RemainingBetween(r, key, at + 2, |r|);
    }
  }

  lemma BelongsAround(r: Lines, key: string, at: nat)
    requires at < |r| && forall j :: 0 <= j < |r| ==> (IsKey(r[j], key) <==> j == at)
    ensures BelongsTo(r, key, at) && (forall i :: 0 <= i < at ==> !BelongsTo(r, key, i))
    ensures Remaining(r, key, 0) == []
    ensures at + 1 < |r| ==>
              if r[at + 1].Blank? || r[at + 1].Indented? then BelongsTo(r, key, at + 1)
              else forall i :: at < i < |r| ==> !BelongsTo(r, key, i)
  {
    hide IsKey;
    BelongsStep(r, key, at);
    if at + 1 < |r| {
      BelongsStep(r, key, at + 1);
    }
  }

  /** Removing a key that was just inserted undoes the insertion exactly when there was no
      such key before, and no blank line follows the new one: a blank separator is taken for
      part of the removed value. */
  lemma RemoveUndoesInsertIff(fm: Lines, key: string, value: string, after: Option<string>, at: nat)
    requires at <= |fm| && InsertionPoint(fm, after, at)
    ensures var r := fm[..at] + [Key(key, value)] + fm[at..];
            Remaining(r, key, |r|) == fm
            <==> (forall i :: 0 <= i < |fm| ==> !IsKey(fm[i], key)) && (at == |fm| || !fm[at].Blank?)
  {
    hide Remaining;
    var r := fm[..at] + [Key(key, value)] + fm[at..];
    assert forall j :: 0 <= j < |r| && j != at ==> r[j] == if j < at then fm[j] else fm[j - 1];
    if forall i :: 0 <= i < |fm| ==> !IsKey(fm[i], key) {
      assert at < |fm| ==> !Continues(fm, at) && r[at + 1] == fm[at];
      OnlyLineGoesIff(r, key, at);
      assert fm == r[..at] + r[at + 1..];
    } else {
      var i :| 0 <= i < |fm| && IsKey(fm[i], key);
      RemainingHasNoKey(r, key, |r|);
      assert fm[i] in fm;
    }
  }

  /** Two inputs on which it does not: a blank line behind the place, and a key that is there
      already. */
  lemma RemoveTakesMore(first: string, key: string, was: string, value: string, blank: string)
    requires first != key
    ensures var fm := [Key(first, was), Blank(blank)];
            InsertionPoint(fm, Some(first), 1)
            && Remaining(fm[..1] + [Key(key, value)] + fm[1..], key, 3) == [Key(first, was)]
    ensures var fm := [Key(key, was)];
            InsertionPoint(fm, None, 1) && Remaining(fm[..1] + [Key(key, value)] + fm[1..], key, 2) == []
  {
    hide Remaining, BelongsTo;
    var fm, gm := [Key(first, was), Blank(blank)], [Key(key, was)];
    assert FirstKey(fm, first, 0) && NextContent(fm, 1) == 2 && EndsBlock(fm, 0, 1) && IsKey(fm[0], first);
    var r, s := fm[..1] + [Key(key, value)] + fm[1..], gm[..1] + [Key(key, value)] + gm[1..];
    assert |r| == 3 && |s| == 2 && r[2].Blank?;
    StepByStep(r, key, 0);
    StepByStep(r, key, 1);
    StepByStep(r, key, 2);
    StepByStep(s, key, 0);
    StepByStep(s, key, 1);
  }

  lemma StepByStep(fm: Lines, key: string, i: nat)
    requires i < |fm|
    ensures Remaining(fm, key, 0) == []
    ensures Remaining(fm, key, i + 1) == Remaining(fm, key, i) + (if BelongsTo(fm, key, i) then [] else [fm[i]])
    ensures BelongsTo(fm, key, i) <==>
            IsKey(fm[i], key) || (i > 0 && BelongsTo(fm, key, i - 1) && (fm[i].Blank? || fm[i].Indented?))
  {
    BelongsStep(fm, key, i);
    RemainingStep(fm, key, i);
  }

  // ---- Values that are not indented ----

  /** Neither blank, nor indented, nor a key: a list item at the start of its line, say. */
  predicate Unindented(line: Line) {
    line.Other? || line.Fence?
  }

  /** What the documentation counts to a key: everything up to the next key. */
  predicate ValueOf(fm: Lines, key: string, i: nat)
    requires i < |fm|
  {
    exists k :: 0 <= k <= i && IsKey(fm[k], key) && forall j :: k < j <= i ==> !fm[j].Key?
  }

  function DocumentedRemaining(fm: Lines, key: string, n: nat): Lines
    requires n <= |fm|
  {
    if n == 0 then [] else DocumentedRemaining(fm, key, n - 1) + (if ValueOf(fm, key, n - 1) then [] else [fm[n - 1]])
  }

  lemma ValueStep(fm: Lines, key: string, i: nat)
    requires i < |fm|
    ensures ValueOf(fm, key, i) <==> IsKey(fm[i], key) || (i > 0 && ValueOf(fm, key, i - 1) && !fm[i].Key?)
  {
    if ValueOf(fm, key, i) && !IsKey(fm[i], key) {
      var k :| 0 <= k <= i && IsKey(fm[k], key) && forall j :: k < j <= i ==> !fm[j].Key?;
      assert k < i && !fm[i].Key?;
    }
  }

  /** An unindented line ends a removed block. */
  predicate CutShort(fm: Lines, key: string, n: nat)
    requires n <= |fm|
  {
    exists i :: 0 < i < n && BelongsTo(fm, key, i - 1) && Unindented(fm[i])
  }

  lemma {:induction false} RemainingAtMost(fm: Lines, key: string, n: nat)
    requires n <= |fm|
    ensures |Remaining(fm, key, n)| >= |DocumentedRemaining(fm, key, n)|
    ensures |Remaining(fm, key, n)| == |DocumentedRemaining(fm, key, n)| <==> !CutShort(fm, key, n)
    ensures !CutShort(fm, key, n) ==> Remaining(fm, key, n) == DocumentedRemaining(fm, key, n)
    ensures forall i :: 0 <= i < n && BelongsTo(fm, key, i) ==> ValueOf(fm, key, i)
    ensures n > 0 && !CutShort(fm, key, n) && ValueOf(fm, key, n - 1) ==> BelongsTo(fm, key, n - 1)
  {
    hide BelongsTo, ValueOf;
    if n > 0 {
      RemainingAtMost(fm, key, n - 1);
      BelongsStep(fm, key, n - 1);
      ValueStep(fm, key, n - 1);
    }
  }

  /** A key goes with all of its value, as documented, exactly when no unindented line ends
      a block that is removed. */
  lemma RemovalAsDocumentedIff(fm: Lines, key: string)
    ensures Remaining(fm, key, |fm|) == DocumentedRemaining(fm, key, |fm|) <==> !CutShort(fm, key, |fm|)
  {
    RemainingAtMost(fm, key, |fm|);
  }

  /** A list at the start of its lines is left behind without its key. */
  lemma ListStays(key: string, item: string)
    ensures var fm := [Key(key, ""), Other(item)];
            Remaining(fm, key, 2) == [Other(item)] && DocumentedRemaining(fm, key, 2) == []
  {
    hide BelongsTo, ValueOf;
    var fm := [Key(key, ""), Other(item)];
    StepByStep(fm, key, 0);
    StepByStep(fm, key, 1);
    ValueStep(fm, key, 0);
    ValueStep(fm, key, 1);
    assert DocumentedRemaining(fm, key, 1) == [];
  }

  /** A new line separates a key above it from the rest of its value exactly when the next
      content at its place is not indented and not a key. */
  lemma InsertTearsValueIff(fm: Lines, after: Option<string>, at: nat, line: Line)
    requires at <= |fm| && InsertionPoint(fm, after, at)
    ensures var r := fm[..at] + [line] + fm[at..];
            var next := NextContent(r, at + 1);
            next < |r| && !r[next].Key? <==> NextContent(fm, at) < |fm| && Unindented(fm[NextContent(fm, at)])
  {
    var r := fm[..at] + [line] + fm[at..];
    Shifted(fm, r, at);
    InsertTearsNoBlock(fm, after, at, line);
  }
}
