/** Windows command lines: the quoting of arguments, and the rules by which a C
    program splits them again. */
module WindowsQuoting {

  type U16 = n: int | 0 <= n < 0x1_0000
  type Wide = seq<U16>

  const NUL: U16 := 0
  const TAB: U16 := 0x09
  const NEWLINE: U16 := 0x0A
  const VERTICAL_TAB: U16 := 0x0B
  const SPACE: U16 := 0x20
  const QUOTE: U16 := 0x22
  const BACKSLASH: U16 := 0x5C

  // ---- Parsing C command-line arguments: the published rules ----

  function LeadingBackslashes(s: Wide): (n: nat)
    ensures n <= |s| && (forall i :: 0 <= i < n ==> s[i] == BACKSLASH)
    ensures n < |s| ==> s[n] != BACKSLASH
  {
    if s == [] || s[0] != BACKSLASH then 0 else 1 + LeadingBackslashes(s[1..])
  }

  function Repeat(c: U16, n: nat): (s: Wide)
    ensures |s| == n && forall i :: 0 <= i < n ==> s[i] == c
  {
    seq(n, _ => c)
  }

  predicate IsBlank(c: U16) {
    c == SPACE || c == TAB
  }

  /** One argument and what follows it. Backslashes are literal unless they precede a quote:
      then each pair stands for one, and an odd one makes the quote literal. A quote starts or
      ends a quoted part; two quotes within a quoted part are one literal quote. A blank
      outside quoted parts ends the argument, and so does the end of the line. */
  function ParseArgument(s: Wide, quoted: bool): (r: (Wide, Wide))
    ensures |r.1| <= |s|
    ensures s != [] && s[0] != NUL && (quoted || !IsBlank(s[0])) ==> |r.1| < |s|
    decreases |s|
  {
    var n := LeadingBackslashes(s);
    if n < |s| && s[n] == QUOTE then
      if n % 2 == 1 then
        var r := ParseArgument(s[n + 1..], quoted);
        (Repeat(BACKSLASH, n / 2) + [QUOTE] + r.0, r.1)
      else if quoted && n + 1 < |s| && s[n + 1] == QUOTE then
        var r := ParseArgument(s[n + 2..], quoted);
        (Repeat(BACKSLASH, n / 2) + [QUOTE] + r.0, r.1)
      else
        var r := ParseArgument(s[n + 1..], !quoted);
        (Repeat(BACKSLASH, n / 2) + r.0, r.1)
    else if n > 0 then
      var r := ParseArgument(s[n..], quoted);
      (Repeat(BACKSLASH, n) + r.0, r.1)
    else if s == [] || s[0] == NUL || (!quoted && IsBlank(s[0])) then
      ([], s)
    else
      var r := ParseArgument(s[1..], quoted);
      ([s[0]] + r.0, r.1)
  }

  /** The arguments of a command line, after the program name. */
  function ParseArguments(s: Wide): seq<Wide>
    decreases |s|
  {
    if s == [] || s[0] == NUL then []
    else if IsBlank(s[0]) then ParseArguments(s[1..])
    else
      var r := ParseArgument(s, false);
      [r.0] + ParseArguments(r.1)
  }

  // ---- Quoting ----

  predicate NeedsQuotes(arg: Wide) {
    arg == [] || exists i :: 0 <= i < |arg| && arg[i] in {SPACE, TAB, NEWLINE, VERTICAL_TAB, QUOTE}
  }

  /** `n` backslashes and the unit after them. */
  function EscapedUnit(n: nat, c: U16): Wide {
    Repeat(BACKSLASH, if c == QUOTE then 2 * n + 1 else n) + [c]
  }

  /** The inside of a quoted argument. */
  function Escaped(arg: Wide): Wide
    decreases |arg|, 1
  {
    EscapedRun(arg, LeadingBackslashes(arg))
  }

  /** The same, given how many backslashes it begins with. */
  function EscapedRun(arg: Wide, n: nat): Wide
    requires n <= |arg|
    decreases |arg|, 0
  {
    if n == |arg| then Repeat(BACKSLASH, 2 * n) else EscapedUnit(n, arg[n]) + Escaped(arg[n + 1..])
  }

  function Quoted(arg: Wide): Wide {
    if NeedsQuotes(arg) then [QUOTE] + Escaped(arg) + [QUOTE] else arg
  }

  /** Neither empty, nor with a space, tab, newline, vertical tab or quote. */
  predicate IsBare(arg: Wide) {
    arg != [] && forall i :: 0 <= i < |arg| ==> arg[i] !in {0x20, 0x09, 0x0A, 0x0B, 0x22}
  }

  /** The text begins and ends with a quote. */
  predicate InQuotes(text: Wide) {
    |text| >= 2 && text[0] == 0x22 && text[|text| - 1] == 0x22
  }

  lemma {:induction false} EscapedGrows(arg: Wide)
    ensures |Escaped(arg)| >= |arg|
    decreases |arg|
  {
    var n := LeadingBackslashes(arg);
    if n < |arg| {
      EscapedGrows(arg[n + 1..]);
    }
  }

  /** An argument is put in quotes exactly when it is not bare. */
  lemma QuotedIff(arg: Wide)
    ensures Quoted(arg) == arg <==> IsBare(arg)
    ensures !IsBare(arg) ==> InQuotes(Quoted(arg)) && |Quoted(arg)| >= |arg| + 2
  {
    hide Escaped;
    EscapedGrows(arg);
  }

  /** A bare argument goes to the end of the line unchanged, any other in quotes. */
  predicate Appended(before: Wide, after: Wide, arg: Wide) {
    && (IsBare(arg) ==> after == before + arg)
    && (!IsBare(arg) ==> |after| >= |before| + |arg| + 2 && before <= after && InQuotes(after[|before|..]))
  }

  lemma AppendedIs(before: Wide, arg: Wide)
    ensures Appended(before, before + Quoted(arg), arg)
  {
    hide Quoted, IsBare, InQuotes;
    QuotedIff(arg);
    assert (before + Quoted(arg))[|before|..] == Quoted(arg);
  }

  /** The growing command line. */
  class CommandLine {
    var units: Wide

    constructor ()
      ensures units == []
    {
      units := [];
    }

    method Push(c: U16)
      modifies this
      ensures units == old(units) + [c]
    {
      units := units + [c];
    }

    method PushBackslashes(n: nat)
      modifies this
      ensures units == old(units) + Repeat(BACKSLASH, n)
    {
      for i := 0 to n
        invariant units == old(units) + Repeat(BACKSLASH, i)
      {
        Push(BACKSLASH);
      }
    }

    /** The backslashes of a run and the unit after them. */
    method PushUnit(n: nat, c: U16)
      modifies this
      ensures units == old(units) + EscapedUnit(n, c)
    {
      if c == QUOTE {
        PushBackslashes(n * 2 + 1);
        Push(c);
      } else {
        PushBackslashes(n);
        Push(c);
      }
    }

    method AppendQuoted(arg: Wide)
      modifies this
      ensures units == old(units) + Quoted(arg)
      ensures Appended(old(units), units, arg)
    {
      hide Escaped, LeadingBackslashes, Repeat, NeedsQuotes, EscapedUnit, Appended;
      AppendedIs(units, arg);
      if !NeedsQuotes(arg) {
        units := units + arg;
        return;
      }
      Push(QUOTE);
      ghost var goal := units + Escaped(arg);
      var i := 0;
      assert arg[0..] == arg;
      while i < |arg|
        invariant i <= |arg|
        invariant units + Escaped(arg[i..]) == goal
      {
        var numBackslashes := 0;
        ghost var start, before := i, units;
        while i < |arg| && arg[i] == BACKSLASH
          invariant start <= i <= |arg| && numBackslashes == i - start
          invariant forall k :: start <= k < i ==> arg[k] == BACKSLASH
        {
          i := i + 1;
          numBackslashes := numBackslashes + 1;
        }
        EscapedFrom(arg, start, i);
        if i == |arg| {
          PushBackslashes(numBackslashes * 2);
          break;
        }
        PushUnit(numBackslashes, arg[i]);
        i := i + 1;
      }
      LastEscaped(arg, i, units);
      assert units == goal;
      Push(QUOTE);
    }
  }

  lemma RunEscaped(s: Wide, n: nat)
    requires n <= |s| && (forall i :: 0 <= i < n ==> s[i] == BACKSLASH) && (n < |s| ==> s[n] != BACKSLASH)
    ensures Escaped(s) == if n == |s| then Repeat(BACKSLASH, 2 * n) else EscapedUnit(n, s[n]) + Escaped(s[n + 1..])
  {
    hide LeadingBackslashes, Repeat, EscapedUnit;
    RunLength(s, n);
    assert Escaped(s) == EscapedRun(s, n);
  }

  /** The rest of an argument, read up to the end of a run of backslashes. */
  lemma EscapedFrom(arg: Wide, start: nat, i: nat)
    requires start <= i <= |arg| && (forall k :: start <= k < i ==> arg[k] == BACKSLASH)
    requires i < |arg| ==> arg[i] != BACKSLASH
    ensures Escaped(arg[start..]) ==
            if i == |arg| then Repeat(BACKSLASH, (i - start) * 2)
            else EscapedUnit(i - start, arg[i]) + Escaped(arg[i + 1..])
  {
    hide Escaped, Repeat, EscapedUnit;
    var s := arg[start..];
    assert forall k :: 0 <= k < i - start ==> s[k] == arg[start + k];
    RunEscaped(s, i - start);
    if i < |arg| {
      assert s[i - start + 1..] == arg[i + 1..];
    }
  }

  lemma LastEscaped(arg: Wide, i: nat, units: Wide)
    requires i <= |arg|
    ensures i == |arg| ==> units + Escaped(arg[i..]) == units
  {
    if i == |arg| {
      assert arg[i..] == [];
    }
  }

  lemma {:induction false} RunLength(s: Wide, n: nat)
    requires n <= |s| && (forall i :: 0 <= i < n ==> s[i] == BACKSLASH) && (n < |s| ==> s[n] != BACKSLASH)
    ensures LeadingBackslashes(s) == n
  {
    if n > 0 {
      RunLength(s[1..], n - 1);
    }
  }

  // ---- Round trip ----

  /** The end of an argument: the end of the line, or a blank. */
  predicate EndsArgument(t: Wide) {
    t == [] || t[0] == NUL || t[0] == SPACE
  }

  lemma {:induction false} BackslashesThen(n: nat, t: Wide)
    requires t != [] ==> t[0] != BACKSLASH
    ensures LeadingBackslashes(Repeat(BACKSLASH, n) + t) == n
  {
    RunLength(Repeat(BACKSLASH, n) + t, n);
  }

  /** How the rules read `n` backslashes, and what comes after them. */
  lemma ParseRun(n: nat, t: Wide, quoted: bool)
    requires t != [] && t[0] != BACKSLASH
    ensures t[0] == QUOTE && n % 2 == 1 ==>
              ParseArgument(Repeat(BACKSLASH, n) + t, quoted)
              == (Repeat(BACKSLASH, n / 2) + [QUOTE] + ParseArgument(t[1..], quoted).0, ParseArgument(t[1..], quoted).1)
    ensures t[0] == QUOTE && n % 2 == 0 && !(quoted && |t| > 1 && t[1] == QUOTE) ==>
              ParseArgument(Repeat(BACKSLASH, n) + t, quoted)
              == (Repeat(BACKSLASH, n / 2) + ParseArgument(t[1..], !quoted).0, ParseArgument(t[1..], !quoted).1)
    ensures t[0] != QUOTE ==>
              ParseArgument(Repeat(BACKSLASH, n) + t, quoted)
              == (Repeat(BACKSLASH, n) + ParseArgument(t, quoted).0, ParseArgument(t, quoted).1)
  {
    var s := Repeat(BACKSLASH, n) + t;
    BackslashesThen(n, t);
    assert s[n..] == t && s[n + 1..] == t[1..];
    if n == 0 {
      assert s == t && Repeat(BACKSLASH, 0) + ParseArgument(t, quoted).0 == ParseArgument(t, quoted).0;
    }
  }

  lemma ParseEnd(t: Wide)
    requires EndsArgument(t)
    ensures ParseArgument(t, false) == ([], t)
  {
  }

  lemma ParseLiteral(c: U16, t: Wide, quoted: bool)
    requires c != BACKSLASH && c != QUOTE && c != NUL && (quoted || !IsBlank(c))
    ensures ParseArgument([c] + t, quoted) == ([c] + ParseArgument(t, quoted).0, ParseArgument(t, quoted).1)
  {
    assert ([c] + t)[1..] == t;
  }

  lemma RunClosesQuotes(n: nat, t: Wide)
    requires EndsArgument(t)
    ensures ParseArgument(Repeat(BACKSLASH, 2 * n) + [QUOTE] + t, true) == (Repeat(BACKSLASH, n), t)
  {
    hide ParseArgument, Repeat;
    ParseRun(2 * n, [QUOTE] + t, true);
    assert ([QUOTE] + t)[1..] == t;
    assert Repeat(BACKSLASH, 2 * n) + ([QUOTE] + t) == Repeat(BACKSLASH, 2 * n) + [QUOTE] + t;
    ParseEnd(t);
    assert Repeat(BACKSLASH, n) + [] == Repeat(BACKSLASH, n);
  }

  lemma RunBeforeQuote(n: nat, tail: Wide)
    ensures var r := ParseArgument(tail, true);
            ParseArgument(Repeat(BACKSLASH, 2 * n + 1) + [QUOTE] + tail, true)
            == (Repeat(BACKSLASH, n) + [QUOTE] + r.0, r.1)
  {
    hide ParseArgument, Repeat;
    var m := 2 * n + 1;
    assert m % 2 == 1 && m / 2 == n;
    ParseRun(m, [QUOTE] + tail, true);
    assert ([QUOTE] + tail)[1..] == tail;
    assert Repeat(BACKSLASH, m) + ([QUOTE] + tail) == Repeat(BACKSLASH, m) + [QUOTE] + tail;
  }

  lemma RunBeforeLiteral(n: nat, c: U16, tail: Wide, quoted: bool)
    requires c != BACKSLASH && c != QUOTE && c != NUL && (quoted || !IsBlank(c))
    ensures var r := ParseArgument(tail, quoted);
            ParseArgument(Repeat(BACKSLASH, n) + [c] + tail, quoted) == (Repeat(BACKSLASH, n) + [c] + r.0, r.1)
  {
    hide ParseArgument, Repeat;
    ParseRun(n, [c] + tail, quoted);
    ParseLiteral(c, tail, quoted);
    var r := ParseArgument(tail, quoted);
    assert Repeat(BACKSLASH, n) + ([c] + tail) == Repeat(BACKSLASH, n) + [c] + tail;
    assert Repeat(BACKSLASH, n) + ([c] + r.0) == Repeat(BACKSLASH, n) + [c] + r.0;
  }

  /** An escaped argument and its closing quote, read within a quoted part. */
  lemma {:induction false} EscapedIsRead(arg: Wide, t: Wide)
    requires NUL !in arg && EndsArgument(t)
    ensures ParseArgument(Escaped(arg) + [QUOTE] + t, true) == (arg, t)
    decreases |arg|
  {
    hide ParseArgument, Escaped, LeadingBackslashes, Repeat, EndsArgument;
    var n := LeadingBackslashes(arg);
    RunEscaped(arg, n);
    if n == |arg| {
      RunClosesQuotes(n, t);
      assert Repeat(BACKSLASH, n) == arg;
    } else {
      var c, rest := arg[n], arg[n + 1..];
      var e := Escaped(rest);
      assert c in arg && forall x :: x in rest ==> x in arg;
      EscapedIsRead(rest, t);
      assert Repeat(BACKSLASH, n) + [c] + rest == arg;
      if c == QUOTE {
        RunBeforeQuote(n, e + [QUOTE] + t);
        Regroup(Repeat(BACKSLASH, 2 * n + 1) + [c], e, [QUOTE], t);
      } else {
        RunBeforeLiteral(n, c, e + [QUOTE] + t, true);
        Regroup(Repeat(BACKSLASH, n) + [c], e, [QUOTE], t);
      }
    }
  }

  lemma Regroup(a: Wide, b: Wide, c: Wide, d: Wide)
    ensures a + b + c + d == a + (b + c + d) == a + (b + (c + d))
  {
  }

  predicate IsPlain(arg: Wide) {
    forall c :: c in arg ==> c !in {NUL, SPACE, TAB, QUOTE}
  }

  lemma {:induction false} PlainIsRead(arg: Wide, t: Wide)
    requires IsPlain(arg) && EndsArgument(t)
    ensures ParseArgument(arg + t, false) == (arg, t)
    decreases |arg|
  {
    hide ParseArgument, LeadingBackslashes;
    var n := LeadingBackslashes(arg);
    if n == |arg| {
      assert arg == Repeat(BACKSLASH, n);
      ParseEnd(t);
      if t != [] {
        ParseRun(n, t, false);
        assert Repeat(BACKSLASH, n) + [] == arg;
      } else {
        TrailingBackslashes(n);
        assert arg + t == arg;
      }
    } else {
      var c, rest := arg[n], arg[n + 1..];
      assert c in arg && forall x :: x in rest ==> x in arg;
      assert arg + t == Repeat(BACKSLASH, n) + [c] + (rest + t);
      RunBeforeLiteral(n, c, rest + t, false);
      PlainIsRead(rest, t);
      assert Repeat(BACKSLASH, n) + [c] + rest == arg;
    }
  }

  lemma TrailingBackslashes(n: nat)
    ensures ParseArgument(Repeat(BACKSLASH, n), false) == (Repeat(BACKSLASH, n), [])
  {
    RunLength(Repeat(BACKSLASH, n), n);
    assert Repeat(BACKSLASH, n)[n..] == [];
    assert ParseArgument([], false) == ([], []);
    assert Repeat(BACKSLASH, n) + [] == Repeat(BACKSLASH, n);
  }

  /** One quoted argument is read back, whatever ends it. */
  lemma QuotedIsRead(arg: Wide, t: Wide)
    requires NUL !in arg && EndsArgument(t)
    ensures ParseArgument(Quoted(arg) + t, false) == (arg, t)
    ensures Quoted(arg) != [] && Quoted(arg)[0] != NUL && !IsBlank(Quoted(arg)[0])
  {
    hide ParseArgument, Escaped;
    if NeedsQuotes(arg) {
      var tail := Escaped(arg) + [QUOTE] + t;
      assert Quoted(arg) + t == [QUOTE] + tail;
      assert Repeat(BACKSLASH, 0) + ([QUOTE] + tail) == [QUOTE] + tail && ([QUOTE] + tail)[1..] == tail;
      ParseRun(0, [QUOTE] + tail, false);
      EscapedIsRead(arg, t);
      assert Repeat(BACKSLASH, 0) + arg == arg;
    } else {
      assert arg[0] in arg;
      PlainIsRead(arg, t);
    }
  }

  function ArgumentsText(args: seq<Wide>): Wide {
    if args == [] then [] else [SPACE] + Quoted(args[0]) + ArgumentsText(args[1..])
  }

  /** Splitting the quoted arguments gives back the arguments: empty ones, backslash runs
      before quotes and at the end, and all others. */
  lemma {:induction false} ArgumentsRoundTrip(args: seq<Wide>)
    requires forall a :: a in args ==> NUL !in a
    ensures ParseArguments(ArgumentsText(args) + [NUL]) == args
    decreases |args|
  {
    if args == [] {
      assert [] + [NUL] == [NUL];
    } else {
      hide ParseArgument, ParseArguments, Quoted;
      var a, rest := args[0], args[1..];
      var t := ArgumentsText(rest) + [NUL];
      assert a in args && forall x :: x in rest ==> x in args;
      assert EndsArgument(t);
      ArgumentsRoundTrip(rest);
      FirstArgument(a, t);
      assert ArgumentsText(args) == [SPACE] + Quoted(a) + ArgumentsText(rest);
      Regroup([SPACE], Quoted(a), ArgumentsText(rest), [NUL]);
      assert args == [a] + rest;
    }
  }

  lemma FirstArgument(a: Wide, t: Wide)
    requires NUL !in a && EndsArgument(t)
    ensures ParseArguments([SPACE] + (Quoted(a) + t)) == [a] + ParseArguments(t)
  {
    hide ParseArgument, Quoted;
    QuotedIsRead(a, t);
    var s := Quoted(a) + t;
    assert ([SPACE] + s)[1..] == s && s[0] == Quoted(a)[0];
    assert ParseArguments([SPACE] + s) == ParseArguments(s);
  }

  lemma {:induction false} ArgumentsTextAppend(args: seq<Wide>, a: Wide)
    ensures ArgumentsText(args + [a]) == ArgumentsText(args) + [SPACE] + Quoted(a)
    decreases |args|
  {
    hide Quoted;
    if args == [] {
      assert ArgumentsText([a]) == [SPACE] + Quoted(a) + [];
    } else {
      assert (args + [a])[1..] == args[1..] + [a];
      ArgumentsTextAppend(args[1..], a);
    }
  }

  /** Bare arguments, each behind one space. */
  function Spaced(args: seq<Wide>): Wide {
    if args == [] then [] else Spaced(args[..|args| - 1]) + [0x20] + args[|args| - 1]
  }

  lemma {:induction false} BareArgumentsText(args: seq<Wide>)
    requires forall a :: a in args ==> IsBare(a)
    ensures ArgumentsText(args) == Spaced(args)
  {
    hide Quoted, IsBare;
    if args != [] {
      var n := |args| - 1;
      assert args == args[..n] + [args[n]] && forall a :: a in args[..n] ==> a in args;
      BareArgumentsText(args[..n]);
      ArgumentsTextAppend(args[..n], args[n]);
      assert args[n] in args;
      QuotedIff(args[n]);
    }
  }

  /** Bare words are written as they are. */
  predicate AsTyped(exe: Wide, args: seq<Wide>, units: Wide) {
    IsBare(exe) && (forall a :: a in args ==> IsBare(a)) ==> units == exe + Spaced(args) + [0]
  }

  lemma BareWords(exe: Wide, args: seq<Wide>)
    ensures AsTyped(exe, args, Quoted(exe) + ArgumentsText(args) + [NUL])
  {
    hide Quoted, IsBare;
    QuotedIff(exe);
    if forall a :: a in args ==> IsBare(a) {
      BareArgumentsText(args);
    }
  }

  datatype Outcome = CommandText(units: Wide) | InvalidArgument

  /** `cmdline`: the program name, the arguments, and a terminator. A NUL in an argument is
      refused; otherwise the arguments are read back from behind the program name. */
  method CmdLine(exe: Wide, args: seq<Wide>) returns (r: Outcome)
    ensures r.InvalidArgument? <==> exists a :: a in args && NUL in a
    ensures r.CommandText? ==>
              Quoted(exe) <= r.units && ParseArguments(r.units[|Quoted(exe)|..]) == args
    ensures r.CommandText? ==> AsTyped(exe, args, r.units)
  {
    hide Quoted, ParseArguments, AsTyped, Appended;
    var line := new CommandLine();
    line.AppendQuoted(exe);
    for i := 0 to |args|
      invariant fresh(line) && line.units == Quoted(exe) + ArgumentsText(args[..i])
      invariant forall k :: 0 <= k < i ==> NUL !in args[k]
    {
      line.Push(SPACE);
      if NUL in args[i] {
        return InvalidArgument;
      }
      line.AppendQuoted(args[i]);
      ArgumentsTextAppend(args[..i], args[i]);
      assert args[..i + 1] == args[..i] + [args[i]];
    }
    line.Push(NUL);
    assert args[..|args|] == args;
    ArgumentsRoundTrip(args);
    BareWords(exe, args);
    assert line.units[|Quoted(exe)|..] == ArgumentsText(args) + [NUL];
    r := CommandText(line.units);
  }
}
