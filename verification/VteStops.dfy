/** What one read of text does, and where `advance_until_terminated` stops: at the first
    position outside such reads at which the performer asks to. */
module VteStops {
  import opened VteTypes
  import opened Utf8
  import opened VteMachine
  import opened VteGround
  import opened VteChunks

  // ---- Positions, and what has been reported at them ----

  /** The machine after `k` bytes. */
  function At(c: Conf, bytes: seq<Byte>, k: nat): Conf
    requires k <= |bytes|
  {
    Run(false, c, bytes[..k])
  }

  /** What has been reported when `rest` follows: the start of a character that the next byte
      does not go on with is reported before that byte is read. */
  function Due(c: Conf, rest: seq<Byte>): Conf {
    if c.vt.partial != [] && rest != [] && !TablePrefix(c.vt.partial + [rest[0]])
    then Conf(c.vt.(partial := []), c.log + [Print(REPLACEMENT)])
    else c
  }

  lemma NothingDue(c: Conf, rest: seq<Byte>)
    requires c.vt.partial == [] || rest == []
    ensures Due(c, rest) == c
  {
  }

  function DueAt(c: Conf, bytes: seq<Byte>, k: nat): Conf
    requires k <= |bytes|
  {
    Due(At(c, bytes, k), bytes[k..])
  }

  /** Between the bytes `b` and `next`, which lead from `v` to `w` and on, the parser is within
      a stretch of text: behind a whole character, or within one; ESC ends a stretch together
      with the text before it. */
  predicate Within(v: Vt, b: Byte, w: Vt, next: Byte) {
    && v.state.Ground? && w.state.Ground?
    && if w.partial == [] then b < 0x80 || Complete(v.partial + [b])
       else next == ESC || TablePrefix(w.partial + [next])
  }

  predicate InText(c: Conf, bytes: seq<Byte>, k: nat)
    requires k <= |bytes|
  {
    0 < k < |bytes| && Within(At(c, bytes, k - 1).vt, bytes[k - 1], At(c, bytes, k).vt, bytes[k])
  }

  /** `i` is the first position outside stretches of text where the performer asks to stop,
      or the end. */
  ghost predicate StopsAt(c: Conf, bytes: seq<Byte>, stop: seq<Event> -> bool, i: nat) {
    && i <= |bytes|
    && (forall k :: 0 <= k < i && !InText(c, bytes, k) ==> !stop(DueAt(c, bytes, k).log))
    && (i < |bytes| ==> !InText(c, bytes, i) && stop(DueAt(c, bytes, i).log))
  }

  lemma DueRuns(bulk: bool, c: Conf, rest: seq<Byte>)
    requires rest != [] && AtBoundary(c.vt)
    ensures Run(bulk, Due(c, rest), rest) == Run(bulk, c, rest)
  {
    hide TablePrefix, Run, FreshByte, Complete, Partial;
    if Due(c, rest) != c {
      var b := rest[0];
      NotContinued(c.vt.partial + [b]);
      var d := FreshByte(c.vt.(partial := []), b);
      assert c.log + ([Print(REPLACEMENT)] + d.log) == c.log + [Print(REPLACEMENT)] + d.log;
      RunUncons(bulk, Due(c, rest), rest);
      RunUncons(bulk, c, rest);
    }
  }

  lemma NotContinued(p: seq<Byte>)
    requires !TablePrefix(p)
    ensures !Complete(p) && !Partial(p)
  {
  }

  /** A run may be taken up again with what is due. */
  lemma DueGoesOn(bulk: bool, c: Conf, bytes: seq<Byte>, n: nat)
    requires AtBoundary(c.vt) && n <= |bytes|
    ensures Run(bulk, Due(Run(bulk, c, bytes[..n]), bytes[n..]), bytes[n..]) == Run(bulk, c, bytes)
  {
    hide Run, AtBoundary;
    var head, rest := bytes[..n], bytes[n..];
    assert bytes == head + rest;
    RunConcat(bulk, c, head, rest);
    RunAtBoundary(bulk, c, head);
    if rest == [] {
      NothingDue(Run(bulk, c, head), rest);
    } else {
      DueRuns(bulk, Run(bulk, c, head), rest);
    }
  }

  // ---- What one read of text consumes ----

  /** Up to and with the next ESC, or up to and with the first ill-formed run before it. */
  function GroundRead(bytes: seq<Byte>): nat {
    var plain := Memchr(ESC, bytes);
    if plain == 0 then 1
    else
      var d := FromUtf8(bytes[..plain]);
      if d.stop.Invalid? then d.validUpTo + d.stop.errorLen
      else if plain < |bytes| then plain + 1
      else plain
  }

  lemma {:induction false} ValidPrefix(bs: seq<Byte>)
    ensures var d := FromUtf8(bs); FromUtf8(bs[..d.validUpTo]) == Decoded(d.chars, d.validUpTo, AllValid)
    decreases |bs|
  {
    hide FromUtf8, DecodeFirst;
    var d := FromUtf8(bs);
    if bs != [] {
      FromUtf8Step(bs);
    }
    if bs == [] || !DecodeFirst(bs).Char? {
      assert bs[..d.validUpTo] == [];
    } else {
      var Char(c, n) := DecodeFirst(bs);
      var head := bs[..d.validUpTo];
      ValidPrefix(bs[n..]);
      assert head[n..] == bs[n..][..d.validUpTo - n];
      CharIsLocal(head, bs, n);
      FromUtf8Step(head);
    }
  }

  lemma CharIsLocal(a: seq<Byte>, b: seq<Byte>, n: nat)
    requires a != [] && b != [] && n <= |a| && a <= b && DecodeFirst(b).Char? && DecodeFirst(b).len == n
    ensures DecodeFirst(a) == DecodeFirst(b)
  {
    assert a[..n] == b[..n];
  }

  /** The valid text and some bytes of what follows it. */
  lemma RunPastValid(bulk: bool, v: Vt, log: seq<Event>, bs: seq<Byte>, more: seq<Byte>)
    requires Fresh(v) && ESC !in bs
    ensures var d := FromUtf8(bs);
            Run(bulk, Conf(v, log), bs[..d.validUpTo] + more) == Run(bulk, Conf(v, log + GroundChars(d.chars)), more)
  {
    hide Run, FromUtf8;
    var d := FromUtf8(bs);
    var head := bs[..d.validUpTo];
    assert forall b :: b in head ==> b in bs;
    ValidPrefix(bs);
    RunValid(bulk, v, log, head, more);
    assert head[d.validUpTo..] + more == more;
  }

  // ---- Where a read of text leaves the machine ----

  lemma ReadEscape(bulk: bool, v: Vt, log: seq<Event>, bytes: seq<Byte>)
    requires Fresh(v) && bytes != [] && Memchr(ESC, bytes) == 0
    ensures GroundRead(bytes) == 1 && bytes[0] == ESC
    ensures Run(bulk, Conf(v, log), bytes[..1]) == Conf(Reset(v).(state := Escape), log)
  {
    assert bytes[..1] == [ESC] && log + [] == log;
    RunOne(bulk, Conf(v, log), ESC);
  }

  lemma ReadValid(bulk: bool, v: Vt, log: seq<Event>, bytes: seq<Byte>)
    requires Fresh(v) && bytes != [] && Memchr(ESC, bytes) > 0
    requires FromUtf8(bytes[..Memchr(ESC, bytes)]).stop.AllValid?
    ensures var plain, n := Memchr(ESC, bytes), GroundRead(bytes);
            var chars := FromUtf8(bytes[..plain]).chars;
            && n == (if plain < |bytes| then plain + 1 else plain)
            && Run(bulk, Conf(v, log), bytes[..n])
               == Conf(if plain < |bytes| then Reset(v).(state := Escape) else v, log + GroundChars(chars))
  {
    hide Run, FromUtf8;
    var plain, n := Memchr(ESC, bytes), GroundRead(bytes);
    var bs := bytes[..plain];
    var d := FromUtf8(bs);
    var log' := log + GroundChars(d.chars);
    assert bs[..d.validUpTo] == bs;
    if plain < |bytes| {
      RunPastValid(bulk, v, log, bs, [ESC]);
      assert bytes[..n] == bs + [ESC];
      GroundEscape(bulk, v, log', [ESC]);
      assert [ESC][1..] == [];
      RunNil(bulk, Conf(Reset(v).(state := Escape), log'));
    } else {
      RunPastValid(bulk, v, log, bs, []);
      assert bytes[..n] == bs + [];
      RunNil(bulk, Conf(v, log'));
    }
  }

  lemma ReadTruncated(bulk: bool, v: Vt, log: seq<Event>, bytes: seq<Byte>)
    requires Fresh(v) && bytes != [] && Memchr(ESC, bytes) > 0
    requires FromUtf8(bytes[..Memchr(ESC, bytes)]).stop.Truncated?
    ensures var plain, n := Memchr(ESC, bytes), GroundRead(bytes);
            var d := FromUtf8(bytes[..plain]);
            && n == (if plain < |bytes| then plain + 1 else plain)
            && Partial(bytes[d.validUpTo..plain]) && plain - d.validUpTo < 4
            && Run(bulk, Conf(v, log), bytes[..n])
               == if plain < |bytes|
                  then Conf(Reset(v).(state := Escape), log + GroundChars(d.chars) + [Print(REPLACEMENT)])
                  else Conf(v.(partial := bytes[d.validUpTo..plain]), log + GroundChars(d.chars))
  {
    hide Run, FromUtf8, Partial;
    var plain, n := Memchr(ESC, bytes), GroundRead(bytes);
    var bs := bytes[..plain];
    var d := FromUtf8(bs);
    var cut, log' := bs[d.validUpTo..], log + GroundChars(d.chars);
    FromUtf8Stops(bs);
    assert cut == bytes[d.validUpTo..plain] && bs[..d.validUpTo] + cut == bs;
    NoPrefixWithEscape(cut);
    if plain < |bytes| {
      RunPastValid(bulk, v, log, bs, cut + [ESC]);
      assert bytes[..n] == bs[..d.validUpTo] + (cut + [ESC]);
      RunCut(bulk, v, log', cut, [ESC]);
      GroundEscape(bulk, v, log' + [Print(REPLACEMENT)], [ESC]);
      assert [ESC][1..] == [];
      RunNil(bulk, Conf(Reset(v).(state := Escape), log' + [Print(REPLACEMENT)]));
    } else {
      RunPastValid(bulk, v, log, bs, cut);
      assert bytes[..n] == bs;
      RunIntoPartial(bulk, v, log', cut);
    }
  }

  /** An ill-formed run at the head of some text: read alone, it is pending, or a control or
      a replacement character; and it is no part of a character. */
  lemma RunBadAlone(bulk: bool, v: Vt, log: seq<Event>, bs: seq<Byte>)
    requires Fresh(v) && bs != [] && DecodeFirst(bs).Bad?
    ensures var n, b := DecodeFirst(bs).len, bs[0];
            && 0 < n <= |bs|
            && (n == 1 && b <= 0x9F ==> 0x80 <= b)
            && var d := Run(bulk, Conf(v, log), bs[..n]);
               if SeqLen(b) > 0 then d == Conf(v.(partial := bs[..n]), log) && n < |bs| && Partial(bs[..n])
                                     && !TablePrefix(bs[..n] + [bs[n]]) && b > 0x9F
               else n == 1 && b >= 0x80
                    && d == if b <= 0x9F then Conf(C1Byte(v, b).vt, log + C1Byte(v, b).log)
                            else Conf(v, log + [Print(REPLACEMENT)])
  {
    var n := DecodeFirst(bs).len;
    if SeqLen(bs[0]) > 0 {
      hide Run;
      RunIntoPartial(bulk, v, log, bs[..n]);
    } else {
      assert bs[..1] == [bs[0]];
      RunOne(bulk, Conf(v, log), bs[0]);
    }
  }

  lemma ReadInvalid(bulk: bool, v: Vt, log: seq<Event>, bytes: seq<Byte>)
    requires Fresh(v) && bytes != [] && FromUtf8(bytes[..Memchr(ESC, bytes)]).stop.Invalid?
    ensures var d, n := FromUtf8(bytes[..Memchr(ESC, bytes)]), GroundRead(bytes);
            && n == d.validUpTo + d.stop.errorLen <= |bytes| && d.stop.errorLen > 0
            && var b := bytes[d.validUpTo];
               && (d.stop.errorLen == 1 && b <= 0x9F ==> 0x80 <= b)
               && Due(Run(bulk, Conf(v, log), bytes[..n]), bytes[n..])
               == if d.stop.errorLen == 1 && b <= 0x9F
                  then Conf(C1Byte(v, b).vt, log + GroundChars(d.chars) + C1Byte(v, b).log)
                  else Conf(v, log + GroundChars(d.chars) + [Print(REPLACEMENT)])
  {
    hide Run, FromUtf8, DecodeFirst, C1Byte, TablePrefix, Memchr;
    var plain, n := Memchr(ESC, bytes), GroundRead(bytes);
    var bs := bytes[..plain];
    var d := FromUtf8(bs);
    var bad, log' := bs[d.validUpTo..], log + GroundChars(d.chars);
    FromUtf8Stops(bs);
    RunBadAlone(bulk, v, log', bad);
    var len := d.stop.errorLen;
    RunPastValid(bulk, v, log, bs, bad[..len]);
    assert bytes[..n] == bs[..d.validUpTo] + bad[..len];
    assert bad[0] == bytes[d.validUpTo];
    if SeqLen(bad[0]) > 0 {
      assert bytes[n..][0] == bad[len];
    } else {
      C1KeepsPartial(v, bad[0]);
    }
  }

  lemma C1KeepsPartial(v: Vt, b: Byte)
    ensures C1Byte(v, b).vt.partial == v.partial
  {
  }

  // ---- The positions within a read of text ----

  lemma CompletePrefix(p: seq<Byte>, k: nat)
    requires Complete(p) && 0 < k < |p|
    ensures Partial(p[..k]) && TablePrefix(p[..k] + [p[k]])
  {
    assert p[..k] + [p[k]] == p[..k + 1];
  }

  /** Within one character that starts at a character boundary, and right behind it. */
  lemma CharWithin(v: Vt, log: seq<Event>, p: seq<Byte>, next: Byte, k: nat)
    requires Fresh(v) && Complete(p) && p != [ESC] && 0 < k <= |p| && (k < |p| ==> next == p[k])
    ensures Within(Run(false, Conf(v, log), p[..k - 1]).vt, p[k - 1], Run(false, Conf(v, log), p[..k]).vt, next)
  {
    hide Run, Complete, TablePrefix, CodePoint, Partial;
    assert p[..|p|] == p && p[..k - 1] + [p[k - 1]] == p[..k];
    if k == 1 {
      RunNil(false, Conf(v, log));
      assert p[..0] == [];
    } else {
      CompletePrefix(p, k - 1);
      RunIntoPartial(false, v, log, p[..k - 1]);
    }
    if k < |p| {
      CompletePrefix(p, k);
      PartialNotEmpty(p[..k]);
      RunIntoPartial(false, v, log, p[..k]);
    } else {
      RunChar(false, v, log, p);
    }
  }

  lemma PartialNotEmpty(p: seq<Byte>)
    requires Partial(p)
    ensures p != []
  {
  }

  /** Every position within or right behind the valid prefix of a text. */
  lemma {:induction false} ValidWithin(v: Vt, log: seq<Event>, bs: seq<Byte>, next: Byte, k: nat)
    requires Fresh(v) && ESC !in bs && 0 < k <= FromUtf8(bs).validUpTo && (k < |bs| ==> next == bs[k])
    ensures Within(Run(false, Conf(v, log), bs[..k - 1]).vt, bs[k - 1], Run(false, Conf(v, log), bs[..k]).vt, next)
    decreases |bs|
  {
    hide Run, FromUtf8, DecodeFirst, Within, Complete, CodePoint;
    FromUtf8Step(bs);
    var Char(c, n) := DecodeFirst(bs);
    var p, rest := bs[..n], bs[n..];
    assert bs[0] in bs;
    if k <= n {
      CharWithin(v, log, p, if k < n then p[k] else next, k);
      assert p[..k] == bs[..k] && p[..k - 1] == bs[..k - 1];
    } else {
      ValidWithin(v, log + [GroundChar(CodePoint(p))], rest, next, k - n);
      RunChar(false, v, log, p);
      RunConcat(false, Conf(v, log), p, rest[..k - n]);
      RunConcat(false, Conf(v, log), p, rest[..k - 1 - n]);
      assert p + rest[..k - n] == bs[..k] && p + rest[..k - 1 - n] == bs[..k - 1];
      assert rest[k - n - 1] == bs[k - 1];
    }
  }

  lemma PartialPrefix(p: seq<Byte>, k: nat)
    requires Partial(p) && 0 < k <= |p|
    ensures Partial(p[..k]) && (k < |p| ==> TablePrefix(p[..k] + [p[k]]))
  {
    if k < |p| {
      assert p[..k] + [p[k]] == p[..k + 1];
    }
  }

  /** Every position within a cut-off character, and right behind one that ESC cuts off. */
  lemma CutWithin(v: Vt, log: seq<Event>, p: seq<Byte>, next: Byte, k: nat)
    requires Fresh(v) && Partial(p) && 0 < k <= |p| && next == (if k < |p| then p[k] else ESC)
    ensures Within(Run(false, Conf(v, log), p[..k - 1]).vt, p[k - 1], Run(false, Conf(v, log), p[..k]).vt, next)
  {
    hide Run, Complete, TablePrefix, CodePoint, Partial;
    PartialPrefix(p, k);
    PartialNotEmpty(p[..k]);
    RunIntoPartial(false, v, log, p[..k]);
    if k == 1 {
      RunNil(false, Conf(v, log));
      assert p[..0] == [];
    } else {
      PartialPrefix(p, k - 1);
      RunIntoPartial(false, v, log, p[..k - 1]);
    }
  }

  /** Positions behind the valid prefix, told from its end. */
  lemma ShiftPastValid(v: Vt, log: seq<Event>, bs: seq<Byte>, k: nat)
    requires Fresh(v) && ESC !in bs && FromUtf8(bs).validUpTo <= k <= |bs|
    ensures var d := FromUtf8(bs);
            Run(false, Conf(v, log), bs[..k])
            == Run(false, Conf(v, log + GroundChars(d.chars)), bs[d.validUpTo..][..k - d.validUpTo])
  {
    hide Run, FromUtf8;
    var d := FromUtf8(bs);
    var more := bs[d.validUpTo..][..k - d.validUpTo];
    RunPastValid(false, v, log, bs, more);
    assert bs[..d.validUpTo] + more == bs[..k];
  }

  /** All positions strictly within a read of text are within text. */
  lemma ReadWithin(v: Vt, log: seq<Event>, bytes: seq<Byte>, k: nat)
    requires Fresh(v) && bytes != [] && 0 < k < GroundRead(bytes) <= |bytes|
    ensures InText(Conf(v, log), bytes, k)
  {
    hide Run, FromUtf8, Within, Partial;
    var plain := Memchr(ESC, bytes);
    var bs := bytes[..plain];
    var d := FromUtf8(bs);
    var c, log' := Conf(v, log), log + GroundChars(d.chars);
    FromUtf8Stops(bs);
    if d.stop.Invalid? {
    }
    assert bs[..k] == bytes[..k] && bs[..k - 1] == bytes[..k - 1] && bs[k - 1] == bytes[k - 1];
    assert k < |bs| ==> bytes[k] == bs[k];
    if k <= d.validUpTo {
      ValidWithin(v, log, bs, bytes[k], k);
    } else {
      var rest, j := bs[d.validUpTo..], k - d.validUpTo;
      ShiftPastValid(v, log, bs, k);
      ShiftPastValid(v, log, bs, k - 1);
      var cut := if d.stop.Invalid? then rest[..d.stop.errorLen] else rest;
      if d.stop.Invalid? {
        BadLength(rest);
      }
      assert cut[..j] == rest[..j] && cut[..j - 1] == rest[..j - 1] && cut[j - 1] == bytes[k - 1];
      CutWithin(v, log', cut, bytes[k], j);
    }
  }

  /** The end of a read of text is not within text. */
  lemma ReadEnds(v: Vt, log: seq<Event>, bytes: seq<Byte>)
    requires Fresh(v) && bytes != []
    ensures 0 < GroundRead(bytes) <= |bytes| && !InText(Conf(v, log), bytes, GroundRead(bytes))
  {
    hide Run, FromUtf8, Partial, TablePrefix, GroundChars, C1Byte;
    var plain, n := Memchr(ESC, bytes), GroundRead(bytes);
    var d := FromUtf8(bytes[..plain]);
    if plain == 0 {
      ReadEscape(false, v, log, bytes);
    } else if d.stop.AllValid? {
      ReadValid(false, v, log, bytes);
    } else if d.stop.Truncated? {
      ReadTruncated(false, v, log, bytes);
    } else {
      ReadInvalid(false, v, log, bytes);
      if n < |bytes| {
        BadEnds(v, log, bytes);
      }
    }
  }

  lemma BadEnds(v: Vt, log: seq<Event>, bytes: seq<Byte>)
    requires Fresh(v) && bytes != [] && FromUtf8(bytes[..Memchr(ESC, bytes)]).stop.Invalid?
    requires 0 < GroundRead(bytes) < |bytes|
    ensures !InText(Conf(v, log), bytes, GroundRead(bytes))
  {
    hide Run, FromUtf8, DecodeFirst, Within, GroundChars, Memchr, SeqLen, GroundRead;
    var n := GroundRead(bytes);
    var log', bad := BadAt(v, log, bytes);
    BadIsNotText(v, log', bad, bytes[n]);
  }

  /** The ill-formed run that ends a read, and the machine around its last byte. */
  lemma BadAt(v: Vt, log: seq<Event>, bytes: seq<Byte>) returns (log': seq<Event>, bad: seq<Byte>)
    requires Fresh(v) && bytes != [] && FromUtf8(bytes[..Memchr(ESC, bytes)]).stop.Invalid?
    requires 0 < GroundRead(bytes) < |bytes|
    ensures var n := GroundRead(bytes);
            && bad != [] && DecodeFirst(bad).Bad?
            && var len := DecodeFirst(bad).len;
               && 0 < len <= |bad| && bytes[n - 1] == bad[len - 1]
               && (SeqLen(bad[0]) > 0 ==> len < |bad| && bytes[n] == bad[len] && bytes[n] != ESC)
               && At(Conf(v, log), bytes, n) == Run(false, Conf(v, log'), bad[..len])
               && At(Conf(v, log), bytes, n - 1) == Run(false, Conf(v, log'), bad[..len - 1])
  {
    hide Run, FromUtf8, DecodeFirst, GroundChars, SeqLen;
    var plain, n := Memchr(ESC, bytes), GroundRead(bytes);
    var bs := bytes[..plain];
    var d := FromUtf8(bs);
    log', bad := log + GroundChars(d.chars), bs[d.validUpTo..];
    var len := d.stop.errorLen;
    FromUtf8Stops(bs);
    BadLength(bad);
    ShiftPastValid(v, log, bs, n);
    ShiftPastValid(v, log, bs, n - 1);
    assert bs[..n] == bytes[..n] && bs[..n - 1] == bytes[..n - 1] && bytes[n - 1] == bad[len - 1];
    if SeqLen(bad[0]) > 0 {
      assert bytes[n] == bs[n] == bad[len] && bs[n] in bs;
    }
  }

  lemma BadLength(bs: seq<Byte>)
    requires bs != [] && DecodeFirst(bs).Bad?
    ensures var len := DecodeFirst(bs).len;
            && 0 < len <= |bs| && (SeqLen(bs[0]) > 0 ==> len < |bs|) && (len > 1 ==> Partial(bs[..len]))
  {
  }

  lemma BadIsNotText(v: Vt, log: seq<Event>, bad: seq<Byte>, next: Byte)
    requires Fresh(v) && bad != [] && DecodeFirst(bad).Bad?
    requires var len := DecodeFirst(bad).len;
             len <= |bad| && (SeqLen(bad[0]) > 0 ==> len < |bad| && next == bad[len] && next != ESC)
    ensures var len := DecodeFirst(bad).len;
            !Within(Run(false, Conf(v, log), bad[..len - 1]).vt, bad[len - 1],
                    Run(false, Conf(v, log), bad[..len]).vt, next)
  {
    hide Run, DecodeFirst, Partial, TablePrefix, C1Byte;
    var len := DecodeFirst(bad).len;
    RunBadAlone(false, v, log, bad);
    if SeqLen(bad[0]) > 0 {
      PartialNotEmpty(bad[..len]);
    } else {
      RunNil(false, Conf(v, log));
      assert bad[..0] == [];
      C1KeepsPartial(v, bad[0]);
      assert !Complete([] + [bad[0]]);
    }
  }

  // ---- One round of the loop ----

  /** From a position on, the machine may start with what is due there. */
  lemma AtShift(c: Conf, bytes: seq<Byte>, m: nat, k: nat)
    requires AtBoundary(c.vt) && 0 < k && m + k <= |bytes|
    ensures At(c, bytes, m + k) == At(DueAt(c, bytes, m), bytes[m..], k)
  {
    hide Run, AtBoundary;
    var rest := bytes[m..];
    assert bytes[..m + k] == bytes[..m] + rest[..k];
    RunConcat(false, c, bytes[..m], rest[..k]);
    RunAtBoundary(false, c, bytes[..m]);
    DueRuns(false, At(c, bytes, m), rest[..k]);
  }

  lemma InTextShift(c: Conf, bytes: seq<Byte>, m: nat, k: nat)
    requires AtBoundary(c.vt) && 0 < k && m + k <= |bytes| && DueAt(c, bytes, m).vt.state.Ground?
    ensures InText(c, bytes, m + k) <==> InText(DueAt(c, bytes, m), bytes[m..], k)
  {
    hide Run, AtBoundary, TablePrefix, Complete;
    var d, rest := DueAt(c, bytes, m), bytes[m..];
    AtShift(c, bytes, m, k);
    if k > 1 {
      AtShift(c, bytes, m, k - 1);
    } else {
      assert rest[..0] == [];
      RunNil(false, d);
      FirstByte(At(c, bytes, m), rest);
    }
  }

  lemma FirstByte(c: Conf, rest: seq<Byte>)
    requires rest != []
    ensures var d, b := Due(c, rest), rest[0];
            && d.vt.state == c.vt.state
            && (b < 0x80 || Complete(d.vt.partial + [b]) <==> b < 0x80 || Complete(c.vt.partial + [b]))
  {
    assert Complete([rest[0]]) ==> rest[0] < 0x80;
  }

  /** A read of text goes on to the next position outside text. */
  lemma TextRound(c: Conf, bytes: seq<Byte>, m: nat)
    requires AtBoundary(c.vt) && m < |bytes| && Fresh(DueAt(c, bytes, m).vt)
    ensures var n := GroundRead(bytes[m..]);
            && 0 < n <= |bytes| - m
            && (forall k :: m < k < m + n ==> InText(c, bytes, k)) && !InText(c, bytes, m + n)
            && At(c, bytes, m + n) == Run(false, DueAt(c, bytes, m), bytes[m..][..n])
  {
    hide InText, GroundRead, AtBoundary, Run, DueAt;
    var d, rest := DueAt(c, bytes, m), bytes[m..];
    var n := GroundRead(rest);
    ReadEnds(d.vt, d.log, rest);
    InTextShift(c, bytes, m, n);
    AtShift(c, bytes, m, n);
    forall k | m < k < m + n ensures InText(c, bytes, k) {
      ReadWithin(d.vt, d.log, rest, k - m);
      InTextShift(c, bytes, m, k - m);
    }
  }

  /** Outside Ground every position is one where the performer is asked. */
  lemma OutsideGround(c: Conf, bytes: seq<Byte>, k: nat)
    requires AtBoundary(c.vt) && k <= |bytes| && !At(c, bytes, k).vt.state.Ground?
    ensures !InText(c, bytes, k) && DueAt(c, bytes, k) == At(c, bytes, k)
  {
    RunAtBoundary(false, c, bytes[..k]);
  }

  /** A byte outside Ground goes on to the next position. */
  lemma ByteRound(c: Conf, bytes: seq<Byte>, m: nat)
    requires AtBoundary(c.vt) && m < |bytes| && !DueAt(c, bytes, m).vt.state.Ground?
    ensures !InText(c, bytes, m + 1)
    ensures DueAt(c, bytes, m + 1) == Next(false, DueAt(c, bytes, m), bytes[m])
  {
    hide Run, Step, TablePrefix, AtBoundary;
    OutsideGround(c, bytes, m);
    assert bytes[..m + 1] == bytes[..m] + [bytes[m]];
    RunAppend(false, c, bytes[..m], bytes[m]);
    var v := At(c, bytes, m).vt;
    RunAtBoundary(false, c, bytes[..m]);
    BoundaryOutside(v);
    StepKeepsPartial(false, v, bytes[m]);
  }

  lemma BoundaryOutside(v: Vt)
    requires AtBoundary(v) && !v.state.Ground?
    ensures v.partial == []
  {
  }

  /** The loop has come to position `m`, and was not told to stop before. */
  ghost predicate Reached(c: Conf, bytes: seq<Byte>, stop: seq<Event> -> bool, m: nat) {
    && m <= |bytes| && !InText(c, bytes, m)
    && forall k :: 0 <= k < m && !InText(c, bytes, k) ==> !stop(DueAt(c, bytes, k).log)
  }

  lemma ReachedStart(c: Conf, bytes: seq<Byte>, stop: seq<Event> -> bool)
    ensures Reached(c, bytes, stop, 0) && (bytes == [] || c.vt.partial == [] ==> DueAt(c, bytes, 0) == c)
  {
    assert bytes[..0] == [];
    RunNil(false, c);
  }

  lemma ReachedMore(c: Conf, bytes: seq<Byte>, stop: seq<Event> -> bool, m: nat, m': nat)
    requires Reached(c, bytes, stop, m) && m < m' <= |bytes| && !stop(DueAt(c, bytes, m).log)
    requires (forall k :: m < k < m' ==> InText(c, bytes, k)) && !InText(c, bytes, m')
    ensures Reached(c, bytes, stop, m')
  {
    hide InText, DueAt;
  }

  /** One round: where it leads, and how many bytes it takes. */
  function NextRead(d: Conf, tail: seq<Byte>): (Conf, nat)
    requires tail != []
  {
    if d.vt.state.Ground? then
      var n := GroundRead(tail);
      if n <= |tail| then (Due(Run(false, d, tail[..n]), tail[n..]), n) else (d, n)
    else
      (Next(false, d, tail[0]), 1)
  }

  /** A round leads from one position outside text to the next. */
  lemma GoesOn(c: Conf, bytes: seq<Byte>, stop: seq<Event> -> bool, m: nat)
    requires AtBoundary(c.vt) && Reached(c, bytes, stop, m) && m < |bytes|
    requires DueAt(c, bytes, m).vt.partial == [] && !stop(DueAt(c, bytes, m).log)
    ensures var n := NextRead(DueAt(c, bytes, m), bytes[m..]).1;
            && 0 < n <= |bytes| - m && Reached(c, bytes, stop, m + n)
            && NextRead(DueAt(c, bytes, m), bytes[m..]).0 == DueAt(c, bytes, m + n)
  {
    hide InText, GroundRead, AtBoundary, Run, Reached, Next;
    var d := DueAt(c, bytes, m);
    if d.vt.state.Ground? {
      var n := GroundRead(bytes[m..]);
      TextRound(c, bytes, m);
      ReachedMore(c, bytes, stop, m, m + n);
      assert bytes[m..][n..] == bytes[m + n..];
    } else {
      ByteRound(c, bytes, m);
      ReachedMore(c, bytes, stop, m, m + 1);
    }
  }

  // ---- A character pending from an earlier call ----

  /** What the pending character becomes, and how many bytes that takes. */
  function PendingCall(c: Conf, bytes: seq<Byte>): (Conf, int)
    requires Pending(c.vt)
  {
    var p, v := c.vt.partial, c.vt.(partial := []);
    match DecodeFirst(p + bytes)
    case Char(cp, n) => (Conf(v, c.log + [Print(cp)]), n - |p| + (if LosesByte(p, bytes) then 1 else 0))
    case Bad(n) => (Conf(v, c.log + [Print(REPLACEMENT)]), n - |p|)
    case Short => (Conf(c.vt.(partial := p + bytes), c.log), |bytes|)
  }

  lemma PendingCallIs(c: Conf, bytes: seq<Byte>, buf: seq<Byte>)
    requires Pending(c.vt)
    requires buf == c.vt.partial + bytes[..Min(|bytes|, 4 - |c.vt.partial|)]
    ensures var d, p := FromUtf8(buf), c.vt.partial;
            PendingCall(c, bytes)
            == if d.validUpTo > 0 then
                 (Conf(c.vt.(partial := []), c.log + [Print(d.chars[0])]),
                  (if d.stop.AllValid? then Utf8Len(d.chars[0]) else d.validUpTo) - |p|)
               else if d.stop.Invalid? then
                 (Conf(c.vt.(partial := []), c.log + [Print(REPLACEMENT)]), d.stop.errorLen - |p|)
               else (Conf(c.vt.(partial := p + bytes), c.log), |bytes|)
  {
    hide Partial, TablePrefix, Complete, CodePoint, SeqLen, FromUtf8, DecodeFirst, LosesByte, Utf8Len;
    var p := c.vt.partial;
    PartialNotEmpty(p);
    assert p + bytes == buf + bytes[|buf| - |p|..];
    FromUtf8Step(buf);
    match DecodeFirst(buf)
    case Char(cp, n) => CompletedCall(p, bytes, buf);
    case Bad(n) => BadIsLocal(buf, bytes[|buf| - |p|..]);
    case Short => ShortIsAll(p, bytes, buf);
  }

  /** How far a call reads when the pending character is completed. */
  lemma CompletedCall(p: seq<Byte>, bytes: seq<Byte>, buf: seq<Byte>)
    requires Partial(p) && buf == p + bytes[..Min(|bytes|, 4 - |p|)] && buf != [] && DecodeFirst(buf).Char?
    ensures var d := FromUtf8(buf);
            && DecodeFirst(p + bytes) == DecodeFirst(buf) && d.chars != [] && d.chars[0] == DecodeFirst(buf).c
            && (if d.stop.AllValid? then Utf8Len(d.chars[0]) else d.validUpTo)
               == DecodeFirst(buf).len + (if LosesByte(p, bytes) then 1 else 0)
  {
    hide Partial, TablePrefix, Complete, CodePoint, SeqLen, FromUtf8, DecodeFirst, LosesByte, Utf8Len;
    PartialNotEmpty(p);
    LongerThanPending(p, buf, DecodeFirst(buf).len);
    BufferedValid(buf);
    assert p + bytes == buf + bytes[|buf| - |p|..];
    CharExtends(buf, p + bytes, DecodeFirst(buf).len);
    LosesIs(p, bytes, buf);
  }

  lemma LongerThanPending(p: seq<Byte>, buf: seq<Byte>, n: nat)
    requires Partial(p) && p <= buf && n <= |buf| && Complete(buf[..n])
    ensures n > |p| && SeqLen(p[0]) == n
  {
    assert buf[..n][0] == buf[0] == p[0];
  }

  lemma CharExtends(a: seq<Byte>, b: seq<Byte>, n: nat)
    requires a != [] && a <= b && DecodeFirst(a).Char? && DecodeFirst(a).len == n
    ensures DecodeFirst(b) == DecodeFirst(a)
  {
    assert a[..n] == b[..n];
  }

  /** In terms of the buffer: a two-byte character, an ASCII byte and a byte from 0x80. */
  lemma LosesIs(p: seq<Byte>, bytes: seq<Byte>, buf: seq<Byte>)
    requires Partial(p) && buf == p + bytes[..Min(|bytes|, 4 - |p|)] && DecodeFirst(buf).Char?
    ensures LosesByte(p, bytes) <==>
            DecodeFirst(buf).len == 2 && |buf| == 4 && buf[2] < 0x80 <= buf[3]
  {
    var n := DecodeFirst(buf).len;
    assert buf[..n][0] == p[0];
    if |p| == 1 {
      assert forall i :: 0 < i < |buf| ==> buf[i] == bytes[i - 1];
    }
  }

  lemma ShortIsAll(p: seq<Byte>, bytes: seq<Byte>, buf: seq<Byte>)
    requires Partial(p) && buf == p + bytes[..Min(|bytes|, 4 - |p|)] && DecodeFirst(buf).Short?
    ensures buf == p + bytes
  {
    assert |buf| < 4;
    assert bytes[..|bytes|] == bytes;
  }

  /** Where the loop of a call begins, and what has been reported there. */
  function LoopStart(start: Conf, bytes: seq<Byte>): (Conf, int)
    requires start.vt.partial != [] ==> Pending(start.vt)
  {
    if start.vt.partial != [] then PendingCall(start, bytes) else (start, 0)
  }

  /** The whole call: behind a pending character, the first position outside text where the
      performer asks to stop, with exactly what is due there reported. */
  ghost predicate StoppedAt(start: Conf, bytes: seq<Byte>, stop: seq<Event> -> bool, i: nat, end: Conf) {
    (start.vt.partial != [] ==> Pending(start.vt)) &&
    var (c, q) := LoopStart(start, bytes);
    0 <= q <= i <= |bytes| && StopsAt(c, bytes[q..], stop, i - q) && end == DueAt(c, bytes[q..], i - q)
  }

  lemma HasStopped(start: Conf, bytes: seq<Byte>, stop: seq<Event> -> bool, c: Conf, q: nat, i: nat)
    requires start.vt.partial != [] ==> Pending(start.vt) && (c, q as int) == PendingCall(start, bytes)
    requires start.vt.partial == [] ==> c == start && q == 0
    requires q <= i <= |bytes| && Reached(c, bytes[q..], stop, i - q)
    requires i < |bytes| ==> stop(DueAt(c, bytes[q..], i - q).log)
    ensures StoppedAt(start, bytes, stop, i, DueAt(c, bytes[q..], i - q))
  {
    hide InText, DueAt, PendingCall;
  }

  lemma BoundaryHere(v: Vt)
    requires v.partial != [] ==> Pending(v)
    ensures AtBoundary(v)
  {
  }

  // ---- What the documentation promises ----

  /** What has been reported at position `k`, a pending character included, which is reported
      at its end: the byte behind a lossy split is read with it. */
  function ReportedAt(start: Conf, bytes: seq<Byte>, k: nat): seq<Event>
    requires (start.vt.partial != [] ==> Pending(start.vt)) && k <= |bytes|
    requires 0 <= LoopStart(start, bytes).1 <= |bytes|
  {
    var (c, q) := LoopStart(start, bytes);
    if k >= q then DueAt(c, bytes[q..], k - q).log
    else if k == q - 1 && LosesByte(start.vt.partial, bytes) then c.log
    else start.log
  }

  /** The first position at which the performer asks to stop, or the end. */
  ghost predicate FirstStop(start: Conf, bytes: seq<Byte>, stop: seq<Event> -> bool, t: nat) {
    && (start.vt.partial != [] ==> Pending(start.vt)) && 0 <= LoopStart(start, bytes).1 <= |bytes|
    && t <= |bytes|
    && (forall k :: 0 <= k < t ==> !stop(ReportedAt(start, bytes, k)))
    && (t < |bytes| ==> stop(ReportedAt(start, bytes, t)))
  }

  /** The performer is asked at position `t`: the loop has begun, and `t` is not within a
      stretch of text that is read at once. */
  predicate AsksAt(start: Conf, bytes: seq<Byte>, t: nat)
    requires start.vt.partial != [] ==> Pending(start.vt)
  {
    var (c, q) := LoopStart(start, bytes);
    0 <= q <= t <= |bytes| && !InText(c, bytes[q..], t - q)
  }

  /** Outside Ground no byte is read after the performer has asked to stop. */
  lemma StopsOutsideGround(c: Conf, bytes: seq<Byte>, stop: seq<Event> -> bool, i: nat, k: nat)
    requires AtBoundary(c.vt) && StopsAt(c, bytes, stop, i) && k < i && !At(c, bytes, k).vt.state.Ground?
    ensures !stop(At(c, bytes, k).log)
  {
    hide InText, AtBoundary, Due;
    OutsideGround(c, bytes, k);
  }

  /** The call stops where the documentation says exactly when that is behind a character
      pending from an earlier call and not within a stretch of text that is read at once;
      otherwise it reads on. */
  lemma StopsAtFirstIff(start: Conf, bytes: seq<Byte>, stop: seq<Event> -> bool, i: nat, end: Conf, t: nat)
    requires StoppedAt(start, bytes, stop, i, end) && FirstStop(start, bytes, stop, t)
    ensures i == t <==> AsksAt(start, bytes, t)
    ensures !AsksAt(start, bytes, t) ==> i > t
  {
    hide DueAt, Within, LoopStart, LosesByte;
    var (c, q) := LoopStart(start, bytes);
    assert ReportedAt(start, bytes, i) == DueAt(c, bytes[q..], i - q).log;
    assert t >= q ==> ReportedAt(start, bytes, t) == DueAt(c, bytes[q..], t - q).log;
  }

  /** Two letters, and a performer that wants to stop after one callback: both are read. */
  lemma ReadsPastStop()
    ensures var start, bytes, stop := Conf(INITIAL, []), [0x41, 0x42], (log: seq<Event>) => log != [];
            && FirstStop(start, bytes, stop, 1)
            && forall i, end :: StoppedAt(start, bytes, stop, i, end) ==> i == 2
  {
    var start, bytes, stop := Conf(INITIAL, []), [0x41, 0x42], (log: seq<Event>) => log != [];
    assert bytes[0..] == bytes;
    LetterIsText(start, bytes);
    hide DueAt, InText;
    assert ReportedAt(start, bytes, 0) == [] && ReportedAt(start, bytes, 1) == [Print(0x41)];
    assert FirstStop(start, bytes, stop, 1);
    forall i, end | StoppedAt(start, bytes, stop, i, end) ensures i == 2 {
      StopsAtFirstIff(start, bytes, stop, i, end, 1);
    }
  }

  lemma LetterIsText(c: Conf, bytes: seq<Byte>)
    requires c == Conf(INITIAL, []) && bytes == [0x41, 0x42]
    ensures DueAt(c, bytes, 0) == c && DueAt(c, bytes, 1) == Conf(INITIAL, [Print(0x41)])
    ensures InText(c, bytes, 1)
  {
    assert bytes[..0] == [] && bytes[..1] == [0x41];
    RunNil(false, c);
    RunOne(false, c, 0x41);
    assert c.log + [Print(0x41)] == [Print(0x41)];
  }

  /** A letter and the first byte of a character in one call, the second byte in the next: it
      is read although the performer has asked to stop since the letter. */
  lemma ReadsPastPending()
    ensures var start := Run(false, Conf(INITIAL, []), [0x41, 0xC2]);
            var bytes, stop := [0xA9], (log: seq<Event>) => log != [];
            && FirstStop(start, bytes, stop, 0)
            && forall i, end :: StoppedAt(start, bytes, stop, i, end) ==> i == 1
  {
    var start := Conf(INITIAL.(partial := [0xC2]), [Print(0x41)]);
    var bytes, stop := [0xA9], (log: seq<Event>) => log != [];
    LetterAndStart(start);
    assert [0xC2] + bytes == [0xC2, 0xA9];
    assert PendingCall(start, bytes).1 == 1;
    assert FirstStop(start, bytes, stop, 0);
    forall i, end | StoppedAt(start, bytes, stop, i, end) ensures i == 1 {
      StopsAtFirstIff(start, bytes, stop, i, end, 0);
    }
  }

  lemma LetterAndStart(start: Conf)
    requires start == Conf(INITIAL.(partial := [0xC2]), [Print(0x41)])
    ensures Run(false, Conf(INITIAL, []), [0x41, 0xC2]) == start && Pending(start.vt)
  {
    var c := Conf(INITIAL, []);
    RunOne(false, c, 0x41);
    assert [0x41] + [0xC2] == [0x41, 0xC2];
    RunAppend(false, c, [0x41], 0xC2);
    assert c.log + [Print(0x41)] == [Print(0x41)] && [Print(0x41)] + [] == [Print(0x41)];
  }
}
