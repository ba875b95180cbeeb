module VteGround {
  import opened VteTypes
  import opened Utf8
  import opened VteMachine

  function ApcPuts(bs: seq<Byte>): (es: seq<Event>) {
    seq(|bs|, i requires 0 <= i < |bs| => ApcPut(bs[i]))
  }

  function EndOf(bounds: seq<(nat, nat)>): nat {
    if bounds == [] then 0 else bounds[|bounds| - 1].1
  }

  /** The index pairs cut `[0, EndOf(bounds))` into adjacent fields, without gaps. */
  ghost predicate Tiled(bounds: seq<(nat, nat)>) {
    bounds == [] ||
    var init, last := bounds[..|bounds| - 1], bounds[|bounds| - 1];
    Tiled(init) && EndOf(init) == last.0 <= last.1
  }

  lemma {:induction false} TiledAt(bounds: seq<(nat, nat)>, i: nat)
    requires Tiled(bounds) && i < |bounds|
    ensures (if i == 0 then 0 else bounds[i - 1].1) == bounds[i].0 <= bounds[i].1 <= EndOf(bounds)
  {
    if i < |bounds| - 1 {
      TiledAt(bounds[..|bounds| - 1], i);
    }
  }

  lemma NothingTiled()
    ensures Tiled([]) && EndOf([]) == 0
  {
  }

  lemma TiledSnoc(bounds: seq<(nat, nat)>, k: nat)
    requires Tiled(bounds) && EndOf(bounds) <= k
    ensures Tiled(bounds + [(EndOf(bounds), k)]) && EndOf(bounds + [(EndOf(bounds), k)]) == k
  {
    assert (bounds + [(EndOf(bounds), k)])[..|bounds|] == bounds;
  }

  // ---- UTF-8 from Ground ----

  /** In Ground, at a character boundary. */
  predicate Fresh(v: Vt) {
    v.state.Ground? && v.partial == []
  }

  /** Nothing is left of an earlier sequence. */
  predicate NoParams(v: Vt) {
    v.groups == [] && v.open == [] && v.param == 0 && v.intermediates == [] && !v.ignoring
  }

  lemma {:induction false} RunIntoPartial(bulk: bool, v: Vt, log: seq<Event>, p: seq<Byte>)
    requires Fresh(v) && Partial(p)
    ensures Run(bulk, Conf(v, log), p) == Conf(v.(partial := p), log)
  {
    var n := |p| - 1;
    assert p == p[..n] + [p[n]];
    RunAppend(bulk, Conf(v, log), p[..n], p[n]);
    if n > 0 {
      RunIntoPartial(bulk, v, log, p[..n]);
    } else {
      assert p[..n] == [] && p == [p[0]];
    }
  }

  lemma RunChar(bulk: bool, v: Vt, log: seq<Event>, p: seq<Byte>)
    requires Fresh(v) && Complete(p) && p != [ESC]
    ensures Run(bulk, Conf(v, log), p) == Conf(v, log + [GroundChar(CodePoint(p))])
  {
    var n := |p| - 1;
    assert p == p[..n] + [p[n]];
    RunAppend(bulk, Conf(v, log), p[..n], p[n]);
    if n > 0 {
      RunIntoPartial(bulk, v, log, p[..n]);
    } else {
      assert p[..n] == [] && p == [p[0]];
    }
  }

  /** A cut-off character followed by a byte that cannot continue it becomes one
      replacement character, and that byte is read afresh. */
  lemma RunCut(bulk: bool, v: Vt, log: seq<Event>, q: seq<Byte>, rest: seq<Byte>)
    requires Fresh(v) && Partial(q) && rest != [] && !TablePrefix(q + [rest[0]])
    ensures Run(bulk, Conf(v, log), q + rest) == Run(bulk, Conf(v, log + [Print(REPLACEMENT)]), rest)
  {
    RunConcat(bulk, Conf(v, log), q, rest);
    RunIntoPartial(bulk, v, log, q);
    var d := FreshByte(v, rest[0]);
    assert log + ([Print(REPLACEMENT)] + d.log) == (log + [Print(REPLACEMENT)]) + d.log;
  }

  /** An ill-formed run becomes one replacement character; a lone 0x80..0x9F byte is
      a C1 control. */
  lemma RunBad(bulk: bool, v: Vt, log: seq<Event>, bs: seq<Byte>)
    requires Fresh(v) && bs != [] && DecodeFirst(bs).Bad?
    ensures var n := DecodeFirst(bs).len;
            if n == 1 && bs[0] <= 0x9F
            then
              && 0x80 <= bs[0]
              && Run(bulk, Conf(v, log), bs)
                 == Run(bulk, Conf(C1Byte(v, bs[0]).vt, log + C1Byte(v, bs[0]).log), bs[1..])
            else Run(bulk, Conf(v, log), bs) == Run(bulk, Conf(v, log + [Print(REPLACEMENT)]), bs[n..])
  {
    if SeqLen(bs[0]) > 0 {
      hide Run;
      var n := DecodeFirst(bs).len;
      assert bs == bs[..n] + bs[n..];
      assert !TablePrefix(bs[..n] + [bs[n]]);
      RunCut(bulk, v, log, bs[..n], bs[n..]);
    }
  }

  /** The valid prefix of a text without ESC becomes one callback a character. */
  lemma {:induction false} RunValid(bulk: bool, v: Vt, log: seq<Event>, bs: seq<Byte>, rest: seq<Byte>)
    requires Fresh(v) && ESC !in bs
    ensures var d := FromUtf8(bs);
            Run(bulk, Conf(v, log), bs + rest)
            == Run(bulk, Conf(v, log + GroundChars(d.chars)), bs[d.validUpTo..] + rest)
    decreases |bs|
  {
    hide Run, DecodeFirst, Partial, TablePrefix, CodePoint, GroundChar, Complete, FromUtf8;
    var d := FromUtf8(bs);
    if bs != [] {
      FromUtf8Step(bs);
    }
    if bs == [] || !DecodeFirst(bs).Char? {
      assert log + GroundChars([]) == log && bs[0..] == bs;
    } else {
      var Char(c, n) := DecodeFirst(bs);
      var tail := bs[n..];
      var e := FromUtf8(tail);
      assert bs + rest == bs[..n] + (tail + rest);
      RunConcat(bulk, Conf(v, log), bs[..n], tail + rest);
      assert bs[0] in bs;
      RunChar(bulk, v, log, bs[..n]);
      RunValid(bulk, v, log + [GroundChar(c)], tail, rest);
      assert log + [GroundChar(c)] + GroundChars(e.chars) == log + GroundChars([c] + e.chars);
      assert bs[d.validUpTo..] == tail[e.validUpTo..];
    }
  }

  lemma BadIsLocal(a: seq<Byte>, b: seq<Byte>)
    requires a != [] && DecodeFirst(a).Bad?
    ensures DecodeFirst(a + b) == DecodeFirst(a)
  {
    var n := SeqLen(a[0]);
    if n > 0 {
      assert (a + b)[..Min(|a|, n)] == a[..Min(|a|, n)];
    }
  }

  lemma GroundEscape(bulk: bool, v: Vt, log: seq<Event>, rest: seq<Byte>)
    requires Fresh(v) && rest != [] && rest[0] == ESC
    ensures Run(bulk, Conf(v, log), rest) == Run(bulk, Conf(Reset(v).(state := Escape), log), rest[1..])
  {
    assert log + [] == log;
  }

  lemma NoPrefixWithEscape(cut: seq<Byte>)
    requires Partial(cut)
    ensures !TablePrefix(cut + [ESC]) && |cut| < 4
  {
  }

  // ---- A character split between two calls ----

  /** The pending byte and the first new one are a two-byte character, which is followed
      by one ASCII byte and a byte from 0x80: the parser skips the ASCII byte. */
  predicate LosesByte(partial: seq<Byte>, bytes: seq<Byte>) {
    && |partial| == 1 && SeqLen(partial[0]) == 2
    && |bytes| >= 3 && Continuation(bytes[0]) && bytes[1] < 0x80 <= bytes[2]
  }

  /** The pending byte and the first new one encode U+0080..U+009F, which the parser
      prints instead of executing. */
  predicate PrintsC1(partial: seq<Byte>, bytes: seq<Byte>) {
    partial == [0xC2] && bytes != [] && 0x80 <= bytes[0] <= 0x9F
  }

  /** One call with a chunk of input: a run over the bytes, save for the two splits. */
  function Advance(bulk: bool, c: Conf, bytes: seq<Byte>): Conf {
    var v, p := c.vt.(partial := []), c.vt.partial;
    if LosesByte(p, bytes) then
      Run(bulk, Conf(v, c.log + [Print(CodePoint(p + bytes[..1]))]), bytes[2..])
    else if PrintsC1(p, bytes) then
      Run(bulk, Conf(v, c.log + [Print(CodePoint(p + bytes[..1]))]), bytes[1..])
    else
      Run(bulk, c, bytes)
  }

  lemma AdvanceWhole(bulk: bool, c: Conf, bytes: seq<Byte>)
    ensures c.vt.partial == [] ==> Advance(bulk, c, bytes) == Run(bulk, c, bytes[0..])
  {
    assert bytes[0..] == bytes;
  }

  /** `char::len_utf8`. */
  function Utf8Len(c: Scalar): nat {
    if c < 0x80 then 1 else if c < 0x800 then 2 else if c < 0x1_0000 then 3 else 4
  }

  lemma Utf8LenIs(c: Scalar)
    ensures Utf8Len(c) == |Encode(c)|
  {
  }

  /** A parser in Ground with part of a character pending. */
  predicate Pending(v: Vt) {
    v.state.Ground? && Partial(v.partial)
  }

  lemma RunPending(bulk: bool, c: Conf, bytes: seq<Byte>)
    requires Pending(c.vt)
    ensures Run(bulk, c, bytes) == Run(bulk, Conf(c.vt.(partial := []), c.log), c.vt.partial + bytes)
  {
    var v := c.vt.(partial := []);
    RunConcat(bulk, Conf(v, c.log), c.vt.partial, bytes);
    RunIntoPartial(bulk, v, c.log, c.vt.partial);
  }

  lemma ShortText(bs: seq<Byte>)
    requires |bs| <= 2
    ensures var d := FromUtf8(bs);
            if |bs| == 2 && bs[0] < 0x80 <= bs[1] then d.validUpTo == 1
            else d.stop.AllValid? || d.validUpTo == 0
  {
    if bs != [] && bs[0] < 0x80 {
      assert Complete(bs[..1]);
      if |bs| == 2 && bs[1] < 0x80 {
        assert Complete(bs[1..][..1]);
      }
    }
  }

  /** How far `from_utf8` reads in the four-byte buffer once the pending character is
      complete: past it only when exactly one ASCII byte and a byte from 0x80 follow. */
  lemma BufferedValid(buf: seq<Byte>)
    requires 0 < |buf| <= 4 && DecodeFirst(buf).Char? && DecodeFirst(buf).len > 1
    ensures var d, n := FromUtf8(buf), DecodeFirst(buf).len;
            && d.chars != [] && d.chars[0] == DecodeFirst(buf).c
            && Utf8Len(d.chars[0]) == n
            && (if n == 2 && |buf| == 4 && buf[2] < 0x80 <= buf[3] then d.validUpTo == 3
                else d.stop.AllValid? || d.validUpTo == n)
  {
    hide DecodeFirst;
    var n := DecodeFirst(buf).len;
    ShortText(buf[n..]);
  }

  lemma SplitIsRead(p: seq<Byte>, bytes: seq<Byte>, buf: seq<Byte>)
    requires Partial(p) && buf == p + bytes[..Min(|bytes|, 4 - |p|)]
    ensures LosesByte(p, bytes) || PrintsC1(p, bytes) ==> FromUtf8(buf).validUpTo > 0
  {
    if LosesByte(p, bytes) || PrintsC1(p, bytes) {
      assert Complete(buf[..2]);
    }
  }

  lemma SplitBehind(p: seq<Byte>, bytes: seq<Byte>, k: nat)
    requires k <= |bytes|
    ensures p + bytes == p + bytes[..k] + bytes[k..] && (p + bytes)[|p| + k..] == bytes[k..]
  {
  }

  lemma PendingCompleted(bulk: bool, c: Conf, bytes: seq<Byte>, buf: seq<Byte>)
    requires Pending(c.vt)
    requires buf == c.vt.partial + bytes[..Min(|bytes|, 4 - |c.vt.partial|)]
    requires FromUtf8(buf).validUpTo > 0
    ensures var d, p := FromUtf8(buf), c.vt.partial;
            var n := if d.stop.AllValid? then Utf8Len(d.chars[0]) else d.validUpTo;
            && |p| <= n <= |p| + |bytes|
            && Advance(bulk, c, bytes)
               == Run(bulk, Conf(c.vt.(partial := []), c.log + [Print(d.chars[0])]), bytes[n - |p|..])
  {
    hide Run;
    var p, v := c.vt.partial, c.vt.(partial := []);
    var n := DecodeFirst(buf).len;
    BufferedValid(buf);
    var k := n - |p|;
    assert buf[..n] == p + bytes[..k];
    RunPending(bulk, c, bytes);
    SplitBehind(p, bytes, k);
    RunConcat(bulk, Conf(v, c.log), buf[..n], bytes[k..]);
    RunChar(bulk, v, c.log, buf[..n]);
    assert n == SeqLen(p[0]) && buf[0] == p[0];
    assert |p| == 1 ==> forall i :: 0 < i < |buf| ==> buf[i] == bytes[i - 1];
    assert LosesByte(p, bytes) <==> n == 2 && |buf| == 4 && buf[2] < 0x80 <= buf[3];
    if LosesByte(p, bytes) || PrintsC1(p, bytes) {
      assert n == 2 && k == 1;
    } else {
      assert GroundChar(CodePoint(buf[..n])) == Print(CodePoint(buf[..n]));
    }
  }

  /** What the pending character becomes when the buffer shows that it is ill-formed. */
  lemma PendingInvalid(bulk: bool, c: Conf, bytes: seq<Byte>, buf: seq<Byte>)
    requires Pending(c.vt)
    requires buf == c.vt.partial + bytes[..Min(|bytes|, 4 - |c.vt.partial|)]
    requires FromUtf8(buf).validUpTo == 0 && FromUtf8(buf).stop.Invalid?
    ensures var n, p := FromUtf8(buf).stop.errorLen, c.vt.partial;
            && |p| <= n <= |p| + |bytes|
            && Advance(bulk, c, bytes)
               == Run(bulk, Conf(c.vt.(partial := []), c.log + [Print(REPLACEMENT)]), bytes[n - |p|..])
  {
    hide Run, FreshByte, GroundByte, CodePoint, FromUtf8, C1Byte, Advance, LosesByte, PrintsC1, DecodeFirst;
    hide TablePrefix;
    var p, v := c.vt.partial, c.vt.(partial := []);
    assert p + bytes == buf + bytes[|buf| - |p|..] by { SplitBehind(p, bytes, |buf| - |p|); }
    RunPending(bulk, c, bytes);
    SplitIsRead(p, bytes, buf);
    AdvanceIsRun(bulk, c, bytes);
    assert buf[0..] == buf;
    FromUtf8Stops(buf);
    PendingBad(p, bytes[..|buf| - |p|]);
    var k := DecodeFirst(buf).len - |p|;
    BadIsLocal(buf, bytes[|buf| - |p|..]);
    SplitBehind(p, bytes, |buf| - |p|);
    RunBad(bulk, v, c.log, p + bytes);
    SplitBehind(p, bytes, k);
  }

  /** A pending character whose continuation is ill-formed is read up to there at least. */
  lemma PendingBad(p: seq<Byte>, rest: seq<Byte>)
    requires Partial(p) && DecodeFirst(p + rest).Bad?
    ensures p != [] && p[0] > 0x9F && |p| <= DecodeFirst(p + rest).len <= |p| + |rest|
  {
    hide Complete, CodePoint;
    assert forall k :: 0 < k <= |p| ==> (p + rest)[..k] == p[..k];
  }

  lemma AdvanceIsRun(bulk: bool, c: Conf, bytes: seq<Byte>)
    requires !LosesByte(c.vt.partial, bytes) && !PrintsC1(c.vt.partial, bytes)
    ensures Advance(bulk, c, bytes) == Run(bulk, c, bytes)
  {
  }

  lemma PendingGrows(bulk: bool, c: Conf, bytes: seq<Byte>, buf: seq<Byte>)
    requires Pending(c.vt)
    requires buf == c.vt.partial + bytes[..Min(|bytes|, 4 - |c.vt.partial|)]
    requires FromUtf8(buf).validUpTo == 0 && FromUtf8(buf).stop.Truncated?
    ensures buf == c.vt.partial + bytes && Partial(buf)
    ensures Advance(bulk, c, bytes) == Run(bulk, Conf(c.vt.(partial := buf), c.log), [])
  {
    hide Run, CodePoint, FromUtf8, DecodeFirst;
    var p, v := c.vt.partial, c.vt.(partial := []);
    RunPending(bulk, c, bytes);
    SplitIsRead(p, bytes, buf);
    assert buf[0..] == buf;
    FromUtf8Stops(buf);
    assert bytes[..|bytes|] == bytes && buf == p + bytes;
    RunIntoPartial(bulk, v, c.log, buf);
    RunConcat(bulk, Conf(v, c.log), buf, []);
    assert buf + [] == buf;
  }

  // ---- APC payload ----

  predicate EndsApc(b: Byte) {
    b == CAN || b == SUB || b == ESC || b == ST
  }

  lemma {:induction false} RunApcPayload(v: Vt, log: seq<Event>, payload: seq<Byte>, rest: seq<Byte>)
    requires v.state.ApcString? && forall b :: b in payload ==> !EndsApc(b)
    ensures Run(true, Conf(v, log), payload + rest) == Run(true, Conf(v, log + ApcPuts(payload)), rest)
    decreases |payload|
  {
    hide Run, Step;
    if payload == [] {
      assert payload + rest == rest && log + ApcPuts(payload) == log;
    } else {
      var b, more := payload[0], payload[1..];
      assert (payload + rest)[1..] == more + rest;
      assert b in payload && forall x :: x in more ==> x in payload;
      ApcPayloadStep(v, b);
      RunUncons(true, Conf(v, log), payload + rest);
      RunApcPayload(v, log + [ApcPut(b)], more, rest);
      assert log + [ApcPut(b)] + ApcPuts(more) == log + ApcPuts(payload);
    }
  }

  lemma ApcPayloadStep(v: Vt, b: Byte)
    requires v.state.ApcString? && !EndsApc(b)
    ensures Step(true, v, b) == Conf(v, [ApcPut(b)])
  {
  }

  /** Where `memchr3` and `memchr` stop. */
  function ApcScan(bs: seq<Byte>): (i: nat)
    ensures i <= |bs| && forall b :: b in bs[..i] ==> !EndsApc(b)
    ensures i < |bs| ==> EndsApc(bs[i])
  {
    var asciiTerm := Min(Memchr(CAN, bs), Min(Memchr(SUB, bs), Memchr(ESC, bs)));
    var i := Min(asciiTerm, Memchr(ST, bs));
    assert forall t: nat :: i <= t <= |bs| ==> bs[..i] <= bs[..t];
    i
  }

  /** The bulk scan and the terminator after it are a run. */
  lemma ApcSlice(v: Vt, log: seq<Event>, bs: seq<Byte>)
    requires v.state.ApcString?
    ensures var i := ApcScan(bs);
            && Run(true, Conf(v, log), bs) == Run(true, Conf(v, log + ApcPuts(bs[..i])), bs[i..])
            && (i < |bs| ==> Run(true, Conf(v, log), bs)
                             == Run(true, Next(true, Conf(v, log + ApcPuts(bs[..i])), bs[i]), bs[i + 1..]))
  {
    hide Next;
    var i := ApcScan(bs);
    assert bs == bs[..i] + bs[i..];
    RunApcPayload(v, log, bs[..i], bs[i..]);
    if i < |bs| {
      assert bs[i..][1..] == bs[i + 1..];
    }
  }
}
