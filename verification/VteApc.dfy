/** Application program strings from introducer to terminator, and the strings that are
    ignored: start of string and privacy messages. */
module VteApc {
  import opened VteTypes
  import opened VteMachine
  import opened VteGround

  /** CAN, SUB, ESC and 0x9C end a string. */
  predicate EndsString(b: Byte) {
    b == 0x18 || b == 0x1A || b == 0x1B || b == 0x9C
  }

  /** ESC begins an escape sequence, and the other three lead to Ground. */
  predicate EndedBy(v: Vt, last: Byte) {
    if last == 0x1B then v.state.Escape? && NoParams(v) else v.state.Ground?
  }

  /** CAN and SUB are executed. */
  function ExecutedEnd(last: Byte): seq<Event> {
    if last == 0x18 || last == 0x1A then [Execute(last)] else []
  }

  // ---- Application program strings ----

  /** `advance` puts every payload byte, `advance_until_terminated` only ASCII. */
  function ApcPayload(bulk: bool, bs: seq<Byte>): seq<Event> {
    if bs == [] then []
    else (if bulk || bs[0] < 0x80 then [ApcPut(bs[0])] else []) + ApcPayload(bulk, bs[1..])
  }

  /** ESC `_`, or the C1 control. */
  function ApcIntroducer(c1: bool): seq<Byte> {
    if c1 then [0x9F] else [0x1B, 0x5F]
  }

  lemma PayloadStep(bulk: bool, v: Vt, b: Byte)
    requires v.state.ApcString? && !EndsString(b)
    ensures Step(bulk, v, b) == Conf(v, if bulk || b < 0x80 then [ApcPut(b)] else [])
  {
  }

  lemma {:induction false} RunPayload(bulk: bool, v: Vt, log: seq<Event>, payload: seq<Byte>)
    requires v.state.ApcString? && forall b :: b in payload ==> !EndsString(b)
    ensures Run(bulk, Conf(v, log), payload) == Conf(v, log + ApcPayload(bulk, payload))
    decreases |payload|
  {
    hide Step, EndsString;
    if payload == [] {
      assert log + [] == log;
    } else {
      var b, rest := payload[0], payload[1..];
      assert b in payload && forall x :: x in rest ==> x in payload;
      var puts := if bulk || b < 0x80 then [ApcPut(b)] else [];
      PayloadStep(bulk, v, b);
      RunPayload(bulk, v, log + puts, rest);
      assert log + puts + ApcPayload(bulk, rest) == log + (puts + ApcPayload(bulk, rest));
    }
  }

  lemma ApcOpens(bulk: bool, v: Vt, log: seq<Event>, c1: bool) returns (w: Vt)
    requires Fresh(v)
    ensures Run(bulk, Conf(v, log), ApcIntroducer(c1)) == Conf(w, log + [ApcStart]) && w.state.ApcString?
  {
    assert log + [] == log && [0x1B] + [0x5F] == [0x1B, 0x5F];
    if c1 {
      w := v.(state := ApcString);
      RunOne(bulk, Conf(v, log), 0x9F);
    } else {
      w := Reset(v).(state := ApcString);
      RunOne(bulk, Conf(v, log), 0x1B);
      RunAppend(bulk, Conf(v, log), [0x1B], 0x5F);
    }
  }

  lemma ApcCloses(bulk: bool, v: Vt, last: Byte)
    requires v.state.ApcString? && EndsString(last)
    ensures var d := Step(bulk, v, last); d.log == [ApcEnd] + ExecutedEnd(last) && EndedBy(d.vt, last)
  {
  }

  /** An application program string, from its introducer to its terminator: one start, one
      put for each payload byte that the entry point forwards, and one end. */
  lemma ApcDelivers(bulk: bool, v: Vt, log: seq<Event>, c1: bool, payload: seq<Byte>, last: Byte)
    requires Fresh(v) && EndsString(last) && forall b :: b in payload ==> !EndsString(b)
    ensures var d := Run(bulk, Conf(v, log), ApcIntroducer(c1) + payload + [last]);
            && d.log == log + [ApcStart] + ApcPayload(bulk, payload) + [ApcEnd] + ExecutedEnd(last)
            && EndedBy(d.vt, last)
  {
    hide Run, Step, ApcIntroducer, ApcPayload, ExecutedEnd, EndsString;
    var w := ApcOpens(bulk, v, log, c1);
    RunAppend(bulk, Conf(v, log), ApcIntroducer(c1) + payload, last);
    RunConcat(bulk, Conf(v, log), ApcIntroducer(c1), payload);
    RunPayload(bulk, w, log + [ApcStart], payload);
    ApcCloses(bulk, w, last);
  }

  // ---- Strings that are ignored ----

  /** ESC `X` and ESC `^`, and the C1 controls. */
  predicate OpensIgnored(intro: seq<Byte>) {
    intro == [0x1B, 0x58] || intro == [0x1B, 0x5E] || intro == [0x98] || intro == [0x9E]
  }

  lemma IgnoredOpens(bulk: bool, v: Vt, log: seq<Event>, intro: seq<Byte>) returns (w: Vt)
    requires Fresh(v) && OpensIgnored(intro)
    ensures Run(bulk, Conf(v, log), intro) == Conf(w, log) && w.state.SosPmApcString?
  {
    assert log + [] == log;
    if |intro| == 1 {
      w := v.(state := SosPmApcString);
      RunOne(bulk, Conf(v, log), intro[0]);
    } else {
      w := Reset(v).(state := SosPmApcString);
      assert intro == [0x1B] + [intro[1]];
      RunOne(bulk, Conf(v, log), 0x1B);
      RunAppend(bulk, Conf(v, log), [0x1B], intro[1]);
    }
  }

  /** The states in which everything up to a terminator is dropped. */
  predicate Ignoring(s: State) {
    s.SosPmApcString? || s.DcsIgnore?
  }

  lemma IgnoredStep(bulk: bool, v: Vt, b: Byte)
    requires Ignoring(v.state) && !EndsString(b)
    ensures Step(bulk, v, b) == Conf(v, [])
  {
  }

  lemma {:induction false} RunIgnored(bulk: bool, v: Vt, log: seq<Event>, bs: seq<Byte>)
    requires Ignoring(v.state) && forall b :: b in bs ==> !EndsString(b)
    ensures Run(bulk, Conf(v, log), bs) == Conf(v, log)
    decreases |bs|
  {
    hide Step, EndsString, Ignoring;
    if bs != [] {
      assert bs[0] in bs && forall x :: x in bs[1..] ==> x in bs;
      assert log + [] == log;
      IgnoredStep(bulk, v, bs[0]);
      RunIgnored(bulk, v, log, bs[1..]);
    }
  }

  lemma IgnoredEnds(bulk: bool, v: Vt, last: Byte)
    requires Ignoring(v.state) && EndsString(last)
    ensures var d := Step(bulk, v, last); d.log == ExecutedEnd(last) && EndedBy(d.vt, last)
  {
  }

  /** A start of string or privacy message reports nothing but a CAN or SUB that ends it. */
  lemma IgnoredStringIsSilent(bulk: bool, v: Vt, log: seq<Event>, intro: seq<Byte>, payload: seq<Byte>, last: Byte)
    requires Fresh(v) && OpensIgnored(intro) && EndsString(last) && forall b :: b in payload ==> !EndsString(b)
    ensures var d := Run(bulk, Conf(v, log), intro + payload + [last]);
            d.log == log + ExecutedEnd(last) && EndedBy(d.vt, last)
  {
    hide Run, Step, ExecutedEnd, EndsString, OpensIgnored;
    var w := IgnoredOpens(bulk, v, log, intro);
    RunAppend(bulk, Conf(v, log), intro + payload, last);
    RunConcat(bulk, Conf(v, log), intro, payload);
    RunIgnored(bulk, w, log, payload);
    IgnoredEnds(bulk, w, last);
  }
}
