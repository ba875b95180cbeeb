/** Device control strings: their introduction is read as a control sequence is, and their
    payload is put byte by byte until a terminator. */
module VteDcs {
  import opened VteTypes
  import opened VteMachine
  import opened VteGround
  import opened VteCsi
  import opened VteApc
  import opened VteChunks

  predicate InCsi(s: State) {
    s in {CsiEntry, CsiParam, CsiIntermediate, CsiIgnore}
  }

  /** The same parser within a device control string. */
  function Twin(v: Vt): Vt {
    v.(state := match v.state
                case CsiEntry => DcsEntry
                case CsiParam => DcsParam
                case CsiIntermediate => DcsIntermediate
                case CsiIgnore => DcsIgnore
                case _ => v.state)
  }

  lemma TwinStep(bulk: bool, v: Vt, b: Byte)
    requires InCsi(v.state) && 0x20 <= b <= 0x3F
    ensures var d := Step(bulk, v, b);
            InCsi(d.vt.state) && d.log == [] && Step(bulk, Twin(v), b) == Conf(Twin(d.vt), [])
  {
    hide Collect, ParamByte;
    CollectTwin(v, b);
    if b <= 0x3B {
      ParamByteTwin(v, b);
    }
  }

  /** Collecting does not look at the state. */
  lemma CollectTwin(v: Vt, b: Byte)
    ensures Collect(Twin(v), b) == Collect(v, b).(state := Twin(v).state) && Collect(v, b).state == v.state
  {
  }

  lemma ParamByteTwin(v: Vt, b: Byte)
    requires 0x20 <= b <= 0x3B
    ensures var d := ParamByte(v, b, CsiParam, CsiIntermediate);
            && ParamByte(Twin(v), b, DcsParam, DcsIntermediate) == Conf(Twin(d.vt), [])
            && d.log == [] && d.vt.state in {CsiParam, CsiIntermediate}
  {
    hide Values;
  }

  /** Both read parameters and intermediates alike, without a callback. */
  lemma {:induction false} TwinRun(bulk: bool, v: Vt, log: seq<Event>, bs: seq<Byte>)
    requires InCsi(v.state) && forall b :: b in bs ==> 0x20 <= b <= 0x3F
    ensures var d := Run(bulk, Conf(v, log), bs);
            InCsi(d.vt.state) && d.log == log && Run(bulk, Conf(Twin(v), log), bs) == Conf(Twin(d.vt), log)
    decreases |bs|
  {
    hide Step, Twin, InCsi;
    if bs != [] {
      assert bs[0] in bs && forall b :: b in bs[1..] ==> b in bs;
      TwinStep(bulk, v, bs[0]);
      assert log + [] == log;
      TwinRun(bulk, Step(bulk, v, bs[0]).vt, log, bs[1..]);
    }
  }

  /** Where the one dispatches, the other hooks with the same arguments. */
  lemma TwinFinal(bulk: bool, v: Vt, b: Byte, gs: seq<seq<U16>>, inters: seq<Byte>, ignore: bool)
    requires InCsi(v.state) && 0x40 <= b <= 0x7E && Step(bulk, v, b).log == [CsiDispatch(gs, inters, ignore, b)]
    ensures var d := Step(bulk, Twin(v), b);
            d.log == [Hook(gs, inters, ignore, b)] && d.vt.state.DcsPassthrough?
  {
    hide Values;
  }

  /** ESC `P`, or the C1 control. */
  function Introducer(c1: bool): seq<Byte> {
    if c1 then [0x90] else [ESC, 0x50]
  }

  lemma Introduced(bulk: bool, v: Vt, log: seq<Event>, c1: bool)
    requires Fresh(v)
    ensures Run(bulk, Conf(v, log), Introducer(c1)) == Conf(Twin(Reset(v).(state := CsiEntry)), log)
  {
    assert log + [] == log && [ESC] + [0x50] == [ESC, 0x50];
    if c1 {
      RunOne(bulk, Conf(v, log), 0x90);
    } else {
      RunOne(bulk, Conf(v, log), ESC);
      RunAppend(bulk, Conf(v, log), [ESC], 0x50);
      assert Reset(Reset(v)) == Reset(v);
    }
  }

  function DcsText(c1: bool, marker: seq<Byte>, gs: seq<Group>, inters: seq<Byte>, final: Byte): seq<Byte>
    requires IsParamList(gs)
  {
    Introducer(c1) + (marker + (ParamText(gs) + inters + [final]))
  }

  /** A printed introduction yields one hook: the first 32 values in their groups, each
      saturated; the first two collected bytes; and the ignore flag exactly when there were
      more of either. The string is then open. */
  lemma DcsCharacterisation(bulk: bool, v: Vt, log: seq<Event>,
                            c1: bool, marker: seq<Byte>, gs: seq<Group>, inters: seq<Byte>, final: Byte)
    requires Fresh(v) && IsMarker(marker) && IsParamList(gs) && IsIntermediates(inters) && 0x40 <= final <= 0x7E
    ensures var d := Run(bulk, Conf(v, log), DcsText(c1, marker, gs, inters, final));
            && d.vt.state.DcsPassthrough?
            && d.log == log + [Hook(Take(ListValues(gs), MAX_PARAMS), Limited(marker + inters),
                                    Values(ListValues(gs)) > MAX_PARAMS || |marker + inters| > MAX_INTERMEDIATES,
                                    final)]
  {
    hide Run, Step, Take, Values, ListValues, ParamText, Twin;
    var e, body := Reset(v).(state := CsiEntry), marker + (ParamText(gs) + inters);
    var tail := marker + (ParamText(gs) + inters + [final]);
    assert tail == body + [final];
    BodyBytes(marker, gs, inters);
    CsiCharacterisation(bulk, v, log, c1, marker, gs, inters, final);
    VteCsi.Introduced(bulk, v, log, c1);
    RunConcat(bulk, Conf(v, log), VteCsi.Introducer(c1), tail);
    RunAppend(bulk, Conf(e, log), body, final);
    TwinRun(bulk, e, log, body);
    var w := Run(bulk, Conf(e, log), body).vt;
    var made := Step(bulk, w, final).log;
    assert (log + made)[|log|..] == made;
    TwinFinal(bulk, w, final, Take(ListValues(gs), MAX_PARAMS), Limited(marker + inters),
              Values(ListValues(gs)) > MAX_PARAMS || |marker + inters| > MAX_INTERMEDIATES);
    Introduced(bulk, v, log, c1);
    RunConcat(bulk, Conf(v, log), Introducer(c1), tail);
    RunAppend(bulk, Conf(Twin(e), log), body, final);
  }

  lemma BodyBytes(marker: seq<Byte>, gs: seq<Group>, inters: seq<Byte>)
    requires IsMarker(marker) && IsParamList(gs) && IsIntermediates(inters)
    ensures forall b :: b in marker + (ParamText(gs) + inters) ==> 0x20 <= b <= 0x3F
  {
    hide ParamText;
    forall b | b in marker + (ParamText(gs) + inters) ensures 0x20 <= b <= 0x3F {
      if b in ParamText(gs) {
        ParamTextByte(gs, b);
      }
    }
  }

  /** Up to the limits, the values that were printed are the values of the hook. */
  lemma DcsRoundTrip(bulk: bool, v: Vt, log: seq<Event>,
                     c1: bool, marker: seq<Byte>, vss: seq<seq<U16>>, inters: seq<Byte>, final: Byte)
    requires Fresh(v) && IsMarker(marker) && IsIntermediates(inters) && 0x40 <= final <= 0x7E
    requires vss != [] && (forall g :: g in vss ==> g != [])
    requires Values(vss) <= MAX_PARAMS && |marker + inters| <= MAX_INTERMEDIATES
    ensures IsParamList(Printed(vss))
    ensures Run(bulk, Conf(v, log), DcsText(c1, marker, Printed(vss), inters, final)).log
            == log + [Hook(vss, marker + inters, false, final)]
  {
    hide Run, Take, Values, Printed, ListValues;
    PrintedValues(vss);
    DcsCharacterisation(bulk, v, log, c1, marker, Printed(vss), inters, final);
    TakeAll(vss, MAX_PARAMS);
    assert Limited(marker + inters) == marker + inters;
  }

  // ---- From the hook to the terminator ----

  /** One put for each payload byte below 0x7F, and nothing for DEL and above. */
  function DcsPuts(bs: seq<Byte>): seq<Event> {
    if bs == [] then [] else (if bs[0] < 0x7F then [Put(bs[0])] else []) + DcsPuts(bs[1..])
  }

  lemma {:induction false} RunPuts(bulk: bool, v: Vt, log: seq<Event>, payload: seq<Byte>)
    requires v.state.DcsPassthrough? && forall b :: b in payload ==> !EndsString(b)
    ensures Run(bulk, Conf(v, log), payload) == Conf(v, log + DcsPuts(payload))
    decreases |payload|
  {
    if payload == [] {
      assert log + [] == log;
    } else {
      var b, rest := payload[0], payload[1..];
      assert b in payload && forall x :: x in rest ==> x in payload;
      var puts := if b < 0x7F then [Put(b)] else [];
      assert Next(bulk, Conf(v, log), b) == Conf(v, log + puts);
      RunPuts(bulk, v, log + puts, rest);
      assert log + puts + DcsPuts(rest) == log + (puts + DcsPuts(rest));
    }
  }

  /** The hook that a printed introduction makes. */
  function HookOf(marker: seq<Byte>, gs: seq<Group>, inters: seq<Byte>, final: Byte): Event {
    Hook(Take(ListValues(gs), MAX_PARAMS), Limited(marker + inters),
         Values(ListValues(gs)) > MAX_PARAMS || |marker + inters| > MAX_INTERMEDIATES, final)
  }

  lemma DcsPayload(bulk: bool, v: Vt, log: seq<Event>, c1: bool, marker: seq<Byte>, gs: seq<Group>,
                   inters: seq<Byte>, final: Byte, payload: seq<Byte>) returns (w: Vt)
    requires Fresh(v) && IsMarker(marker) && IsParamList(gs) && IsIntermediates(inters) && 0x40 <= final <= 0x7E
    requires forall b :: b in payload ==> !EndsString(b)
    ensures Run(bulk, Conf(v, log), DcsText(c1, marker, gs, inters, final) + payload)
            == Conf(w, log + [HookOf(marker, gs, inters, final)] + DcsPuts(payload))
    ensures w.state.DcsPassthrough?
  {
    hide Run, DcsText, EndsString, Take, ListValues, Values, Limited;
    var intro := DcsText(c1, marker, gs, inters, final);
    DcsCharacterisation(bulk, v, log, c1, marker, gs, inters, final);
    RunConcat(bulk, Conf(v, log), intro, payload);
    w := Run(bulk, Conf(v, log), intro).vt;
    RunPuts(bulk, w, log + [HookOf(marker, gs, inters, final)], payload);
  }

  /** A device control string from its introducer to 0x9C, CAN or SUB: the hook, the puts in
      order, and the unhook, which CAN and SUB report as an abort and are executed after. */
  lemma DcsDelivers(bulk: bool, v: Vt, log: seq<Event>, c1: bool, marker: seq<Byte>, gs: seq<Group>,
                    inters: seq<Byte>, final: Byte, payload: seq<Byte>, last: Byte)
    requires Fresh(v) && IsMarker(marker) && IsParamList(gs) && IsIntermediates(inters) && 0x40 <= final <= 0x7E
    requires last in {0x9C, 0x18, 0x1A} && forall b :: b in payload ==> !EndsString(b)
    ensures var d := Run(bulk, Conf(v, log), DcsText(c1, marker, gs, inters, final) + payload + [last]);
            && d.log == log + [HookOf(marker, gs, inters, final)] + DcsPuts(payload)
                            + (if last == 0x9C then [Unhook] else [NotifyDcsAbort, Unhook, Execute(last)])
            && d.vt.state.Ground?
  {
    hide Run, DcsText, EndsString, HookOf, DcsPuts;
    var w := DcsPayload(bulk, v, log, c1, marker, gs, inters, final, payload);
    RunAppend(bulk, Conf(v, log), DcsText(c1, marker, gs, inters, final) + payload, last);
  }

  /** C0 controls behind a pending ESC are executed, and DEL is dropped. */
  function EscapedControls(bs: seq<Byte>): seq<Event> {
    if bs == [] then [] else (if bs[0] != 0x7F then [Execute(bs[0])] else []) + EscapedControls(bs[1..])
  }

  predicate ControlOrDel(b: Byte) {
    b <= 0x17 || b == 0x19 || 0x1C <= b <= 0x1F || b == 0x7F
  }

  lemma {:induction false} RunEscaped(bulk: bool, v: Vt, log: seq<Event>, controls: seq<Byte>)
    requires v.state.DcsEscape? && forall b :: b in controls ==> ControlOrDel(b)
    ensures Run(bulk, Conf(v, log), controls) == Conf(v, log + EscapedControls(controls))
    decreases |controls|
  {
    if controls == [] {
      assert log + [] == log;
    } else {
      var b, rest := controls[0], controls[1..];
      assert b in controls && forall x :: x in rest ==> x in controls;
      var executed := if b != 0x7F then [Execute(b)] else [];
      assert Next(bulk, Conf(v, log), b) == Conf(v, log + executed);
      RunEscaped(bulk, v, log + executed, rest);
      assert log + executed + EscapedControls(rest) == log + (executed + EscapedControls(rest));
    }
  }

  lemma EscapePending(bulk: bool, v: Vt, log: seq<Event>)
    requires v.state.DcsPassthrough?
    ensures Next(bulk, Conf(v, log), 0x1B) == Conf(v.(state := DcsEscape), log)
  {
    assert log + [] == log;
  }

  lemma EscapeDecided(bulk: bool, v: Vt, log: seq<Event>, b: Byte)
    requires v.state.DcsEscape? && v.partial == [] && !ControlOrDel(b)
    ensures b == 0x5C ==> Next(bulk, Conf(v, log), b) == Conf(v.(state := Ground), log + [Unhook])
    ensures b != 0x5C ==>
              Next(bulk, Conf(v, log), b)
              == Run(bulk, Conf(v.(state := Ground), log + [NotifyDcsAbort, Unhook]), [0x1B, b])
  {
    if b != 0x5C {
      var c, log' := v.(state := Ground), log + [NotifyDcsAbort, Unhook];
      assert [0x1B] + [b] == [0x1B, b] && log' + [] == log';
      RunOne(bulk, Conf(c, log'), 0x1B);
      RunAppend(bulk, Conf(c, log'), [0x1B], b);
      hide EscapeByte;
      var made := EscapeByte(Reset(v).(state := Escape), b).log;
      assert log + ([NotifyDcsAbort, Unhook] + made) == log' + made;
    }
  }

  /** A device control string up to ESC and what follows it: `\` ends the string; any other
      byte aborts it and is read as if a new escape sequence began. */
  lemma DcsEscapeDecides(bulk: bool, v: Vt, log: seq<Event>, c1: bool, marker: seq<Byte>, gs: seq<Group>,
                         inters: seq<Byte>, final: Byte, payload: seq<Byte>, controls: seq<Byte>, b: Byte)
      returns (w: Vt)
    requires Fresh(v) && IsMarker(marker) && IsParamList(gs) && IsIntermediates(inters) && 0x40 <= final <= 0x7E
    requires forall x :: x in payload ==> !EndsString(x)
    requires (forall x :: x in controls ==> ControlOrDel(x)) && !ControlOrDel(b)
    ensures var d := Run(bulk, Conf(v, log),
                         DcsText(c1, marker, gs, inters, final) + payload + [0x1B] + controls + [b]);
            var before := log + [HookOf(marker, gs, inters, final)] + DcsPuts(payload) + EscapedControls(controls);
            && Fresh(w)
            && d == if b == 0x5C then Conf(w, before + [Unhook])
                    else Run(bulk, Conf(w, before + [NotifyDcsAbort, Unhook]), [0x1B, b])
  {
    hide Run, DcsText, EndsString, HookOf, DcsPuts, ControlOrDel, EscapedControls;
    var head := DcsText(c1, marker, gs, inters, final) + payload;
    var u := DcsPayload(bulk, v, log, c1, marker, gs, inters, final, payload);
    RunAtBoundary(bulk, Conf(v, log), head);
    var log' := log + [HookOf(marker, gs, inters, final)] + DcsPuts(payload);
    EscapePending(bulk, u, log');
    RunAppend(bulk, Conf(v, log), head, 0x1B);
    RunConcat(bulk, Conf(v, log), head + [0x1B], controls);
    RunEscaped(bulk, u.(state := DcsEscape), log', controls);
    RunAppend(bulk, Conf(v, log), head + [0x1B] + controls, b);
    EscapeDecided(bulk, u.(state := DcsEscape), log' + EscapedControls(controls), b);
    w := u.(state := Ground);
  }
}
