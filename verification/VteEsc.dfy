/** Plain escape sequences: ESC, intermediates and a final byte. */
module VteEsc {
  import opened VteTypes
  import opened VteMachine
  import opened VteGround
  import opened VteCsi

  /** The final bytes that open a string or a longer sequence instead, when they follow ESC
      directly: `P`, `X`, `[`, `]`, `^` and `_`. */
  const INTRODUCERS: set<Byte> := {0x50, 0x58, 0x5B, 0x5D, 0x5E, 0x5F}

  lemma CollectStep(bulk: bool, v: Vt, all: seq<Byte>, b: Byte)
    requires v.state in {Escape, EscapeIntermediate} && 0x20 <= b <= 0x2F && v.intermediates == Limited(all)
    ensures Step(bulk, v, b)
            == Conf(v.(state := EscapeIntermediate, intermediates := Limited(all + [b]),
                       ignoring := v.ignoring || |all| >= MAX_INTERMEDIATES), [])
  {
  }

  /** The intermediates after ESC: the first two are kept, and a third sets the flag. */
  lemma {:induction false} EscIntermediatesRead(bulk: bool, v: Vt, log: seq<Event>, inters: seq<Byte>)
    requires v.state.Escape? && v.intermediates == [] && !v.ignoring && IsIntermediates(inters)
    ensures Run(bulk, Conf(v, log), inters)
            == Conf(v.(state := if inters == [] then Escape else EscapeIntermediate,
                       intermediates := Limited(inters), ignoring := |inters| > MAX_INTERMEDIATES), log)
    decreases |inters|
  {
    hide Run, Step;
    if inters == [] {
      RunNil(bulk, Conf(v, log));
    } else {
      var k := |inters| - 1;
      assert inters == inters[..k] + [inters[k]];
      EscIntermediatesRead(bulk, v, log, inters[..k]);
      RunAppend(bulk, Conf(v, log), inters[..k], inters[k]);
      assert log + [] == log;
      CollectStep(bulk, Run(bulk, Conf(v, log), inters[..k]).vt, inters[..k], inters[k]);
    }
  }

  lemma FinalStep(bulk: bool, v: Vt, b: Byte)
    requires v.state in {Escape, EscapeIntermediate} && 0x30 <= b <= 0x7E
    ensures var d := Step(bulk, v, b);
            if v.state.EscapeIntermediate? || b !in INTRODUCERS
            then d.vt.state.Ground? && d.log == [EscDispatch(v.intermediates, v.ignoring, b)]
            else !d.vt.state.Ground? && d.log == if b == 0x5F then [ApcStart] else []
  {
  }

  /** An escape sequence yields one dispatch, with its first two intermediates and the flag
      set exactly when there were more, exactly unless its final byte opens something else. */
  lemma EscCharacterisation(bulk: bool, v: Vt, log: seq<Event>, inters: seq<Byte>, final: Byte)
    requires Fresh(v) && IsIntermediates(inters) && 0x30 <= final <= 0x7E
    ensures var d := Run(bulk, Conf(v, log), [ESC] + inters + [final]);
            var dispatched := log + [EscDispatch(Limited(inters), |inters| > MAX_INTERMEDIATES, final)];
            && (d.log == dispatched <==> inters != [] || final !in INTRODUCERS)
            && (d.log == dispatched <==> d.vt.state.Ground?)
  {
    hide Run, Step, Limited;
    var e := Reset(v).(state := Escape);
    RunAppend(bulk, Conf(v, log), [ESC] + inters, final);
    RunConcat(bulk, Conf(v, log), [ESC], inters);
    RunOne(bulk, Conf(v, log), ESC);
    EscStep(bulk, v);
    assert log + [] == log;
    EscIntermediatesRead(bulk, e, log, inters);
    var w := Run(bulk, Conf(e, log), inters).vt;
    FinalStep(bulk, w, final);
    assert (log + Step(bulk, w, final).log)[|log|..] == Step(bulk, w, final).log;
    var dispatch := [EscDispatch(w.intermediates, w.ignoring, final)];
    assert (log + dispatch)[|log|..] == dispatch;
  }

  lemma EscStep(bulk: bool, v: Vt)
    requires Fresh(v)
    ensures Step(bulk, v, ESC) == Conf(Reset(v).(state := Escape), [])
  {
  }
}
