/** What every reachable parser satisfies, and what it forgets. */
module VteHistory {
  import opened VteTypes
  import opened Utf8
  import opened VteMachine
  import opened VteGround
  import opened VteChunks

  // ---- The invariant ----

  predicate Cleared(v: Vt) {
    v == Reset(v)
  }

  /** Parameters and intermediates fit their arrays, and no group is empty. */
  predicate ParamsFit(v: Vt) {
    && |v.intermediates| <= MAX_INTERMEDIATES
    && Values(v.groups) + |v.open| <= MAX_PARAMS
    && forall g :: g in v.groups ==> g != []
  }

  /** The OSC buffer and its index table are in bounds, and empty outside an OSC. */
  ghost predicate OscFits(v: Vt) {
    && |v.oscBounds| <= MAX_OSC_PARAMS && |v.oscRaw| <= MAX_OSC_RAW
    && Tiled(v.oscBounds) && EndOf(v.oscBounds) <= |v.oscRaw|
    && (!v.state.OscString? ==> v.oscRaw == [] && v.oscBounds == [])
  }

  ghost predicate Inv(v: Vt) {
    && (v.partial == [] || Pending(v))
    && (v.state in {Escape, CsiEntry, DcsEntry} ==> Cleared(v))
    && ParamsFit(v)
    && OscFits(v)
  }

  lemma NoValues()
    ensures Values([]) == 0
  {
  }

  /** `w` differs from `v` at most in what a sequence collects. */
  predicate SameButSequence(v: Vt, w: Vt) {
    w == v.(intermediates := w.intermediates, groups := w.groups, open := w.open, param := w.param,
            ignoring := w.ignoring)
  }

  lemma ActionsFit(v: Vt, b: Byte)
    requires ParamsFit(v)
    ensures ParamsFit(Pushed(v)) && ParamsFit(NextParam(v)) && ParamsFit(NextSubParam(v)) && ParamsFit(Collect(v, b))
    ensures 0x30 <= b <= 0x39 ==> ParamsFit(Digit(v, b)) && SameButSequence(v, Digit(v, b))
    ensures SameButSequence(v, Pushed(v)) && SameButSequence(v, NextParam(v))
    ensures SameButSequence(v, NextSubParam(v)) && SameButSequence(v, Collect(v, b))
  {
    assert (v.groups + [v.open + [v.param]])[..|v.groups|] == v.groups;
  }

  lemma OscPutFits(v: Vt, b: Byte)
    requires OscFits(v) && v.state.OscString?
    ensures OscFits(OscPut(v, b)) && OscFits(OscPutParam(v))
    ensures var w := OscPut(v, b); w == v.(oscRaw := w.oscRaw, oscBounds := w.oscBounds)
    ensures var w := OscPutParam(v); w == v.(oscBounds := w.oscBounds)
  {
    hide Tiled;
    TiledSnoc(v.oscBounds, |v.oscRaw|);
  }

  lemma FreshInv(v: Vt, b: Byte)
    requires Inv(v) && v.state.Ground? && v.partial == []
    ensures Inv(FreshByte(v, b).vt)
  {
    hide Values;
    NoValues();
  }

  lemma GroundInv(v: Vt, b: Byte)
    requires Inv(v) && v.state.Ground?
    ensures Inv(GroundByte(v, b).vt)
  {
    hide Values, FreshByte, TablePrefix, CodePoint;
    FreshInv(v.(partial := []), b);
    assert v.partial == [] ==> v == v.(partial := []);
  }

  lemma CsiInv(v: Vt, b: Byte)
    requires Inv(v) && v.state in {CsiEntry, CsiIgnore, CsiIntermediate, CsiParam}
    ensures Inv(CsiByte(v, b).vt)
  {
    hide Values, TablePrefix, Pushed, NextParam, NextSubParam, Digit, Collect;
    ActionsFit(v, b);
    NoValues();
  }

  lemma DcsInv(v: Vt, b: Byte)
    requires Inv(v) && v.state in {DcsEntry, DcsIgnore, DcsIntermediate, DcsParam}
    ensures Inv(DcsByte(v, b).vt)
  {
    hide Values, TablePrefix, Pushed, NextParam, NextSubParam, Digit, Collect;
    ActionsFit(v, b);
    NoValues();
  }

  lemma EscapeInv(v: Vt, b: Byte)
    requires Inv(v) && v.state in {Escape, EscapeIntermediate}
    ensures v.state.Escape? ==> Inv(EscapeByte(v, b).vt)
    ensures v.state.EscapeIntermediate? ==> Inv(EscapeIntermediateByte(v, b).vt)
  {
    hide Values, TablePrefix;
    NoValues();
  }

  lemma OscInv(v: Vt, b: Byte)
    requires Inv(v) && v.state.OscString?
    ensures Inv(OscByte(v, b).vt)
  {
    hide Values, TablePrefix;
    NoValues();
    OscPutFits(v, b);
  }

  lemma StringInv(v: Vt, b: Byte)
    requires Inv(v) && v.state in {ApcString, SosPmApcString, DcsPassthrough}
    ensures Inv(Anywhere(v, b).vt) && Inv(ApcByte(true, v, b).vt) && Inv(PassthroughByte(v, b).vt)
  {
    hide Values, TablePrefix;
    NoValues();
  }

  lemma StepInv(bulk: bool, v: Vt, b: Byte)
    requires Inv(v)
    ensures Inv(Step(bulk, v, b).vt)
  {
    hide Values, TablePrefix, GroundByte, CsiByte, DcsByte, EscapeByte, EscapeIntermediateByte;
    hide OscByte, Anywhere, PassthroughByte;
    NoValues();
    match v.state
    case Ground => GroundInv(v, b);
    case CsiEntry | CsiIgnore | CsiIntermediate | CsiParam => CsiInv(v, b);
    case DcsEntry | DcsIgnore | DcsIntermediate | DcsParam => DcsInv(v, b);
    case Escape | EscapeIntermediate => EscapeInv(v, b);
    case DcsEscape => EscapeInv(Reset(v).(state := Escape), b);
    case OscString => OscInv(v, b);
    case _ => StringInv(v, b);
  }

  lemma {:induction false} RunInv(bulk: bool, c: Conf, bs: seq<Byte>)
    requires Inv(c.vt)
    ensures Inv(Run(bulk, c, bs).vt)
    decreases |bs|
  {
    hide Inv, Step;
    if bs != [] {
      StepInv(bulk, c.vt, bs[0]);
      RunInv(bulk, Next(bulk, c, bs[0]), bs[1..]);
    }
  }

  lemma {:induction false} AdvanceAllInv(c: Conf, chunks: seq<seq<Byte>>)
    requires Inv(c.vt)
    ensures Inv(AdvanceAll(c, chunks).vt)
    decreases |chunks|
  {
    hide Run;
    if chunks != [] {
      var v, bs := c.vt.(partial := []), chunks[0];
      RunInv(true, c, bs);
      if BadSplit(c.vt.partial, bs) {
        assert Inv(v);
        var log := c.log + [Print(CodePoint(c.vt.partial + bs[..1]))];
        RunInv(true, Conf(v, log), if LosesByte(c.vt.partial, bs) then bs[2..] else bs[1..]);
      }
      AdvanceAllInv(Advance(true, c, bs), chunks[1..]);
    }
  }

  // ---- History independence ----

  predicate ReadsIntermediates(s: State) {
    s in {Escape, EscapeIntermediate} || ReadsParams(s)
  }

  predicate ReadsParams(s: State) {
    s in {CsiEntry, CsiParam, CsiIntermediate, DcsEntry, DcsParam, DcsIntermediate}
  }

  /** The two parsers agree on all that their state will still read; the rest may be
      left over from any earlier sequences. */
  predicate Alike(v: Vt, w: Vt) {
    && v.state == w.state && v.partial == w.partial
    && (ReadsIntermediates(v.state) ==> v.intermediates == w.intermediates && v.ignoring == w.ignoring)
    && (ReadsParams(v.state) ==> v.groups == w.groups && v.open == w.open && v.param == w.param)
    && (v.state.OscString? ==> v.oscRaw == w.oscRaw && v.oscBounds == w.oscBounds)
  }

  lemma ActionsAlike(v: Vt, w: Vt, b: Byte)
    requires Alike(v, w) && ReadsParams(v.state)
    ensures Alike(Pushed(v), Pushed(w)) && Alike(NextParam(v), NextParam(w)) && Alike(NextSubParam(v), NextSubParam(w))
    ensures 0x30 <= b <= 0x39 ==> Alike(Digit(v, b), Digit(w, b)) && Digit(v, b).state == v.state
    ensures Alike(Collect(v, b), Collect(w, b)) && Collect(v, b).state == v.state
    ensures Pushed(v).state == NextParam(v).state == NextSubParam(v).state == v.state
    ensures Groups(Pushed(v)) == Groups(Pushed(w))
  {
    hide Values;
  }

  lemma CsiAlike(v: Vt, w: Vt, b: Byte)
    requires Alike(v, w) && v.state in {CsiEntry, CsiIgnore, CsiIntermediate, CsiParam}
    ensures Alike(CsiByte(v, b).vt, CsiByte(w, b).vt) && CsiByte(v, b).log == CsiByte(w, b).log
  {
    hide Values, Digit, Collect, Pushed, NextParam, NextSubParam, Groups;
    if ReadsParams(v.state) {
      ActionsAlike(v, w, b);
    }
  }

  lemma DcsAlike(v: Vt, w: Vt, b: Byte)
    requires Alike(v, w) && v.state in {DcsEntry, DcsIgnore, DcsIntermediate, DcsParam}
    ensures Alike(DcsByte(v, b).vt, DcsByte(w, b).vt) && DcsByte(v, b).log == DcsByte(w, b).log
  {
    hide Values, Digit, Collect, Pushed, NextParam, NextSubParam, Groups;
    if ReadsParams(v.state) {
      ActionsAlike(v, w, b);
    }
  }

  lemma OscAlike(v: Vt, w: Vt, b: Byte)
    requires Alike(v, w) && v.state.OscString?
    ensures Alike(OscByte(v, b).vt, OscByte(w, b).vt) && OscByte(v, b).log == OscByte(w, b).log
  {
    hide Fields;
  }

  lemma StringAlike(bulk: bool, v: Vt, w: Vt, b: Byte)
    requires Alike(v, w) && v.state in {ApcString, SosPmApcString, DcsPassthrough}
    ensures Alike(ApcByte(bulk, v, b).vt, ApcByte(bulk, w, b).vt) && ApcByte(bulk, v, b).log == ApcByte(bulk, w, b).log
    ensures Alike(Anywhere(v, b).vt, Anywhere(w, b).vt) && Anywhere(v, b).log == Anywhere(w, b).log
    ensures Alike(PassthroughByte(v, b).vt, PassthroughByte(w, b).vt)
    ensures PassthroughByte(v, b).log == PassthroughByte(w, b).log
  {
  }

  lemma GroundAlike(v: Vt, w: Vt, b: Byte)
    requires Alike(v, w) && v.state.Ground?
    ensures Alike(GroundByte(v, b).vt, GroundByte(w, b).vt) && GroundByte(v, b).log == GroundByte(w, b).log
  {
    hide TablePrefix, CodePoint, SeqLen, GroundChar, FreshByte, Partial, Complete;
    FreshAlike(v, w, b);
    FreshAlike(v.(partial := []), w.(partial := []), b);
  }

  lemma FreshAlike(v: Vt, w: Vt, b: Byte)
    requires Alike(v, w) && v.state.Ground?
    ensures Alike(FreshByte(v, b).vt, FreshByte(w, b).vt) && FreshByte(v, b).log == FreshByte(w, b).log
  {
    hide SeqLen, GroundChar;
  }

  lemma EscapeAlike(v: Vt, w: Vt, b: Byte)
    requires Alike(v, w) && v.state.Escape?
    ensures Alike(EscapeByte(v, b).vt, EscapeByte(w, b).vt) && EscapeByte(v, b).log == EscapeByte(w, b).log
  {
  }

  lemma EscapeIntermediateAlike(v: Vt, w: Vt, b: Byte)
    requires Alike(v, w) && v.state.EscapeIntermediate?
    ensures Alike(EscapeIntermediateByte(v, b).vt, EscapeIntermediateByte(w, b).vt)
    ensures EscapeIntermediateByte(v, b).log == EscapeIntermediateByte(w, b).log
  {
  }

  lemma StepAlike(bulk: bool, v: Vt, w: Vt, b: Byte)
    requires Alike(v, w)
    ensures Alike(Step(bulk, v, b).vt, Step(bulk, w, b).vt)
    ensures Step(bulk, v, b).log == Step(bulk, w, b).log
  {
    hide CsiByte, DcsByte, EscapeByte, EscapeIntermediateByte, OscByte, PassthroughByte, GroundByte;
    hide ApcByte, Anywhere;
    match v.state
    case Ground => GroundAlike(v, w, b);
    case CsiEntry | CsiIgnore | CsiIntermediate | CsiParam => CsiAlike(v, w, b);
    case DcsEntry | DcsIgnore | DcsIntermediate | DcsParam => DcsAlike(v, w, b);
    case Escape => EscapeAlike(v, w, b);
    case EscapeIntermediate => EscapeIntermediateAlike(v, w, b);
    case DcsEscape => EscapeAlike(Reset(v).(state := Escape), Reset(w).(state := Escape), b);
    case OscString => OscAlike(v, w, b);
    case _ => StringAlike(bulk, v, w, b);
  }

  lemma {:induction false} RunAlike(bulk: bool, c: Conf, d: Conf, bs: seq<Byte>)
    requires Alike(c.vt, d.vt) && c.log == d.log
    ensures Alike(Run(bulk, c, bs).vt, Run(bulk, d, bs).vt)
    ensures Run(bulk, c, bs).log == Run(bulk, d, bs).log
    decreases |bs|
  {
    hide Alike, Step;
    if bs != [] {
      StepAlike(bulk, c.vt, d.vt, bs[0]);
      RunAlike(bulk, Next(bulk, c, bs[0]), Next(bulk, d, bs[0]), bs[1..]);
    }
  }

  lemma {:induction false} AdvanceAllAlike(c: Conf, d: Conf, chunks: seq<seq<Byte>>)
    requires Alike(c.vt, d.vt) && c.log == d.log
    ensures AdvanceAll(c, chunks).log == AdvanceAll(d, chunks).log
    decreases |chunks|
  {
    hide Run;
    if chunks != [] {
      var bs, p := chunks[0], c.vt.partial;
      RunAlike(true, c, d, bs);
      if BadSplit(p, bs) {
        var log := c.log + [Print(CodePoint(p + bs[..1]))];
        RunAlike(true, Conf(c.vt.(partial := []), log), Conf(d.vt.(partial := []), log),
                 if LosesByte(p, bs) then bs[2..] else bs[1..]);
      }
      AdvanceAllAlike(Advance(true, c, bs), Advance(true, d, bs), chunks[1..]);
    }
  }

  lemma CancelInGround(v: Vt, b: Byte)
    requires Inv(v) && (b == CAN || b == SUB) && v.state.Ground?
    ensures Fresh(GroundByte(v, b).vt)
    ensures var log := GroundByte(v, b).log; log != [] && log[|log| - 1] == Execute(b)
  {
    hide Values, CodePoint;
    assert v.partial != [] ==> !TablePrefix(v.partial + [b]);
  }

  /** From every reachable state, CAN and SUB lead to Ground between characters. */
  lemma CancelReachesGround(bulk: bool, v: Vt, b: Byte)
    requires Inv(v) && (b == CAN || b == SUB)
    ensures Fresh(Step(bulk, v, b).vt)
    ensures var log := Step(bulk, v, b).log; log != [] && log[|log| - 1] == Execute(b)
  {
    hide Values, GroundByte, TablePrefix, CsiByte, DcsByte, EscapeByte, OscByte, DcsEscapeByte;
    if v.state.Ground? {
      CancelInGround(v, b);
    } else if v.state.OscString? {
      CancelInOsc(v, b);
    } else {
      CancelInSequence(v, b);
      CancelInSequence(Reset(v).(state := Escape), b);
    }
  }

  lemma CancelInSequence(v: Vt, b: Byte)
    requires b == CAN || b == SUB
    ensures EscapeByte(v, b) == To(v, Ground, [Execute(b)])
    ensures v.state in {CsiEntry, CsiIgnore, CsiIntermediate, CsiParam} ==> CsiByte(v, b) == To(v, Ground, [Execute(b)])
    ensures v.state in {DcsEntry, DcsIgnore, DcsIntermediate, DcsParam} ==> DcsByte(v, b) == To(v, Ground, [Execute(b)])
    ensures DcsEscapeByte(v, b) == To(Reset(v), Ground, [NotifyDcsAbort, Unhook, Execute(b)])
  {
  }

  lemma CancelInOsc(v: Vt, b: Byte)
    requires b == CAN || b == SUB
    ensures OscByte(v, b) == To(OscEnd(v, b).vt, Ground, OscEnd(v, b).log + [Execute(b)])
    ensures OscEnd(v, b).vt.partial == v.partial
  {
  }

  /** Whatever two parsers have read before, once each has read a cancel they make the
      same callbacks on the same later chunks. */
  lemma HistoryIndependence(past: seq<seq<Byte>>, past': seq<seq<Byte>>, b: Byte, future: seq<seq<Byte>>)
    requires b == CAN || b == SUB
    ensures var c := AdvanceAll(Conf(INITIAL, []), past + [[b]]);
            var c' := AdvanceAll(Conf(INITIAL, []), past' + [[b]]);
            && Fresh(c.vt)
            && AdvanceAll(Conf(c.vt, []), future).log == AdvanceAll(Conf(c'.vt, []), future).log
  {
    hide AdvanceAll, Inv;
    AfterCancel(past, b);
    AfterCancel(past', b);
    AdvanceAllAlike(Conf(AdvanceAll(Conf(INITIAL, []), past + [[b]]).vt, []),
                    Conf(AdvanceAll(Conf(INITIAL, []), past' + [[b]]).vt, []), future);
  }

  lemma AfterCancel(past: seq<seq<Byte>>, b: Byte)
    requires b == CAN || b == SUB
    ensures Fresh(AdvanceAll(Conf(INITIAL, []), past + [[b]]).vt)
  {
    assert Inv(INITIAL);
    hide Inv, Step;
    var c := AdvanceAll(Conf(INITIAL, []), past);
    AdvanceAllInv(Conf(INITIAL, []), past);
    AdvanceAllConcat(Conf(INITIAL, []), past, [[b]]);
    CancelReachesGround(true, c.vt, b);
    RunAppend(true, c, [], b);
    assert [] + [b] == [b];
    assert AdvanceAll(c, [[b]]) == Advance(true, c, [b]);
  }
}
