/** The parser object: the byte-dispatch methods, the bulk paths for text and APC
    payloads, and the buffer for a character split between two calls. Every method is
    specified by the reference machine of `VteMachine`. */
module VteParser {
  import opened VteTypes
  import opened Utf8
  import opened VteMachine
  import opened VteParams
  import opened VteGround
  import opened VteStops
  import opened VteChunks

  /** A `Perform` implementation that records its callbacks. */
  class Performer {
    var log: seq<Event>
    /** When to ask the parser to stop; only `AdvanceUntilTerminated` asks. */
    const stop: seq<Event> -> bool

    constructor (stop: seq<Event> -> bool)
      ensures log == [] && this.stop == stop
    {
      log := [];
      this.stop := stop;
    }

    predicate Terminated()
      reads this
    {
      stop(log)
    }

    method Emit(e: Event)
      modifies this
      ensures log == old(log) + [e]
    {
      log := log + [e];
    }

    method CsiDispatch(params: Params, intermediates: seq<Byte>, ignore: bool, action: Byte)
      requires params.Valid()
      modifies this
      ensures log == old(log) + [Event.CsiDispatch(params.Groups(), intermediates, ignore, action)]
    {
      var groups := CollectGroups(params);
      Emit(Event.CsiDispatch(groups, intermediates, ignore, action));
    }

    method Hook(params: Params, intermediates: seq<Byte>, ignore: bool, action: Byte)
      requires params.Valid()
      modifies this
      ensures log == old(log) + [Event.Hook(params.Groups(), intermediates, ignore, action)]
    {
      var groups := CollectGroups(params);
      Emit(Event.Hook(groups, intermediates, ignore, action));
    }

    /** The default bulk callback: one `apc_put` a byte. */
    method ApcPutBulk(bytes: seq<Byte>)
      modifies this
      ensures log == old(log) + ApcPuts(bytes)
    {
      for i := 0 to |bytes|
        invariant log == old(log) + ApcPuts(bytes)[..i]
      {
        Emit(ApcPut(bytes[i]));
      }
    }
  }

  class Parser {
    const intermediates: array<Byte>
    const params: Params
    const oscParams: array<(nat, nat)>
    const partialUtf8: array<Byte>
    var state: State
    var intermediateIdx: nat
    var param: U16
    var oscRaw: seq<Byte>
    var oscNumParams: nat
    var ignoring: bool
    var partialUtf8Len: nat

    ghost function Repr(): set<object> {
      {this, params, params.subparams, params.params, intermediates, oscParams, partialUtf8}
    }

    ghost predicate Valid()
      reads this, Repr()
    {
      && params.Valid()
      && intermediates.Length == MAX_INTERMEDIATES
      && oscParams.Length == MAX_OSC_PARAMS
      && partialUtf8.Length == 4
      && intermediates != params.subparams && intermediates != partialUtf8 && partialUtf8 != params.subparams
      && intermediates as object != params.params && partialUtf8 as object != params.params
      && intermediateIdx <= MAX_INTERMEDIATES
      && |oscRaw| <= MAX_OSC_RAW
      && oscNumParams <= MAX_OSC_PARAMS
      && Tiled(oscParams[..oscNumParams]) && EndOf(oscParams[..oscNumParams]) <= |oscRaw|
      && partialUtf8Len <= 4
      && (partialUtf8Len != 0 ==> state == Ground && Partial(partialUtf8[..partialUtf8Len]))
    }

    ghost function View(): Vt
      requires Valid()
      reads this, Repr()
    {
      Vt(state, intermediates[..intermediateIdx], params.closed, params.open, param, ignoring,
         oscRaw, oscParams[..oscNumParams], partialUtf8[..partialUtf8Len])
    }

    constructor ()
      ensures Valid() && View() == INITIAL && fresh(Repr())
    {
      intermediates := new Byte[MAX_INTERMEDIATES](_ => 0);
      params := new Params();
      oscParams := new (nat, nat)[MAX_OSC_PARAMS](_ => (0, 0));
      partialUtf8 := new Byte[4](_ => 0);
      state := Ground;
      intermediateIdx, param, oscRaw, oscNumParams, ignoring, partialUtf8Len := 0, 0, [], 0, false, 0;
    }

    // ---- Actions ----

    method ResetParams()
      requires Valid()
      modifies this`intermediateIdx, this`ignoring, this`param, params
      ensures Valid() && View() == Reset(old(View()))
    {
      hide Params.Valid, Values, Tiled, EndOf, Partial;
      intermediateIdx := 0;
      ignoring := false;
      param := 0;
      params.Clear();
    }

    method ActionCollect(b: Byte)
      requires Valid()
      modifies this, intermediates
      ensures Valid() && View() == Collect(old(View()), b)
    {
      hide Params.Valid, Values, Tiled, EndOf, Partial;
      if intermediateIdx == MAX_INTERMEDIATES {
        ignoring := true;
      } else {
        intermediates[intermediateIdx] := b;
        intermediateIdx := intermediateIdx + 1;
      }
    }

    method ActionSubparam()
      requires Valid()
      modifies this, params, params.subparams, params.params
      ensures Valid() && View() == NextSubParam(old(View()))
    {
      hide Params.Valid, Values, Tiled, EndOf, Partial;
      var full := params.IsFull();
      if full {
        ignoring := true;
      } else {
        params.Extend(param);
        param := 0;
      }
    }

    method ActionParam()
      requires Valid()
      modifies this, params, params.subparams, params.params
      ensures Valid() && View() == NextParam(old(View()))
    {
      hide Params.Valid, Values, Tiled, EndOf, Partial;
      var full := params.IsFull();
      if full {
        ignoring := true;
      } else {
        params.Push(param);
        param := 0;
      }
    }

    method ActionParamNext(b: Byte)
      requires Valid() && 0x30 <= b <= 0x39
      modifies this
      ensures Valid() && View() == Digit(old(View()), b)
    {
      hide Params.Valid, Values, Tiled, EndOf, Partial;
      var full := params.IsFull();
      if full {
        ignoring := true;
      } else {
        param := SatMul10(param);
        param := SatAdd(param, b - 0x30);
      }
    }

    method PushPending()
      requires Valid()
      modifies this, params, params.subparams, params.params
      ensures Valid() && View() == Pushed(old(View()))
    {
      hide Params.Valid, Values, Tiled, EndOf, Partial;
      var full := params.IsFull();
      if full {
        ignoring := true;
      } else {
        params.Push(param);
      }
    }

    method ActionCsiDispatch(p: Performer, b: Byte)
      requires Valid() && partialUtf8Len == 0
      modifies Repr(), p
      ensures Valid() && View() == CsiFinal(old(View()), b).vt
      ensures p.log == old(p.log) + CsiFinal(old(View()), b).log
    {
      hide Params.Valid, Values, Tiled, EndOf, Partial;
      PushPending();
      p.CsiDispatch(params, intermediates[..intermediateIdx], ignoring, b);
      state := Ground;
    }

    method ActionHook(p: Performer, b: Byte)
      requires Valid() && partialUtf8Len == 0
      modifies Repr(), p
      ensures Valid() && View() == DcsFinal(old(View()), b).vt
      ensures p.log == old(p.log) + DcsFinal(old(View()), b).log
    {
      hide Params.Valid, Values, Tiled, EndOf, Partial;
      PushPending();
      p.Hook(params, intermediates[..intermediateIdx], ignoring, b);
      state := DcsPassthrough;
    }

    method ActionOscPutParam()
      requires Valid()
      modifies this, oscParams
      ensures Valid() && View() == OscPutParam(old(View()))
    {
      hide Params.Valid, Values, Partial, Tiled;
      var idx := |oscRaw|;
      NothingTiled();
      TiledSnoc(oscParams[..oscNumParams], idx);
      if oscNumParams == 0 {
        oscParams[0] := (0, idx);
      } else if oscNumParams == MAX_OSC_PARAMS {
        return;
      } else {
        var prev := oscParams[oscNumParams - 1];
        oscParams[oscNumParams] := (prev.1, idx);
      }
      oscNumParams := oscNumParams + 1;
      assert oscParams[..oscNumParams] == OscPutParam(old(View())).oscBounds;
    }

    method ActionOscPut(b: Byte)
      requires Valid()
      modifies this
      ensures Valid()
      ensures View() == if |old(oscRaw)| >= MAX_OSC_RAW then old(View())
                        else old(View()).(oscRaw := old(oscRaw) + [b])
    {
      hide Params.Valid, Values, Tiled, EndOf, Partial;
      if |oscRaw| >= MAX_OSC_RAW {
        return;
      }
      oscRaw := oscRaw + [b];
    }

    /** The slices handed to the performer, cut out of `oscRaw` by the index table. */
    method OscSlices() returns (slices: seq<seq<Byte>>)
      requires Valid()
      ensures slices == Fields(oscRaw, oscParams[..oscNumParams])
    {
      hide Params.Valid, Values, Partial, Tiled, EndOf;
      slices := [];
      for i := 0 to oscNumParams
        invariant slices == Fields(oscRaw, oscParams[..oscNumParams])[..i]
      {
        var indices := oscParams[i];
        TiledAt(oscParams[..oscNumParams], i);
        slices := slices + [oscRaw[indices.0..indices.1]];
      }
    }

    method OscEnd(p: Performer, b: Byte)
      requires Valid()
      modifies Repr(), p
      ensures Valid() && View() == VteMachine.OscEnd(old(View()), b).vt
      ensures p.log == old(p.log) + VteMachine.OscEnd(old(View()), b).log
    {
      hide Params.Valid, Values, Partial, Tiled, EndOf, OscPutParam;
      NothingTiled();
      ActionOscPutParam();
      var slices := OscSlices();
      p.Emit(OscDispatch(slices, b == 0x07));
      oscRaw := [];
      oscNumParams := 0;
    }

    // ---- One byte ----

    method Anywhere(p: Performer, b: Byte)
      requires Valid() && partialUtf8Len == 0
      modifies Repr(), p
      ensures Valid() && View() == VteMachine.Anywhere(old(View()), b).vt
      ensures p.log == old(p.log) + VteMachine.Anywhere(old(View()), b).log
    {
      hide Params.Valid, Values, Tiled, EndOf, Partial;
      if b == 0x18 || b == 0x1A {
        p.Emit(Execute(b));
        state := Ground;
      } else if b == 0x1B {
        ResetParams();
        state := Escape;
      } else if b == 0x9C {
        state := Ground;
      }
    }

    method AdvanceCsiEntry(p: Performer, b: Byte)
      requires Valid() && state == CsiEntry
      modifies Repr(), p
      ensures Valid() && View() == CsiByte(old(View()), b).vt
      ensures p.log == old(p.log) + CsiByte(old(View()), b).log
    {
      hide Params.Valid, Values, Tiled, EndOf, Partial;
      if IsC0(b) {
        p.Emit(Execute(b));
      } else if 0x20 <= b <= 0x2F {
        ActionCollect(b);
        state := CsiIntermediate;
      } else if 0x30 <= b <= 0x39 {
        ActionParamNext(b);
        state := CsiParam;
      } else if b == 0x3A {
        ActionSubparam();
        state := CsiParam;
      } else if b == 0x3B {
        ActionParam();
        state := CsiParam;
      } else if 0x3C <= b <= 0x3F {
        ActionCollect(b);
        state := CsiParam;
      } else if 0x40 <= b <= 0x7E {
        ActionCsiDispatch(p, b);
      } else {
        Anywhere(p, b);
      }
    }

    method AdvanceCsiIgnore(p: Performer, b: Byte)
      requires Valid() && state == CsiIgnore
      modifies Repr(), p
      ensures Valid() && View() == CsiByte(old(View()), b).vt
      ensures p.log == old(p.log) + CsiByte(old(View()), b).log
    {
      hide Params.Valid, Values, Tiled, EndOf, Partial;
      if IsC0(b) {
        p.Emit(Execute(b));
      } else if 0x20 <= b <= 0x3F {
      } else if 0x40 <= b <= 0x7E {
        state := Ground;
      } else if b == 0x7F {
      } else {
        Anywhere(p, b);
      }
    }

    method AdvanceCsiIntermediate(p: Performer, b: Byte)
      requires Valid() && state == CsiIntermediate
      modifies Repr(), p
      ensures Valid() && View() == CsiByte(old(View()), b).vt
      ensures p.log == old(p.log) + CsiByte(old(View()), b).log
    {
      hide Params.Valid, Values, Tiled, EndOf, Partial;
      if IsC0(b) {
        p.Emit(Execute(b));
      } else if 0x20 <= b <= 0x2F {
        ActionCollect(b);
      } else if 0x30 <= b <= 0x3F {
        state := CsiIgnore;
      } else if 0x40 <= b <= 0x7E {
        ActionCsiDispatch(p, b);
      } else {
        Anywhere(p, b);
      }
    }

    method AdvanceCsiParam(p: Performer, b: Byte)
      requires Valid() && state == CsiParam
      modifies Repr(), p
      ensures Valid() && View() == CsiByte(old(View()), b).vt
      ensures p.log == old(p.log) + CsiByte(old(View()), b).log
    {
      hide Params.Valid, Values, Tiled, EndOf, Partial;
      if IsC0(b) {
        p.Emit(Execute(b));
      } else if 0x20 <= b <= 0x2F {
        ActionCollect(b);
        state := CsiIntermediate;
      } else if 0x30 <= b <= 0x39 {
        ActionParamNext(b);
      } else if b == 0x3A {
        ActionSubparam();
      } else if b == 0x3B {
        ActionParam();
      } else if 0x3C <= b <= 0x3F {
        state := CsiIgnore;
      } else if 0x40 <= b <= 0x7E {
        ActionCsiDispatch(p, b);
      } else if b == 0x7F {
      } else {
        Anywhere(p, b);
      }
    }

    method AdvanceDcsEntry(p: Performer, b: Byte)
      requires Valid() && state == DcsEntry
      modifies Repr(), p
      ensures Valid() && View() == DcsByte(old(View()), b).vt
      ensures p.log == old(p.log) + DcsByte(old(View()), b).log
    {
      hide Params.Valid, Values, Tiled, EndOf, Partial;
      if IsC0(b) {
      } else if 0x20 <= b <= 0x2F {
        ActionCollect(b);
        state := DcsIntermediate;
      } else if 0x30 <= b <= 0x39 {
        ActionParamNext(b);
        state := DcsParam;
      } else if b == 0x3A {
        ActionSubparam();
        state := DcsParam;
      } else if b == 0x3B {
        ActionParam();
        state := DcsParam;
      } else if 0x3C <= b <= 0x3F {
        ActionCollect(b);
        state := DcsParam;
      } else if 0x40 <= b <= 0x7E {
        ActionHook(p, b);
      } else if b == 0x7F {
      } else {
        Anywhere(p, b);
      }
    }

    method AdvanceDcsIntermediate(p: Performer, b: Byte)
      requires Valid() && state == DcsIntermediate
      modifies Repr(), p
      ensures Valid() && View() == DcsByte(old(View()), b).vt
      ensures p.log == old(p.log) + DcsByte(old(View()), b).log
    {
      hide Params.Valid, Values, Tiled, EndOf, Partial;
      if IsC0(b) {
      } else if 0x20 <= b <= 0x2F {
        ActionCollect(b);
      } else if 0x30 <= b <= 0x3F {
        state := DcsIgnore;
      } else if 0x40 <= b <= 0x7E {
        ActionHook(p, b);
      } else if b == 0x7F {
      } else {
        Anywhere(p, b);
      }
    }

    method AdvanceDcsParam(p: Performer, b: Byte)
      requires Valid() && state == DcsParam
      modifies Repr(), p
      ensures Valid() && View() == DcsByte(old(View()), b).vt
      ensures p.log == old(p.log) + DcsByte(old(View()), b).log
    {
      hide Params.Valid, Values, Tiled, EndOf, Partial;
      if IsC0(b) {
      } else if 0x20 <= b <= 0x2F {
        ActionCollect(b);
        state := DcsIntermediate;
      } else if 0x30 <= b <= 0x39 {
        ActionParamNext(b);
      } else if b == 0x3A {
        ActionSubparam();
      } else if b == 0x3B {
        ActionParam();
      } else if 0x3C <= b <= 0x3F {
        state := DcsIgnore;
      } else if 0x40 <= b <= 0x7E {
        ActionHook(p, b);
      } else if b == 0x7F {
      } else {
        Anywhere(p, b);
      }
    }

    method AdvanceDcsPassthrough(p: Performer, b: Byte)
      requires Valid() && state == DcsPassthrough
      modifies Repr(), p
      ensures Valid() && View() == PassthroughByte(old(View()), b).vt
      ensures p.log == old(p.log) + PassthroughByte(old(View()), b).log
    {
      hide Params.Valid, Values, Tiled, EndOf, Partial;
      if b <= 0x17 || b == 0x19 || 0x1C <= b <= 0x7E {
        p.Emit(Put(b));
      } else if b == 0x18 || b == 0x1A {
        p.Emit(NotifyDcsAbort);
        p.Emit(Unhook);
        p.Emit(Execute(b));
        state := Ground;
      } else if b == 0x1B {
        state := DcsEscape;
      } else if b == 0x7F {
      } else if b == 0x9C {
        p.Emit(Unhook);
        state := Ground;
      }
    }

    method AdvanceDcsEscape(p: Performer, b: Byte)
      requires Valid() && state == DcsEscape
      modifies Repr(), p
      ensures Valid() && View() == DcsEscapeByte(old(View()), b).vt
      ensures p.log == old(p.log) + DcsEscapeByte(old(View()), b).log
    {
      hide Params.Valid, Values, Tiled, EndOf, Partial, EscapeByte, Reset;
      if IsC0(b) {
        p.Emit(Execute(b));
      } else if b == 0x7F {
      } else if b == 0x5C {
        p.Emit(Unhook);
        state := Ground;
      } else {
        AbortDcs(p);
        AdvanceEsc(p, b);
      }
    }

    /** The string was not closed: the hook is taken back, and an escape sequence begins. */
    method AbortDcs(p: Performer)
      requires Valid() && partialUtf8Len == 0
      modifies this, params, p
      ensures Valid() && View() == Reset(old(View())).(state := Escape)
      ensures p.log == old(p.log) + [NotifyDcsAbort, Unhook]
    {
      hide Params.Valid, Values, Tiled, EndOf, Partial;
      p.Emit(NotifyDcsAbort);
      p.Emit(Unhook);
      ResetParams();
      state := Escape;
    }

    method AdvanceEsc(p: Performer, b: Byte)
      requires Valid() && state == Escape
      modifies Repr(), p
      ensures Valid() && View() == EscapeByte(old(View()), b).vt
      ensures p.log == old(p.log) + EscapeByte(old(View()), b).log
    {
      hide Params.Valid, Values, Partial, Tiled, EndOf;
      NothingTiled();
      if IsC0(b) {
        p.Emit(Execute(b));
      } else if 0x20 <= b <= 0x2F {
        ActionCollect(b);
        state := EscapeIntermediate;
      } else if b == 0x50 {
        ResetParams();
        state := DcsEntry;
      } else if b == 0x58 || b == 0x5E {
        state := SosPmApcString;
      } else if b == 0x5B {
        ResetParams();
        state := CsiEntry;
      } else if b == 0x5D {
        oscRaw := [];
        oscNumParams := 0;
        state := OscString;
      } else if b == 0x5F {
        p.Emit(ApcStart);
        state := ApcString;
      } else if 0x30 <= b <= 0x7E {
        p.Emit(EscDispatch(intermediates[..intermediateIdx], ignoring, b));
        state := Ground;
      } else if b == 0x18 || b == 0x1A {
        p.Emit(Execute(b));
        state := Ground;
      }
    }

    method AdvanceEscIntermediate(p: Performer, b: Byte)
      requires Valid() && state == EscapeIntermediate
      modifies Repr(), p
      ensures Valid() && View() == EscapeIntermediateByte(old(View()), b).vt
      ensures p.log == old(p.log) + EscapeIntermediateByte(old(View()), b).log
    {
      hide Params.Valid, Values, Tiled, EndOf, Partial;
      if IsC0(b) {
        p.Emit(Execute(b));
      } else if 0x20 <= b <= 0x2F {
        ActionCollect(b);
      } else if 0x30 <= b <= 0x7E {
        p.Emit(EscDispatch(intermediates[..intermediateIdx], ignoring, b));
        state := Ground;
      } else if b == 0x7F {
      } else {
        Anywhere(p, b);
      }
    }

    method AdvanceOscString(p: Performer, b: Byte)
      requires Valid() && state == OscString
      modifies Repr(), p
      ensures Valid() && View() == OscByte(old(View()), b).vt
      ensures p.log == old(p.log) + OscByte(old(View()), b).log
    {
      hide Params.Valid, Values, Tiled, EndOf, Partial;
      if b <= 0x06 || 0x08 <= b <= 0x17 || b == 0x19 || 0x1C <= b <= 0x1F {
      } else if b == 0x07 {
        OscEnd(p, b);
        state := Ground;
      } else if b == 0x18 || b == 0x1A {
        OscEnd(p, b);
        p.Emit(Execute(b));
        state := Ground;
      } else if b == 0x1B {
        OscEnd(p, b);
        ResetParams();
        state := Escape;
      } else if b == 0x3B {
        if |oscRaw| >= MAX_OSC_RAW {
          return;
        }
        ActionOscPutParam();
      } else {
        ActionOscPut(b);
      }
    }

    method AdvanceApcString(p: Performer, b: Byte)
      requires Valid() && state == ApcString
      modifies Repr(), p
      ensures Valid() && View() == ApcByte(false, old(View()), b).vt
      ensures p.log == old(p.log) + ApcByte(false, old(View()), b).log
    {
      hide Params.Valid, Values, Tiled, EndOf, Partial;
      if b <= 0x17 || b == 0x19 || 0x1C <= b <= 0x7F {
        p.Emit(ApcPut(b));
      } else if b == 0x18 || b == 0x1A {
        p.Emit(ApcEnd);
        p.Emit(Execute(b));
        state := Ground;
      } else if b == 0x1B {
        p.Emit(ApcEnd);
        ResetParams();
        state := Escape;
      } else if b == 0x9C {
        p.Emit(ApcEnd);
        state := Ground;
      }
    }

    /** Never entered in Ground. */
    method ChangeState(p: Performer, b: Byte, ghost bulk: bool)
      requires Valid() && state != Ground
      requires bulk && state == ApcString ==> EndsApc(b)
      modifies Repr(), p
      ensures Valid() && partialUtf8Len == 0
      ensures Conf(View(), p.log) == Next(bulk, old(Conf(View(), p.log)), b)
    {
      hide Params.Valid, Values, Tiled, EndOf, Partial, CsiByte, PassthroughByte, DcsEscapeByte;
      hide EscapeByte, EscapeIntermediateByte, OscByte;
      StepKeepsPartial(bulk, View(), b);
      assert View().partial == [];
      match state {
        case CsiEntry => AdvanceCsiEntry(p, b);
        case CsiIgnore => AdvanceCsiIgnore(p, b);
        case CsiIntermediate => AdvanceCsiIntermediate(p, b);
        case CsiParam => AdvanceCsiParam(p, b);
        case DcsEntry => AdvanceDcsEntry(p, b);
        case DcsIgnore => Anywhere(p, b);
        case DcsIntermediate => AdvanceDcsIntermediate(p, b);
        case DcsParam => AdvanceDcsParam(p, b);
        case DcsPassthrough => AdvanceDcsPassthrough(p, b);
        case DcsEscape => AdvanceDcsEscape(p, b);
        case Escape => AdvanceEsc(p, b);
        case EscapeIntermediate => AdvanceEscIntermediate(p, b);
        case OscString => AdvanceOscString(p, b);
        case SosPmApcString => Anywhere(p, b);
        case ApcString => AdvanceApcString(p, b);
      }
      assert |View().partial| == 0;
    }

    // ---- Ground ----

    method GroundDispatch(p: Performer, text: seq<Scalar>)
      modifies p
      ensures p.log == old(p.log) + GroundChars(text)
      ensures |p.log| == |old(p.log)| + |text| && old(p.log) <= p.log
      ensures forall i :: 0 <= i < |text| ==>
                p.log[|old(p.log)| + i]
                == if text[i] <= 0x1F || 0x80 <= text[i] <= 0x9F then Execute(text[i]) else Print(text[i])
    {
      for i := 0 to |text|
        invariant p.log == old(p.log) + GroundChars(text)[..i]
      {
        var c := text[i];
        if c <= 0x1F || 0x80 <= c <= 0x9F {
          p.Emit(Execute(c));
        } else {
          p.Emit(Print(c));
        }
      }
    }

    method DispatchC1(p: Performer, b: Byte)
      requires Valid() && partialUtf8Len == 0 && state == Ground && 0x80 <= b <= 0x9F
      modifies Repr(), p
      ensures Valid() && partialUtf8Len == 0 && View() == C1Byte(old(View()), b).vt
      ensures p.log == old(p.log) + C1Byte(old(View()), b).log
    {
      hide Params.Valid, Values, Partial, Tiled, EndOf;
      NothingTiled();
      if b == 0x90 {
        ResetParams();
        state := DcsEntry;
      } else if b == 0x98 || b == 0x9E {
        state := SosPmApcString;
      } else if b == 0x9B {
        ResetParams();
        state := CsiEntry;
      } else if b == 0x9C {
      } else if b == 0x9D {
        oscRaw := [];
        oscNumParams := 0;
        state := OscString;
      } else if b == 0x9F {
        p.Emit(ApcStart);
        state := ApcString;
      } else {
        p.Emit(Execute(b));
      }
    }

    method EnterEscape()
      requires Valid() && partialUtf8Len == 0
      modifies this, params
      ensures Valid() && partialUtf8Len == 0 && View() == Reset(old(View())).(state := Escape)
    {
      hide Params.Valid, Values, Partial, Tiled, EndOf;
      state := Escape;
      ResetParams();
    }

    /** `copy_from_slice` into the free part of the buffer. */
    method CopyToPartial(bytes: seq<Byte>)
      requires Valid() && partialUtf8Len + |bytes| <= 4
      modifies partialUtf8
      ensures Valid() && View() == old(View())
      ensures partialUtf8[..partialUtf8Len + |bytes|] == View().partial + bytes
    {
      hide Params.Valid, Values, Partial, Tiled, EndOf;
      for i := 0 to |bytes|
        invariant Valid() && View() == old(View())
        invariant partialUtf8[..partialUtf8Len + i] == View().partial + bytes[..i]
      {
        partialUtf8[partialUtf8Len + i] := bytes[i];
        assert partialUtf8[..partialUtf8Len] == old(partialUtf8[..partialUtf8Len]);
      }
    }

    method SavePartial(cut: seq<Byte>)
      requires Valid() && partialUtf8Len == 0 && state == Ground && Partial(cut) && |cut| < 4
      modifies this, partialUtf8
      ensures Valid() && View() == old(View()).(partial := cut)
    {
      hide Params.Valid, Values, Partial, Tiled, EndOf;
      CopyToPartial(cut);
      assert View().partial + cut == cut;
      partialUtf8Len := |cut|;
    }

    /** Read text up to and including the next ESC, or up to the first malformed byte
        sequence; `n` bytes are consumed. */
    method AdvanceGround(p: Performer, bytes: seq<Byte>, ghost bulk: bool) returns (n: nat)
      requires Valid() && state == Ground && partialUtf8Len == 0 && bytes != []
      modifies Repr(), p
      ensures Valid() && 0 < n <= |bytes|
      ensures partialUtf8Len != 0 ==> n == |bytes|
      ensures Run(bulk, Conf(View(), p.log), bytes[n..]) == Run(bulk, old(Conf(View(), p.log)), bytes)
      ensures n == GroundRead(bytes)
      ensures Conf(View(), p.log) == Due(Run(bulk, old(Conf(View(), p.log)), bytes[..n]), bytes[n..])
    {
      hide Params.Valid, Values, Partial, Tiled, EndOf, Run, FromUtf8, C1Byte, DecodeFirst, GroundChars, Reset;
      hide Due, GroundRead, AtBoundary;
      ghost var v, log := View(), p.log;
      BoundaryHere(v);
      var plain := Memchr(0x1B, bytes);
      if plain == 0 {
        ReadEscape(bulk, v, log, bytes);
        EnterEscape();
        NothingDue(Conf(View(), p.log), bytes[1..]);
        DueGoesOn(bulk, Conf(v, log), bytes, 1);
        return 1;
      }
      var d := FromUtf8(bytes[..plain]);
      GroundDispatch(p, d.chars);
      match d.stop {
        case AllValid =>
          ReadValid(bulk, v, log, bytes);
          n := plain;
          if n < |bytes| {
            EnterEscape();
            n := n + 1;
          }
          NothingDue(Conf(View(), p.log), bytes[n..]);
        case Invalid(len) =>
          ReadInvalid(bulk, v, log, bytes);
          if len == 1 && bytes[d.validUpTo] <= 0x9F {
            DispatchC1(p, bytes[d.validUpTo]);
          } else {
            p.Emit(Print(REPLACEMENT));
          }
          n := d.validUpTo + len;
        case Truncated =>
          ReadTruncated(bulk, v, log, bytes);
          if plain < |bytes| {
            p.Emit(Print(REPLACEMENT));
            EnterEscape();
            n := plain + 1;
          } else {
            SavePartial(bytes[d.validUpTo..plain]);
            n := |bytes|;
          }
          NothingDue(Conf(View(), p.log), bytes[n..]);
      }
      DueGoesOn(bulk, Conf(v, log), bytes, n);
    }

    // ---- Entry points ----

    method SetPartialLen(n: nat)
      requires Valid() && state == Ground && n <= 4 && (n != 0 ==> Partial(partialUtf8[..n]))
      modifies this`partialUtf8Len
      ensures Valid() && View() == old(View()).(partial := partialUtf8[..n]) && partialUtf8Len == n
    {
      hide Params.Valid, Values, Partial, Tiled, EndOf;
      partialUtf8Len := n;
    }

    /** Complete the pending character with the head of the next chunk. */
    method AdvancePartialUtf8(p: Performer, bytes: seq<Byte>, ghost bulk: bool) returns (n: nat)
      requires Valid() && partialUtf8Len != 0
      modifies Repr(), p
      ensures Valid() && n <= |bytes|
      ensures partialUtf8Len != 0 ==> n == |bytes|
      ensures Run(bulk, Conf(View(), p.log), bytes[n..])
              == VteGround.Advance(bulk, old(Conf(View(), p.log)), bytes)
      ensures (Conf(View(), p.log), n as int) == PendingCall(old(Conf(View(), p.log)), bytes)
    {
      hide Params.Valid, Values, Partial, Tiled, EndOf, Run, FromUtf8, VteGround.Advance, DecodeFirst, Utf8Len;
      hide PendingCall;
      ghost var c := Conf(View(), p.log);
      var oldBytes := partialUtf8Len;
      var toCopy := Min(|bytes|, 4 - oldBytes);
      CopyToPartial(bytes[..toCopy]);
      var buf := partialUtf8[..oldBytes + toCopy];
      assert buf == c.vt.partial + bytes[..toCopy] && Pending(c.vt) && Conf(View(), p.log) == c;
      var d := FromUtf8(buf);
      PendingCallIs(c, bytes, buf);
      if d.validUpTo > 0 {
        PendingCompleted(bulk, c, bytes, buf);
        p.Emit(Print(d.chars[0]));
        SetPartialLen(0);
        n := (if d.stop.AllValid? then Utf8Len(d.chars[0]) else d.validUpTo) - oldBytes;
      } else {
        match d.stop
        case Invalid(invalidLen) =>
          PendingInvalid(bulk, c, bytes, buf);
          p.Emit(Print(REPLACEMENT));
          SetPartialLen(0);
          n := invalidLen - oldBytes;
        case Truncated =>
          PendingGrows(bulk, c, bytes, buf);
          SetPartialLen(oldBytes + toCopy);
          n := toCopy;
          assert bytes[n..] == [];
      }
    }

    method AdvanceApcStringSlice(p: Performer, bytes: seq<Byte>) returns (n: nat)
      requires Valid() && state == ApcString && bytes != []
      modifies Repr(), p
      ensures Valid() && 0 < n <= |bytes| && partialUtf8Len == 0
      ensures Run(true, Conf(View(), p.log), bytes[n..]) == Run(true, old(Conf(View(), p.log)), bytes)
    {
      hide Params.Valid, Values, Partial, Tiled, EndOf, Run, Step;
      ghost var v := View();
      var scanEnd := ApcScan(bytes);
      ApcSlice(v, p.log, bytes);
      if scanEnd > 0 {
        p.ApcPutBulk(bytes[..scanEnd]);
      }
      assert p.log == old(p.log) + ApcPuts(bytes[..scanEnd]);
      if scanEnd == |bytes| {
        return scanEnd;
      }
      ChangeState(p, bytes[scanEnd], true);
      n := scanEnd + 1;
    }

    /** Feed a chunk of input. */
    method Advance(p: Performer, bytes: seq<Byte>)
      requires Valid()
      modifies Repr(), p
      ensures Valid()
      ensures Conf(View(), p.log) == VteGround.Advance(true, old(Conf(View(), p.log)), bytes)
    {
      hide Params.Valid, Values, Partial, Tiled, EndOf, Next, Run, VteGround.Advance;
      ghost var goal := VteGround.Advance(true, Conf(View(), p.log), bytes);
      var i := 0;
      AdvanceWhole(true, Conf(View(), p.log), bytes);
      if partialUtf8Len != 0 {
        i := AdvancePartialUtf8(p, bytes, true);
      }
      while i != |bytes|
        invariant Valid() && i <= |bytes|
        invariant partialUtf8Len != 0 ==> i == |bytes|
        invariant Run(true, Conf(View(), p.log), bytes[i..]) == goal
        decreases |bytes| - i
      {
        var rest := bytes[i..];
        var n;
        if state == Ground {
          n := AdvanceGround(p, rest, true);
        } else if state == ApcString {
          n := AdvanceApcStringSlice(p, rest);
        } else {
          RunUncons(true, Conf(View(), p.log), rest);
          ChangeState(p, rest[0], true);
          n := 1;
        }
        assert rest[n..] == bytes[i + n..];
        i := i + n;
      }
      RunNil(true, Conf(View(), p.log));
      assert bytes[i..] == [];
    }

    /** One round of the loop below. */
    method ReadNext(p: Performer, tail: seq<Byte>) returns (n: nat)
      requires Valid() && partialUtf8Len == 0 && tail != []
      modifies Repr(), p
      ensures Valid() && 0 < n <= |tail|
      ensures partialUtf8Len != 0 ==> n == |tail|
      ensures Run(false, Conf(View(), p.log), tail[n..]) == Run(false, old(Conf(View(), p.log)), tail)
      ensures (Conf(View(), p.log), n) == NextRead(old(Conf(View(), p.log)), tail)
    {
      hide Params.Valid, Values, Partial, Tiled, EndOf, Next, Run, Due, GroundRead;
      if state == Ground {
        n := AdvanceGround(p, tail, false);
      } else {
        RunUncons(false, Conf(View(), p.log), tail);
        ChangeState(p, tail[0], false);
        n := 1;
      }
    }

    /** Feed a chunk of input until the performer asks to stop; `i` bytes are read. Behind a
        pending character, that is the first position outside stretches of text at which
        the performer asks, or the end; and nothing but what is due there has been reported. */
    method AdvanceUntilTerminated(p: Performer, bytes: seq<Byte>) returns (i: nat)
      requires Valid()
      modifies Repr(), p
      ensures Valid() && i <= |bytes|
      ensures partialUtf8Len != 0 ==> i == |bytes|
      ensures i < |bytes| ==> p.Terminated()
      ensures Run(false, Conf(View(), p.log), bytes[i..])
              == VteGround.Advance(false, old(Conf(View(), p.log)), bytes)
      ensures StoppedAt(old(Conf(View(), p.log)), bytes, p.stop, i, Conf(View(), p.log))
    {
      hide Params.Valid, Values, Partial, Tiled, EndOf, Run, VteGround.Advance, DueAt, NextRead;
      hide PendingCall, Reached, AtBoundary, StoppedAt;
      ghost var start := Conf(View(), p.log);
      ghost var goal := VteGround.Advance(false, start, bytes);
      i := 0;
      AdvanceWhole(false, start, bytes);
      if partialUtf8Len != 0 {
        i := AdvancePartialUtf8(p, bytes, false);
      }
      ghost var c, q, rest := Conf(View(), p.log), i, bytes[i..];
      BoundaryHere(View());
      ReachedStart(c, rest, p.stop);
      while i != |bytes| && !p.Terminated()
        invariant Valid() && q <= i <= |bytes|
        invariant partialUtf8Len != 0 ==> i == |bytes|
        invariant Run(false, Conf(View(), p.log), bytes[i..]) == goal
        invariant Reached(c, rest, p.stop, i - q) && Conf(View(), p.log) == DueAt(c, rest, i - q)
        decreases |bytes| - i
      {
        var tail := bytes[i..];
        assert rest[i - q..] == tail;
        GoesOn(c, rest, p.stop, i - q);
        var n := ReadNext(p, tail);
        assert tail[n..] == bytes[i + n..];
        i := i + n;
      }
      HasStopped(start, bytes, p.stop, c, q, i);
    }
  }
}
