/** The reference machine: one byte at a time, no chunks, no bulk paths, no arrays.
    `Parser` is proved to behave like it, and everything else is proved about it. */
module VteMachine {
  import opened VteTypes
  import opened Utf8

  /** What the parser remembers between two bytes. `groups` are the finished
      parameters with their sub-parameters, `open` the group being built. */
  datatype Vt = Vt(
    state: State,
    intermediates: seq<Byte>,
    groups: seq<seq<U16>>,
    open: seq<U16>,
    param: U16,
    ignoring: bool,
    oscRaw: seq<Byte>,
    oscBounds: seq<(nat, nat)>,
    partial: seq<Byte>)

  /** A parser after some input, and every callback it has made. */
  datatype Conf = Conf(vt: Vt, log: seq<Event>)

  const INITIAL := Vt(Ground, [], [], [], 0, false, [], [], [])

  function Values(gs: seq<seq<U16>>): nat {
    if gs == [] then 0 else Values(gs[..|gs| - 1]) + |gs[|gs| - 1]|
  }

  predicate Full(v: Vt) {
    Values(v.groups) + |v.open| == MAX_PARAMS
  }

  /** The groups a handler sees when it iterates over the parameters. */
  function Groups(v: Vt): seq<seq<U16>> {
    if v.open == [] then v.groups else v.groups + [v.open]
  }

  // ---- Actions ----

  function Reset(v: Vt): Vt {
    v.(intermediates := [], groups := [], open := [], param := 0, ignoring := false)
  }

  function Collect(v: Vt, b: Byte): Vt {
    if |v.intermediates| == MAX_INTERMEDIATES then v.(ignoring := true)
    else v.(intermediates := v.intermediates + [b])
  }

  /** `v` with its pending value stored as the last of its group. */
  function Pushed(v: Vt): Vt {
    if Full(v) then v.(ignoring := true)
    else v.(groups := v.groups + [v.open + [v.param]], open := [])
  }

  function NextParam(v: Vt): Vt {
    if Full(v) then v.(ignoring := true) else Pushed(v).(param := 0)
  }

  function NextSubParam(v: Vt): Vt {
    if Full(v) then v.(ignoring := true)
    else v.(open := v.open + [v.param], param := 0)
  }

  function Digit(v: Vt, b: Byte): Vt
    requires 0x30 <= b <= 0x39
  {
    if Full(v) then v.(ignoring := true)
    else v.(param := SatAdd(SatMul10(v.param), b - 0x30))
  }

  function OscPutParam(v: Vt): Vt {
    if |v.oscBounds| >= MAX_OSC_PARAMS then v
    else
      var begin := if v.oscBounds == [] then 0 else v.oscBounds[|v.oscBounds| - 1].1;
      v.(oscBounds := v.oscBounds + [(begin, |v.oscRaw|)])
  }

  function OscPut(v: Vt, b: Byte): Vt {
    if |v.oscRaw| >= MAX_OSC_RAW then v
    else if b == 0x3B then OscPutParam(v)
    else v.(oscRaw := v.oscRaw + [b])
  }

  function Slice(raw: seq<Byte>, bound: (nat, nat)): seq<Byte> {
    if bound.0 <= bound.1 <= |raw| then raw[bound.0..bound.1] else []
  }

  function Fields(raw: seq<Byte>, bounds: seq<(nat, nat)>): (fs: seq<seq<Byte>>) {
    seq(|bounds|, i requires 0 <= i < |bounds| => Slice(raw, bounds[i]))
  }

  function OscEnd(v: Vt, b: Byte): Conf {
    var w := OscPutParam(v);
    Conf(w.(oscRaw := [], oscBounds := []), [OscDispatch(Fields(w.oscRaw, w.oscBounds), b == 0x07)])
  }

  // ---- Transitions; the log of the result holds only the new callbacks ----

  function To(v: Vt, s: State, log: seq<Event>): Conf {
    Conf(v.(state := s), log)
  }

  function Anywhere(v: Vt, b: Byte): Conf {
    if b == CAN || b == SUB then To(v, Ground, [Execute(b)])
    else if b == ESC then To(Reset(v), Escape, [])
    else if b == ST then To(v, Ground, [])
    else Conf(v, [])
  }

  function CsiFinal(v: Vt, b: Byte): Conf {
    var w := Pushed(v);
    To(w, Ground, [CsiDispatch(Groups(w), w.intermediates, w.ignoring, b)])
  }

  function DcsFinal(v: Vt, b: Byte): Conf {
    var w := Pushed(v);
    To(w, DcsPassthrough, [Hook(Groups(w), w.intermediates, w.ignoring, b)])
  }

  /** The bytes 0x20..0x3B, which mean the same at the start of and within the
      parameters of a CSI or DCS sequence. */
  function ParamByte(v: Vt, b: Byte, params: State, intermediate: State): Conf
    requires 0x20 <= b <= 0x3B
  {
    if b <= 0x2F then To(Collect(v, b), intermediate, [])
    else if b <= 0x39 then To(Digit(v, b), params, [])
    else if b == 0x3A then To(NextSubParam(v), params, [])
    else To(NextParam(v), params, [])
  }

  function CsiByte(v: Vt, b: Byte): Conf
    requires v.state in {CsiEntry, CsiIgnore, CsiIntermediate, CsiParam}
  {
    if IsC0(b) then Conf(v, [Execute(b)])
    else if b < 0x20 || b >= 0x7F then Anywhere(v, b)
    else if v.state.CsiIgnore? then (if b < 0x40 then Conf(v, []) else To(v, Ground, []))
    else if b >= 0x40 then CsiFinal(v, b)
    else if v.state.CsiIntermediate? then
      (if b <= 0x2F then Conf(Collect(v, b), []) else To(v, CsiIgnore, []))
    else if b <= 0x3B then ParamByte(v, b, CsiParam, CsiIntermediate)
    else if v.state.CsiEntry? then To(Collect(v, b), CsiParam, [])
    else To(v, CsiIgnore, [])
  }

  function DcsByte(v: Vt, b: Byte): Conf
    requires v.state in {DcsEntry, DcsIgnore, DcsIntermediate, DcsParam}
  {
    if v.state.DcsIgnore? || ((b < 0x20 || b >= 0x7F) && !IsC0(b)) then Anywhere(v, b)
    else if IsC0(b) then Conf(v, [])
    else if b >= 0x40 then DcsFinal(v, b)
    else if v.state.DcsIntermediate? then
      (if b <= 0x2F then Conf(Collect(v, b), []) else To(v, DcsIgnore, []))
    else if b <= 0x3B then ParamByte(v, b, DcsParam, DcsIntermediate)
    else if v.state.DcsEntry? then To(Collect(v, b), DcsParam, [])
    else To(v, DcsIgnore, [])
  }

  function PassthroughByte(v: Vt, b: Byte): Conf {
    if b == CAN || b == SUB then To(v, Ground, [NotifyDcsAbort, Unhook, Execute(b)])
    else if b == ESC then To(v, DcsEscape, [])
    else if b < 0x7F then Conf(v, [Put(b)])
    else if b == ST then To(v, Ground, [Unhook])
    else Conf(v, [])
  }

  function DcsEscapeByte(v: Vt, b: Byte): Conf {
    if IsC0(b) then Conf(v, [Execute(b)])
    else if b == 0x7F then Conf(v, [])
    else if b == 0x5C then To(v, Ground, [Unhook])
    else
      var c := EscapeByte(Reset(v).(state := Escape), b);
      Conf(c.vt, [NotifyDcsAbort, Unhook] + c.log)
  }

  function EscapeByte(v: Vt, b: Byte): Conf {
    if IsC0(b) then Conf(v, [Execute(b)])
    else if b == CAN || b == SUB then To(v, Ground, [Execute(b)])
    else if b < 0x20 || b >= 0x7F then Conf(v, [])
    else if b <= 0x2F then To(Collect(v, b), EscapeIntermediate, [])
    else if b == 0x50 then To(Reset(v), DcsEntry, [])
    else if b == 0x58 || b == 0x5E then To(v, SosPmApcString, [])
    else if b == 0x5B then To(Reset(v), CsiEntry, [])
    else if b == 0x5D then To(v.(oscRaw := [], oscBounds := []), OscString, [])
    else if b == 0x5F then To(v, ApcString, [ApcStart])
    else To(v, Ground, [EscDispatch(v.intermediates, v.ignoring, b)])
  }

  function EscapeIntermediateByte(v: Vt, b: Byte): Conf {
    if IsC0(b) then Conf(v, [Execute(b)])
    else if b < 0x20 || b > 0x7F then Anywhere(v, b)
    else if b <= 0x2F then Conf(Collect(v, b), [])
    else if b <= 0x7E then To(v, Ground, [EscDispatch(v.intermediates, v.ignoring, b)])
    else Conf(v, [])
  }

  function OscByte(v: Vt, b: Byte): Conf {
    if b == 0x07 || b == CAN || b == SUB || b == ESC then
      var c := OscEnd(v, b);
      if b == 0x07 then To(c.vt, Ground, c.log)
      else if b == ESC then To(Reset(c.vt), Escape, c.log)
      else To(c.vt, Ground, c.log + [Execute(b)])
    else if b < 0x20 then Conf(v, [])
    else Conf(OscPut(v, b), [])
  }

  /** An APC byte. The bulk path forwards all payload; the byte path drops payload
      bytes from 0x80. */
  function ApcByte(bulk: bool, v: Vt, b: Byte): Conf {
    if b == CAN || b == SUB then To(v, Ground, [ApcEnd, Execute(b)])
    else if b == ESC then To(Reset(v), Escape, [ApcEnd])
    else if b == ST then To(v, Ground, [ApcEnd])
    else if bulk || b < 0x80 then Conf(v, [ApcPut(b)])
    else Conf(v, [])
  }

  // ---- Ground ----

  function GroundChar(c: Scalar): Event {
    if c <= 0x1F || 0x80 <= c <= 0x9F then Execute(c) else Print(c)
  }

  function GroundChars(cs: seq<Scalar>): (es: seq<Event>) {
    seq(|cs|, i requires 0 <= i < |cs| => GroundChar(cs[i]))
  }

  /** A lone byte 0x80..0x9F, which no UTF-8 sequence begins with. */
  function C1Byte(v: Vt, b: Byte): Conf {
    if b == 0x90 then To(Reset(v), DcsEntry, [])
    else if b == 0x98 || b == 0x9E then To(v, SosPmApcString, [])
    else if b == 0x9B then To(Reset(v), CsiEntry, [])
    else if b == ST then Conf(v, [])
    else if b == 0x9D then To(v.(oscRaw := [], oscBounds := []), OscString, [])
    else if b == 0x9F then To(v, ApcString, [ApcStart])
    else Conf(v, [Execute(b)])
  }

  /** A byte in Ground that starts a character. */
  function FreshByte(v: Vt, b: Byte): Conf {
    if b == ESC then To(Reset(v), Escape, [])
    else if b < 0x80 then Conf(v, [GroundChar(b)])
    else if b <= 0x9F then C1Byte(v, b)
    else if SeqLen(b) == 0 then Conf(v, [Print(REPLACEMENT)])
    else Conf(v.(partial := [b]), [])
  }

  function GroundByte(v: Vt, b: Byte): Conf {
    var p := v.partial + [b];
    if v.partial == [] then FreshByte(v, b)
    else if Complete(p) then Conf(v.(partial := []), [GroundChar(CodePoint(p))])
    else if Partial(p) then Conf(v.(partial := p), [])
    else
      var c := FreshByte(v.(partial := []), b);
      Conf(c.vt, [Print(REPLACEMENT)] + c.log)
  }

  // ---- Runs ----

  function Step(bulk: bool, v: Vt, b: Byte): Conf {
    match v.state
    case Ground => GroundByte(v, b)
    case CsiEntry | CsiIgnore | CsiIntermediate | CsiParam => CsiByte(v, b)
    case DcsEntry | DcsIgnore | DcsIntermediate | DcsParam => DcsByte(v, b)
    case DcsPassthrough => PassthroughByte(v, b)
    case DcsEscape => DcsEscapeByte(v, b)
    case Escape => EscapeByte(v, b)
    case EscapeIntermediate => EscapeIntermediateByte(v, b)
    case OscString => OscByte(v, b)
    case SosPmApcString => Anywhere(v, b)
    case ApcString => ApcByte(bulk, v, b)
  }

  function Next(bulk: bool, c: Conf, b: Byte): Conf {
    var d := Step(bulk, c.vt, b);
    Conf(d.vt, c.log + d.log)
  }

  /** The whole run. `bulk` tells `advance` from `advance_until_terminated`, which has
      no bulk APC path. */
  function Run(bulk: bool, c: Conf, bs: seq<Byte>): Conf
    decreases |bs|
  {
    if bs == [] then c else Run(bulk, Next(bulk, c, bs[0]), bs[1..])
  }

  lemma RunNil(bulk: bool, c: Conf)
    ensures Run(bulk, c, []) == c
  {
  }

  lemma RunUncons(bulk: bool, c: Conf, bs: seq<Byte>)
    requires bs != []
    ensures Run(bulk, c, bs) == Run(bulk, Next(bulk, c, bs[0]), bs[1..])
  {
  }

  lemma RunOne(bulk: bool, c: Conf, b: Byte)
    ensures Run(bulk, c, [b]) == Next(bulk, c, b)
  {
    hide Next;
    assert [b][1..] == [];
  }

  lemma {:induction false} RunConcat(bulk: bool, c: Conf, a: seq<Byte>, b: seq<Byte>)
    ensures Run(bulk, c, a + b) == Run(bulk, Run(bulk, c, a), b)
    decreases |a|
  {
    if a == [] {
      assert a + b == b;
    } else {
      assert (a + b)[1..] == a[1..] + b;
      RunConcat(bulk, Next(bulk, c, a[0]), a[1..], b);
    }
  }

  /** The callbacks do not depend on what was logged before. */
  lemma {:induction false} RunLog(bulk: bool, v: Vt, log: seq<Event>, bs: seq<Byte>)
    ensures Run(bulk, Conf(v, log), bs).vt == Run(bulk, Conf(v, []), bs).vt
    ensures Run(bulk, Conf(v, log), bs).log == log + Run(bulk, Conf(v, []), bs).log
    decreases |bs|
  {
    if bs != [] {
      var d := Step(bulk, v, bs[0]);
      assert [] + d.log == d.log;
      RunLog(bulk, d.vt, log + d.log, bs[1..]);
      RunLog(bulk, d.vt, d.log, bs[1..]);
    }
  }

  lemma RunAppend(bulk: bool, c: Conf, bs: seq<Byte>, b: Byte)
    ensures Run(bulk, c, bs + [b]) == Next(bulk, Run(bulk, c, bs), b)
  {
    RunConcat(bulk, c, bs, [b]);
    var d := Run(bulk, c, bs);
    assert Run(bulk, Next(bulk, d, b), []) == Next(bulk, d, b);
  }

  lemma StepKeepsPartial(bulk: bool, v: Vt, b: Byte)
    requires !v.state.Ground?
    ensures Step(bulk, v, b).vt.partial == v.partial
  {
  }
}
