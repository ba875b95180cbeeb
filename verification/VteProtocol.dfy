/** The bracketing of device control and application program strings in the
    sequence of callbacks, over whole runs. */
module VteProtocol {
  import opened VteTypes
  import opened Utf8
  import opened VteMachine
  import opened VteGround
  import opened VteChunks
  import opened VteHistory

  /** What a handler has to be prepared for next. */
  datatype Phase = Idle | InDcs | Aborting | InApc | Broken

  function Observe(ph: Phase, e: Event): Phase {
    match ph
    case Idle =>
      (match e
       case Hook(_, _, _, _) => InDcs
       case ApcStart => InApc
       case Put(_) | Unhook | NotifyDcsAbort | ApcPut(_) | ApcEnd => Broken
       case _ => Idle)
    case InDcs =>
      (match e
       case Put(_) | Execute(_) => InDcs
       case NotifyDcsAbort => Aborting
       case Unhook => Idle
       case _ => Broken)
    case Aborting => if e.Unhook? then Idle else Broken
    case InApc =>
      (match e
       case ApcPut(_) => InApc
       case ApcEnd => Idle
       case _ => Broken)
    case Broken => Broken
  }

  function ObserveAll(ph: Phase, log: seq<Event>): Phase
    decreases |log|
  {
    if log == [] then ph else ObserveAll(Observe(ph, log[0]), log[1..])
  }

  lemma {:induction false} ObserveConcat(ph: Phase, a: seq<Event>, b: seq<Event>)
    ensures ObserveAll(ph, a + b) == ObserveAll(ObserveAll(ph, a), b)
    decreases |a|
  {
    if a == [] {
      assert a + b == b;
    } else {
      assert (a + b)[1..] == a[1..] + b;
      ObserveConcat(Observe(ph, a[0]), a[1..], b);
    }
  }

  /** A string is open exactly in these states. */
  function PhaseOf(s: State): Phase {
    if s in {DcsPassthrough, DcsEscape} then InDcs
    else if s.ApcString? then InApc
    else Idle
  }

  /** The callbacks of one step carry the string phase from one state to the other. */
  predicate Brackets(v: Vt, d: Conf) {
    ObserveAll(PhaseOf(v.state), d.log) == PhaseOf(d.vt.state)
  }

  lemma ObserveOne(ph: Phase, e: Event)
    ensures ObserveAll(ph, [e]) == Observe(ph, e)
  {
    assert [e][1..] == [];
  }

  lemma ObserveMore(ph: Phase, a: Event, b: Event, c: Event)
    ensures ObserveAll(ph, [a, b]) == Observe(Observe(ph, a), b)
    ensures ObserveAll(ph, [a, b, c]) == Observe(Observe(Observe(ph, a), b), c)
  {
    assert [a, b][1..] == [b] && [a, b, c][1..] == [b, c] && [b, c][1..] == [c];
    ObserveOne(Observe(ph, a), b);
    ObserveOne(Observe(Observe(ph, a), b), c);
  }

  /** No callback, or one, is observed by looking at it. */
  lemma BracketsOne(v: Vt, d: Conf)
    requires d.log == [] || |d.log| == 1
    requires PhaseOf(d.vt.state) == if d.log == [] then PhaseOf(v.state) else Observe(PhaseOf(v.state), d.log[0])
    ensures Brackets(v, d)
  {
    if d.log != [] {
      ObserveOne(PhaseOf(v.state), d.log[0]);
      assert d.log == [d.log[0]];
    }
  }

  lemma BracketsMore(v: Vt, w: Vt, es: seq<Event>, d: Conf)
    requires Brackets(w, d) && ObserveAll(PhaseOf(v.state), es) == PhaseOf(w.state)
    ensures Brackets(v, Conf(d.vt, es + d.log))
  {
    ObserveConcat(PhaseOf(v.state), es, d.log);
  }

  lemma FreshBrackets(v: Vt, b: Byte)
    requires v.state.Ground?
    ensures Brackets(v, FreshByte(v, b))
  {
    BracketsOne(v, FreshByte(v, b));
  }

  lemma GroundBrackets(v: Vt, b: Byte)
    requires v.state.Ground?
    ensures Brackets(v, GroundByte(v, b))
  {
    hide FreshByte, Brackets, TablePrefix, CodePoint;
    var w := v.(partial := []);
    FreshBrackets(v, b);
    FreshBrackets(w, b);
    ObserveOne(Idle, Print(REPLACEMENT));
    BracketsMore(v, w, [Print(REPLACEMENT)], FreshByte(w, b));
    if v.partial != [] && (Complete(v.partial + [b]) || Partial(v.partial + [b])) {
      BracketsOne(v, GroundByte(v, b));
    }
  }

  lemma SequenceBrackets(v: Vt, b: Byte)
    ensures v.state in {CsiEntry, CsiIgnore, CsiIntermediate, CsiParam} ==> Brackets(v, CsiByte(v, b))
    ensures v.state in {DcsEntry, DcsIgnore, DcsIntermediate, DcsParam} ==> Brackets(v, DcsByte(v, b))
  {
    hide Brackets, Pushed, NextParam, NextSubParam, Digit, Groups;
    if v.state in {CsiEntry, CsiIgnore, CsiIntermediate, CsiParam} {
      BracketsOne(v, CsiByte(v, b));
    } else if v.state in {DcsEntry, DcsIgnore, DcsIntermediate, DcsParam} {
      BracketsOne(v, DcsByte(v, b));
    }
  }

  lemma EscapeBrackets(v: Vt, b: Byte)
    ensures v.state.Escape? ==> Brackets(v, EscapeByte(v, b))
    ensures v.state.EscapeIntermediate? ==> Brackets(v, EscapeIntermediateByte(v, b))
    ensures v.state.SosPmApcString? ==> Brackets(v, Anywhere(v, b))
  {
    hide Brackets;
    if v.state.Escape? {
      BracketsOne(v, EscapeByte(v, b));
    } else if v.state.EscapeIntermediate? {
      BracketsOne(v, EscapeIntermediateByte(v, b));
    } else if v.state.SosPmApcString? {
      BracketsOne(v, Anywhere(v, b));
    }
  }

  lemma OscBrackets(v: Vt, b: Byte)
    requires v.state.OscString?
    ensures Brackets(v, OscByte(v, b))
  {
    if b == CAN || b == SUB {
      BracketsMore(v, v.(state := Ground), OscEnd(v, b).log, Conf(OscByte(v, b).vt, [Execute(b)]));
    } else {
      hide Brackets, Fields;
      BracketsOne(v, OscByte(v, b));
    }
  }

  lemma StringBrackets(bulk: bool, v: Vt, b: Byte)
    ensures v.state.DcsPassthrough? ==> Brackets(v, PassthroughByte(v, b))
    ensures v.state.DcsEscape? ==> Brackets(v, DcsEscapeByte(v, b))
    ensures v.state.ApcString? ==> Brackets(v, ApcByte(bulk, v, b))
  {
    if v.state.DcsPassthrough? {
      ObserveMore(InDcs, NotifyDcsAbort, Unhook, Execute(b));
    } else if v.state.ApcString? {
      ObserveMore(InApc, ApcEnd, Execute(b), Execute(b));
    } else if v.state.DcsEscape? && !IsC0(b) && b != 0x7F && b != 0x5C {
      var w := Reset(v).(state := Escape);
      EscapeBrackets(w, b);
      ObserveMore(InDcs, NotifyDcsAbort, Unhook, Unhook);
      BracketsMore(v, w, [NotifyDcsAbort, Unhook], EscapeByte(w, b));
    }
  }

  lemma StepProtocol(bulk: bool, v: Vt, b: Byte)
    ensures Brackets(v, Step(bulk, v, b))
  {
    hide Brackets, GroundByte, CsiByte, DcsByte, EscapeByte, EscapeIntermediateByte, OscByte, PassthroughByte;
    hide DcsEscapeByte, ApcByte, Anywhere;
    match v.state
    case Ground => GroundBrackets(v, b);
    case DcsPassthrough | DcsEscape | ApcString => StringBrackets(bulk, v, b);
    case OscString => OscBrackets(v, b);
    case Escape | EscapeIntermediate | SosPmApcString => EscapeBrackets(v, b);
    case _ => SequenceBrackets(v, b);
  }

  lemma {:induction false} RunProtocol(bulk: bool, c: Conf, bs: seq<Byte>)
    requires ObserveAll(Idle, c.log) == PhaseOf(c.vt.state)
    ensures ObserveAll(Idle, Run(bulk, c, bs).log) == PhaseOf(Run(bulk, c, bs).vt.state)
    decreases |bs|
  {
    hide Step, ObserveAll, PhaseOf;
    if bs != [] {
      StepProtocol(bulk, c.vt, bs[0]);
      ObserveConcat(Idle, c.log, Step(bulk, c.vt, bs[0]).log);
      RunProtocol(bulk, Next(bulk, c, bs[0]), bs[1..]);
    }
  }

  /** After any chunks, in any split: the callbacks are bracketed, a hook is open exactly
      in DcsPassthrough and DcsEscape, and an APC exactly in ApcString. */
  lemma {:induction false} ReachableProtocol(c: Conf, chunks: seq<seq<Byte>>)
    requires Inv(c.vt) && ObserveAll(Idle, c.log) == PhaseOf(c.vt.state)
    ensures var d := AdvanceAll(c, chunks); ObserveAll(Idle, d.log) == PhaseOf(d.vt.state)
    decreases |chunks|
  {
    assert Inv(c.vt) && c.vt.partial != [] ==> (c.vt.state.Ground?);
    hide Run, ObserveAll, Inv;
    if chunks != [] {
      var v, bs := c.vt.(partial := []), chunks[0];
      RunProtocol(true, c, bs);
      if BadSplit(c.vt.partial, bs) {
        var e := Print(CodePoint(c.vt.partial + bs[..1]));
        ObserveConcat(Idle, c.log, [e]);
        ObserveOne(Idle, e);
        RunProtocol(true, Conf(v, c.log + [e]), if LosesByte(c.vt.partial, bs) then bs[2..] else bs[1..]);
      }
      AdvanceAllInv(c, [bs]);
      assert AdvanceAll(c, [bs]) == Advance(true, c, bs);
      ReachableProtocol(Advance(true, c, bs), chunks[1..]);
    }
  }

  // ---- What an accepted log looks like ----

  function Balance(log: seq<Event>, opens: Event -> bool, closes: Event -> bool): int {
    if log == [] then 0
    else
      var n, e := |log| - 1, log[|log| - 1];
      Balance(log[..n], opens, closes) + (if opens(e) then 1 else 0) - (if closes(e) then 1 else 0)
  }

  function OpenHooks(log: seq<Event>): int {
    Balance(log, (e: Event) => e.Hook?, (e: Event) => e.Unhook?)
  }

  function OpenApcs(log: seq<Event>): int {
    Balance(log, (e: Event) => e.ApcStart?, (e: Event) => e.ApcEnd?)
  }

  lemma {:induction false} ObserveLast(log: seq<Event>)
    requires log != []
    ensures ObserveAll(Idle, log) == Observe(ObserveAll(Idle, log[..|log| - 1]), log[|log| - 1])
  {
    var n := |log| - 1;
    assert log == log[..n] + [log[n]];
    ObserveConcat(Idle, log[..n], [log[n]]);
    ObserveOne(ObserveAll(Idle, log[..n]), log[n]);
  }

  /** The phase counts the open strings: never more than one in all. */
  lemma {:induction false} PhaseIsBalance(log: seq<Event>)
    requires ObserveAll(Idle, log) != Broken
    ensures OpenHooks(log) == if ObserveAll(Idle, log) in {InDcs, Aborting} then 1 else 0
    ensures OpenApcs(log) == if ObserveAll(Idle, log).InApc? then 1 else 0
  {
    if log != [] {
      ObserveLast(log);
      PhaseIsBalance(log[..|log| - 1]);
    }
  }

  /** In an accepted log, every callback comes where it may: hooks and unhooks alternate,
      as do APC starts and ends; payload lies inside its own string; nothing but payload and
      executes lies inside a hook; and an abort notice is followed at once by the unhook. */
  lemma {:induction false} AcceptedLog(log: seq<Event>, i: nat)
    requires ObserveAll(Idle, log) !in {Broken, Aborting} && i < |log|
    ensures var hooks, apcs, e := OpenHooks(log[..i]), OpenApcs(log[..i]), log[i];
            && hooks in {0, 1} && apcs in {0, 1} && hooks + apcs <= 1
            && (e.Hook? || e.ApcStart? ==> hooks == 0 && apcs == 0)
            && (e.Put? || e.Unhook? || e.NotifyDcsAbort? ==> hooks == 1)
            && (e.ApcPut? || e.ApcEnd? ==> apcs == 1)
            && (hooks == 1 ==> e.Put? || e.Execute? || e.Unhook? || e.NotifyDcsAbort?)
            && (apcs == 1 ==> e.ApcPut? || e.ApcEnd?)
            && (e.NotifyDcsAbort? ==> i + 1 < |log| && log[i + 1] == Unhook)
    decreases |log|
  {
    PhaseOfPrefix(log, i + 1);
    assert log[..i + 1][..i] == log[..i];
    ObserveLast(log[..i + 1]);
    PhaseIsBalance(log[..i]);
    assert log[..|log|] == log;
    if log[i].NotifyDcsAbort? {
      if i + 1 < |log| {
        PhaseOfPrefix(log, i + 2);
        assert log[..i + 2][..i + 1] == log[..i + 1];
        ObserveLast(log[..i + 2]);
      }
    }
  }

  lemma {:induction false} PhaseOfPrefix(log: seq<Event>, k: nat)
    requires k <= |log| && ObserveAll(Idle, log) != Broken
    ensures ObserveAll(Idle, log[..k]) != Broken
    decreases |log|
  {
    if k < |log| {
      ObserveLast(log);
      assert log[..|log| - 1][..k] == log[..k];
      PhaseOfPrefix(log[..|log| - 1], k);
    } else {
      assert log[..k] == log;
    }
  }

  // ---- How a device control string ends ----

  predicate HookOpen(s: State) {
    s in {DcsPassthrough, DcsEscape}
  }

  /** The string that is open before `bs` is still open after each byte of it. */
  predicate StaysOpen(bulk: bool, c: Conf, bs: seq<Byte>) {
    HookOpen(Run(bulk, c, bs).vt.state) && (bs == [] || StaysOpen(bulk, c, bs[..|bs| - 1]))
  }

  /** `bs` ends with ESC and any number of C0 controls and DELs. */
  predicate EndsInEscape(bs: seq<Byte>) {
    bs != [] &&
    var b := bs[|bs| - 1];
    b == ESC || ((IsC0(b) || b == 0x7F) && EndsInEscape(bs[..|bs| - 1]))
  }

  lemma OpenStep(bulk: bool, v: Vt, b: Byte)
    requires HookOpen(v.state) && HookOpen(Step(bulk, v, b).vt.state)
    ensures Step(bulk, v, b).vt.state.DcsEscape?
            <==> b == ESC || ((IsC0(b) || b == 0x7F) && v.state.DcsEscape?)
  {
    hide EscapeByte;
    EscapeNeverHooks(Reset(v).(state := Escape), b);
  }

  lemma {:induction false} OpenState(bulk: bool, c: Conf, bs: seq<Byte>)
    requires c.vt.state.DcsPassthrough? && StaysOpen(bulk, c, bs)
    ensures Run(bulk, c, bs).vt.state.DcsEscape? <==> EndsInEscape(bs)
  {
    hide Run, Step;
    if bs == [] {
      RunNil(bulk, c);
    } else {
      var n := |bs| - 1;
      assert bs == bs[..n] + [bs[n]];
      OpenState(bulk, c, bs[..n]);
      RunAppend(bulk, c, bs[..n], bs[n]);
      OpenStep(bulk, Run(bulk, c, bs[..n]).vt, bs[n]);
    }
  }

  lemma EscapeNeverHooks(v: Vt, b: Byte)
    requires v.state.Escape?
    ensures !HookOpen(EscapeByte(v, b).vt.state)
    ensures forall e :: e in EscapeByte(v, b).log ==> !e.NotifyDcsAbort? && !e.Unhook?
  {
  }

  /** The byte that closes a device control string reports an abort, unless it is 0x9C with
      no escape pending, or the `\` of a 7-bit terminator. */
  lemma ClosedNormallyIff(bulk: bool, c: Conf, bs: seq<Byte>, b: Byte)
    requires c.vt.state.DcsPassthrough? && StaysOpen(bulk, c, bs)
    requires !HookOpen(Run(bulk, c, bs + [b]).vt.state)
    ensures var before, after := Run(bulk, c, bs).log, Run(bulk, c, bs + [b]).log;
            && before <= after && Unhook in after[|before|..]
            && (NotifyDcsAbort !in after[|before|..]
                <==> (b == ST && !EndsInEscape(bs)) || (b == 0x5C && EndsInEscape(bs)))
  {
    hide Run, EscapeByte;
    OpenState(bulk, c, bs);
    RunAppend(bulk, c, bs, b);
    var d := Run(bulk, c, bs);
    EscapeNeverHooks(Reset(d.vt).(state := Escape), b);
    var made := Step(bulk, d.vt, b).log;
    assert Run(bulk, c, bs + [b]).log[|d.log|..] == made;
    if d.vt.state.DcsEscape? && b != 0x5C {
      assert made[0] == NotifyDcsAbort && made[1] == Unhook;
    } else {
      assert b != ST && b != 0x5C ==> made[0] == NotifyDcsAbort && made[1] == Unhook;
      assert b == ST || b == 0x5C ==> made == [Unhook];
    }
  }
}
