/** The bulk APC path against the byte path, and control bytes inside a sequence. */
module VteStrings {
  import opened VteTypes
  import opened VteMachine
  import opened VteGround

  // ---- Bulk path and byte path ----

  predicate HighPut(e: Event) {
    e.ApcPut? && e.b >= 0x80
  }

  /** The log without APC payload bytes from 0x80. */
  function Erase(log: seq<Event>): (r: seq<Event>)
    ensures |r| <= |log|
    ensures |r| == |log| ==> r == log && forall e :: e in log ==> !HighPut(e)
    ensures (forall e :: e in log ==> !HighPut(e)) ==> r == log
  {
    if log == [] then []
    else
      var n, e := |log| - 1, log[|log| - 1];
      assert log == log[..n] + [e];
      if HighPut(e) then Erase(log[..n]) else Erase(log[..n]) + [e]
  }

  lemma {:induction false} EraseConcat(a: seq<Event>, b: seq<Event>)
    ensures Erase(a + b) == Erase(a) + Erase(b)
  {
    if b == [] {
      assert a + b == a;
    } else {
      var n := |b| - 1;
      assert (a + b)[..|a + b| - 1] == a + b[..n];
      EraseConcat(a, b[..n]);
    }
  }

  lemma StepErased(v: Vt, b: Byte)
    ensures Step(false, v, b).vt == Step(true, v, b).vt
    ensures Step(false, v, b).log == Erase(Step(true, v, b).log)
  {
    if v.state.ApcString? {
    } else {
      hide Step, Erase;
      OnlyApcPuts(v, b);
    }
  }

  /** At most three callbacks, none of them an APC payload byte. */
  predicate NoApcPut(log: seq<Event>) {
    |log| <= 3 && forall i :: 0 <= i < |log| ==> !log[i].ApcPut?
  }

  lemma SequenceNoApcPut(v: Vt, b: Byte)
    ensures v.state in {CsiEntry, CsiIgnore, CsiIntermediate, CsiParam} ==> NoApcPut(CsiByte(v, b).log)
    ensures v.state in {DcsEntry, DcsIgnore, DcsIntermediate, DcsParam} ==> NoApcPut(DcsByte(v, b).log)
  {
    hide Collect, Pushed, NextParam, NextSubParam, Digit, Groups;
  }

  lemma EscapeNoApcPut(v: Vt, b: Byte)
    ensures var log := EscapeByte(v, b).log; |log| <= 1 && NoApcPut(log)
    ensures NoApcPut(EscapeIntermediateByte(v, b).log) && NoApcPut(Anywhere(v, b).log)
    ensures NoApcPut(PassthroughByte(v, b).log)
  {
  }

  lemma GroundNoApcPut(v: Vt, b: Byte)
    ensures var log := FreshByte(v, b).log; |log| <= 1 && NoApcPut(log)
    ensures NoApcPut(GroundByte(v, b).log)
  {
    hide Utf8.TablePrefix, Utf8.CodePoint;
    var w := v.(partial := []);
    assert |FreshByte(w, b).log| <= 1 && NoApcPut(FreshByte(w, b).log);
  }

  lemma OnlyApcPuts(v: Vt, b: Byte)
    requires !v.state.ApcString?
    ensures Step(false, v, b) == Step(true, v, b)
    ensures forall e :: e in Step(true, v, b).log ==> !HighPut(e)
  {
    hide GroundByte, CsiByte, DcsByte, EscapeByte, EscapeIntermediateByte, Anywhere, PassthroughByte, Fields;
    SequenceNoApcPut(v, b);
    EscapeNoApcPut(v, b);
    EscapeNoApcPut(Reset(v).(state := Escape), b);
    GroundNoApcPut(v, b);
    assert NoApcPut(Step(true, v, b).log);
  }

  /** The two entry points end in the same state on any bytes, and the byte path makes
      the callbacks of the bulk path without the APC payload bytes from 0x80. */
  lemma {:induction false} BytePathIsErasure(c: Conf, d: Conf, bs: seq<Byte>)
    requires c.vt == d.vt && d.log == Erase(c.log)
    ensures Run(false, d, bs).vt == Run(true, c, bs).vt
    ensures Run(false, d, bs).log == Erase(Run(true, c, bs).log)
    decreases |bs|
  {
    hide Step, Erase;
    if bs != [] {
      StepErased(c.vt, bs[0]);
      EraseConcat(c.log, Step(true, c.vt, bs[0]).log);
      BytePathIsErasure(Next(true, c, bs[0]), Next(false, d, bs[0]), bs[1..]);
    }
  }

  lemma HighPutsErased(payload: seq<Byte>)
    ensures Erase(ApcPuts(payload)) == ApcPuts(payload) <==> forall b :: b in payload ==> b < 0x80
  {
    hide Erase;
    var puts := ApcPuts(payload);
    if forall b :: b in payload ==> b < 0x80 {
      assert forall i :: 0 <= i < |payload| ==> payload[i] in payload;
    } else {
      var i :| 0 <= i < |payload| && payload[i] >= 0x80;
      assert puts[i] in puts;
    }
  }

  /** They agree on an APC payload exactly when it is ASCII. */
  lemma ApcPathsAgreeIff(v: Vt, payload: seq<Byte>)
    requires v.state.ApcString? && forall b :: b in payload ==> !EndsApc(b)
    ensures Run(false, Conf(v, []), payload) == Run(true, Conf(v, []), payload)
            <==> forall b :: b in payload ==> b < 0x80
  {
    hide Run, Erase;
    BytePathIsErasure(Conf(v, []), Conf(v, []), payload);
    RunApcPayload(v, [], payload, []);
    RunNil(true, Conf(v, [] + ApcPuts(payload)));
    assert payload + [] == payload && [] + ApcPuts(payload) == ApcPuts(payload);
    HighPutsErased(payload);
  }

  // ---- Controls inside a sequence ----

  /** Inside an escape or control sequence, or the introduction of a device control string. */
  predicate InSequence(s: State) {
    || s in {Escape, EscapeIntermediate, CsiEntry, CsiParam, CsiIntermediate, CsiIgnore}
    || s in {DcsEntry, DcsParam, DcsIntermediate}
  }

  /** C0 controls that do not cancel or start a sequence, DEL, and bytes from 0x80 but 0x9C. */
  predicate IsNoise(b: Byte) {
    b <= 0x17 || b == 0x19 || 0x1C <= b <= 0x1F || (b >= 0x7F && b != 0x9C)
  }

  /** The callbacks of noise: controls are executed, but not in a device control string. */
  function NoiseEvents(s: State, bs: seq<Byte>): seq<Event> {
    if bs == [] then []
    else
      (if bs[0] < 0x20 && s !in {DcsEntry, DcsParam, DcsIntermediate} then [Execute(bs[0])] else [])
      + NoiseEvents(s, bs[1..])
  }

  lemma NoiseInSequence(bulk: bool, v: Vt, b: Byte)
    requires InSequence(v.state) && IsNoise(b)
    ensures Step(bulk, v, b) == Conf(v, NoiseEvents(v.state, [b]))
  {
    assert [b][1..] == [];
  }

  /** How a sequence is cut off: CAN and SUB are executed, ESC starts anew without what has been
      collected, and 0x9C ends it; but behind a plain ESC, the last two are dropped. */
  lemma SequenceCutOff(bulk: bool, v: Vt, b: Byte)
    requires InSequence(v.state)
    ensures b == 0x18 || b == 0x1A ==> Step(bulk, v, b) == Conf(v.(state := Ground), [Execute(b)])
    ensures (b == 0x1B || b == 0x9C) && v.state.Escape? ==> Step(bulk, v, b) == Conf(v, [])
    ensures b == 0x1B && !v.state.Escape? ==>
              var d := Step(bulk, v, b); d.log == [] && d.vt.state.Escape? && NoParams(d.vt)
    ensures b == 0x9C && !v.state.Escape? ==> Step(bulk, v, b) == Conf(v.(state := Ground), [])
  {
  }

  lemma {:induction false} RunNoise(bulk: bool, v: Vt, log: seq<Event>, cs: seq<Byte>, rest: seq<Byte>)
    requires InSequence(v.state) && forall b :: b in cs ==> IsNoise(b)
    ensures Run(bulk, Conf(v, log), cs + rest) == Run(bulk, Conf(v, log + NoiseEvents(v.state, cs)), rest)
    decreases |cs|
  {
    hide Step, InSequence, IsNoise;
    if cs == [] {
      assert cs + rest == rest && NoiseEvents(v.state, cs) == [] && log + [] == log;
    } else {
      NoiseInSequence(bulk, v, cs[0]);
      assert (cs + rest)[1..] == cs[1..] + rest;
      assert cs[0] in cs && forall b :: b in cs[1..] ==> b in cs;
      var one := if cs[0] < 0x20 && v.state !in {DcsEntry, DcsParam, DcsIntermediate} then [Execute(cs[0])] else [];
      assert [cs[0]][1..] == [] && one + [] == one;
      assert NoiseEvents(v.state, [cs[0]]) == one;
      RunNoise(bulk, v, log + one, cs[1..], rest);
      assert log + one + NoiseEvents(v.state, cs[1..]) == log + (one + NoiseEvents(v.state, cs[1..]));
    }
  }

  /** A byte of the input, and the noise inserted before it. */
  datatype Piece = Piece(noise: seq<Byte>, b: Byte)

  function Plain(ps: seq<Piece>): seq<Byte> {
    if ps == [] then [] else [ps[0].b] + Plain(ps[1..])
  }

  function Woven(ps: seq<Piece>): seq<Byte> {
    if ps == [] then [] else ps[0].noise + [ps[0].b] + Woven(ps[1..])
  }

  /** Noise is inserted only inside sequences. */
  predicate Inside(bulk: bool, v: Vt, ps: seq<Piece>)
    decreases |ps|
  {
    ps == [] ||
    (&& (ps[0].noise != [] ==> InSequence(v.state) && forall b :: b in ps[0].noise ==> IsNoise(b))
     && Inside(bulk, Step(bulk, v, ps[0].b).vt, ps[1..]))
  }

  /** The pieces without their noise. */
  function Bare(ps: seq<Piece>): seq<Piece> {
    if ps == [] then [] else [Piece([], ps[0].b)] + Bare(ps[1..])
  }

  /** The callbacks of the bytes, with those of the noise at their places. */
  function WovenLog(bulk: bool, v: Vt, ps: seq<Piece>): seq<Event>
    decreases |ps|
  {
    if ps == [] then []
    else
      var d := Step(bulk, v, ps[0].b);
      NoiseEvents(v.state, ps[0].noise) + d.log + WovenLog(bulk, d.vt, ps[1..])
  }

  lemma Regroup<T>(a: seq<T>, b: seq<T>, c: seq<T>, d: seq<T>)
    ensures a + b + c + d == a + (b + c + d)
  {
  }

  lemma {:induction false} WovenRun(bulk: bool, v: Vt, log: seq<Event>, ps: seq<Piece>)
    requires Inside(bulk, v, ps)
    ensures Run(bulk, Conf(v, log), Woven(ps)).vt == Run(bulk, Conf(v, []), Plain(ps)).vt
    ensures Run(bulk, Conf(v, log), Woven(ps)).log == log + WovenLog(bulk, v, ps)
    decreases |ps|
  {
    hide Step, InSequence;
    if ps != [] {
      var p, rest := ps[0], ps[1..];
      var d := Step(bulk, v, p.b);
      var log' := log + NoiseEvents(v.state, p.noise);
      var tail := [p.b] + Woven(rest);
      assert Woven(ps) == p.noise + tail && tail[1..] == Woven(rest);
      if p.noise != [] {
        RunNoise(bulk, v, log, p.noise, tail);
      } else {
        assert p.noise + tail == tail && log' == log;
      }
      WovenRun(bulk, d.vt, log' + d.log, rest);
      RunLog(bulk, d.vt, [] + d.log, Plain(rest));
      assert Plain(ps)[1..] == Plain(rest);
      Regroup(log, NoiseEvents(v.state, p.noise), d.log, WovenLog(bulk, d.vt, rest));
    }
  }

  lemma {:induction false} BareIsPlain(bulk: bool, v: Vt, ps: seq<Piece>)
    ensures Inside(bulk, v, Bare(ps)) && Woven(Bare(ps)) == Plain(ps) && Plain(Bare(ps)) == Plain(ps)
    decreases |ps|
  {
    hide Step;
    if ps != [] {
      assert Bare(ps)[1..] == Bare(ps[1..]);
      BareIsPlain(bulk, Step(bulk, v, ps[0].b).vt, ps[1..]);
    }
  }

  /** Inserted noise leaves the final state alone and adds the executes of its controls, in order
      and at their places, to the callbacks of the plain input. */
  lemma NoiseIsTransparent(bulk: bool, c: Conf, ps: seq<Piece>)
    requires Inside(bulk, c.vt, ps)
    ensures Run(bulk, c, Woven(ps)).vt == Run(bulk, c, Plain(ps)).vt
    ensures Run(bulk, c, Woven(ps)).log == c.log + WovenLog(bulk, c.vt, ps)
    ensures Run(bulk, c, Plain(ps)).log == c.log + WovenLog(bulk, c.vt, Bare(ps))
  {
    hide Run, WovenLog, Inside;
    WovenRun(bulk, c.vt, c.log, ps);
    BareIsPlain(bulk, c.vt, ps);
    WovenRun(bulk, c.vt, c.log, Bare(ps));
  }
}
