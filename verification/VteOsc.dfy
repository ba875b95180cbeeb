/** Operating system commands: the index table delivers the fields of the payload. */
module VteOsc {
  import opened VteTypes
  import opened VteMachine
  import opened VteGround

  const SEMICOLON: Byte := 0x3B

  /** BEL, CAN, SUB and ESC end the string. */
  predicate EndsOsc(b: Byte) {
    b == 0x07 || b == CAN || b == SUB || b == ESC
  }

  /** The payload without the ignored controls. */
  function Kept(bs: seq<Byte>): seq<Byte> {
    if bs == [] then [] else (if bs[0] < 0x20 then [] else [bs[0]]) + Kept(bs[1..])
  }

  /** The head of the payload that fits a buffer with `room` bytes left; separators
      take no room, but are dropped once there is none. */
  function Fitting(bs: seq<Byte>, room: nat): seq<Byte> {
    if bs == [] || room == 0 then []
    else [bs[0]] + Fitting(bs[1..], if bs[0] == SEMICOLON then room else room - 1)
  }

  /** The fields of a payload. */
  function Split(bs: seq<Byte>): (fs: seq<seq<Byte>>)
    ensures fs != []
  {
    if bs == [] then [[]]
    else
      var n := |bs| - 1;
      var fs := Split(bs[..n]);
      if bs[n] == SEMICOLON then fs + [[]] else fs[..|fs| - 1] + [fs[|fs| - 1] + [bs[n]]]
  }

  /** What the buffer and the index table hold after the payload `e`. */
  ghost predicate Holds(v: Vt, e: seq<Byte>) {
    var fs, n := Split(e), |v.oscBounds|;
    && v.state.OscString?
    && n == Min(|fs| - 1, MAX_OSC_PARAMS)
    && EndOf(v.oscBounds) <= |v.oscRaw| <= MAX_OSC_RAW
    && (forall i :: 0 <= i < n ==> v.oscBounds[i].0 <= v.oscBounds[i].1 <= EndOf(v.oscBounds))
    && (forall i :: 0 <= i < n ==> Slice(v.oscRaw, v.oscBounds[i]) == fs[i])
    && (n == |fs| - 1 ==> v.oscRaw[EndOf(v.oscBounds)..] == fs[n])
  }

  lemma SplitAppend(e: seq<Byte>, b: Byte)
    ensures var fs := Split(e);
            Split(e + [b]) == if b == SEMICOLON then fs + [[]] else fs[..|fs| - 1] + [fs[|fs| - 1] + [b]]
  {
    assert (e + [b])[..|e|] == e;
  }

  lemma PutHolds(v: Vt, e: seq<Byte>, b: Byte)
    requires Holds(v, e) && |v.oscRaw| < MAX_OSC_RAW && b != SEMICOLON
    ensures Holds(OscPut(v, b), e + [b])
  {
    hide Split;
    SplitAppend(e, b);
    var w := OscPut(v, b);
    forall i | 0 <= i < |v.oscBounds| ensures Slice(w.oscRaw, v.oscBounds[i]) == Slice(v.oscRaw, v.oscBounds[i]) {}
  }

  lemma PutParamHolds(v: Vt, e: seq<Byte>)
    requires Holds(v, e)
    ensures Holds(OscPutParam(v), e + [SEMICOLON])
  {
    hide Split;
    SplitAppend(e, SEMICOLON);
    var w, k := OscPutParam(v), EndOf(v.oscBounds);
    if |v.oscBounds| < MAX_OSC_PARAMS {
      assert Slice(v.oscRaw, (k, |v.oscRaw|)) == v.oscRaw[k..];
    }
  }

  /** Room left in the buffer. */
  ghost function Room(v: Vt): nat {
    if |v.oscRaw| <= MAX_OSC_RAW then MAX_OSC_RAW - |v.oscRaw| else 0
  }

  lemma OscByteShape(v: Vt, b: Byte)
    requires v.state.OscString? && !EndsOsc(b)
    ensures var d := OscByte(v, b);
            && d == Conf(v.(oscRaw := d.vt.oscRaw, oscBounds := d.vt.oscBounds), [])
            && d == Step(true, v, b) == Step(false, v, b)
            && d.vt == if b < 0x20 || |v.oscRaw| >= MAX_OSC_RAW then v else OscPut(v, b)
  {
  }

  /** One payload byte moves from what is still to come to what is held. */
  lemma OscByteHolds(v: Vt, e: seq<Byte>, b: Byte, rest: seq<Byte>) returns (e': seq<Byte>)
    requires Holds(v, e) && !EndsOsc(b)
    ensures var w := OscByte(v, b).vt;
            Holds(w, e') && e' + Fitting(Kept(rest), Room(w)) == e + Fitting(Kept([b] + rest), Room(v))
  {
    assert Room(v) > 0 ==> Room(OscPut(v, b)) == if b == SEMICOLON then Room(v) else Room(v) - 1;
    assert Room(v) > 0 && b == SEMICOLON ==> OscPut(v, b) == OscPutParam(v);
    hide Holds, OscByte, Split, OscPut;
    OscByteShape(v, b);
    var w, kept := OscByte(v, b).vt, Kept(rest);
    assert ([b] + rest)[1..] == rest;
    e' := e;
    if b < 0x20 {
      assert [] + kept == kept;
    } else if Room(v) > 0 {
      if b == SEMICOLON { PutParamHolds(v, e); } else { PutHolds(v, e, b); }
      assert ([b] + kept)[1..] == kept;
      e' := e + [b];
      assert e + [b] + Fitting(kept, Room(w)) == e + ([b] + Fitting(kept, Room(w)));
    }
  }

  lemma {:induction false} OscPayload(bulk: bool, v: Vt, log: seq<Event>, e: seq<Byte>, payload: seq<Byte>)
    requires Holds(v, e) && forall b :: b in payload ==> !EndsOsc(b)
    ensures var d := Run(bulk, Conf(v, log), payload);
            && d == Conf(v.(oscRaw := d.vt.oscRaw, oscBounds := d.vt.oscBounds), log)
            && Holds(d.vt, e + Fitting(Kept(payload), Room(v)))
    decreases |payload|
  {
    assert e + Fitting(Kept([]), Room(v)) == e;
    hide Holds, Step, OscByte, EndsOsc, Fitting, Room;
    if payload == [] {
    } else {
      var b, rest := payload[0], payload[1..];
      assert payload == [b] + rest && forall x :: x in rest ==> x in payload;
      OscByteShape(v, b);
      var e' := OscByteHolds(v, e, b, rest);
      var w := OscByte(v, b).vt;
      assert log + [] == log;
      OscPayload(bulk, w, log, e', rest);
    }
  }

  lemma StartHolds(v: Vt)
    requires v.state.OscString? && v.oscRaw == [] && v.oscBounds == []
    ensures Holds(v, [])
  {
  }

  /** The end of the payload `e`: its first sixteen fields are delivered. */
  lemma OscEndDelivers(v: Vt, e: seq<Byte>, b: Byte)
    requires Holds(v, e)
    ensures OscEnd(v, b).log == [OscDispatch(Split(e)[..Min(|Split(e)|, MAX_OSC_PARAMS)], b == 0x07)]
  {
    PutParamHolds(v, e);
    SplitAppend(e, SEMICOLON);
    var w, fs := OscPutParam(v), Split(e);
    var n := Min(|fs|, MAX_OSC_PARAMS);
    assert |w.oscBounds| == n;
    assert forall i :: 0 <= i < n ==> (fs + [[]])[i] == fs[i];
    assert Fields(w.oscRaw, w.oscBounds) == fs[..n];
  }

  /** ESC `]`, or the C1 control. */
  function Introducer(c1: bool): seq<Byte> {
    if c1 then [0x9D] else [ESC, 0x5D]
  }

  /** An OSC from its introducer to its terminator: one dispatch, with exactly the first
      sixteen fields of the payload split at `;`, less ignored controls and what does
      not fit the buffer. */
  lemma OscDelivers(bulk: bool, v: Vt, log: seq<Event>, c1: bool, payload: seq<Byte>, last: Byte)
    requires Fresh(v) && EndsOsc(last) && forall b :: b in payload ==> !EndsOsc(b)
    ensures var fs := Split(Fitting(Kept(payload), MAX_OSC_RAW));
            var d := Run(bulk, Conf(v, log), Introducer(c1) + payload + [last]);
            && d.log == log + [OscDispatch(fs[..Min(|fs|, MAX_OSC_PARAMS)], last == 0x07)]
                            + (if last == CAN || last == SUB then [Execute(last)] else [])
            && d.vt.state == (if last == ESC then Escape else Ground)
            && (last == ESC ==> NoParams(d.vt)) && d.vt.oscRaw == [] && d.vt.oscBounds == []
  {
    hide Holds, Split, Fitting, Kept, Run, Introducer;
    var w := OscOpens(bulk, v, log, c1);
    assert Introducer(c1) + payload + [last] == Introducer(c1) + (payload + [last]);
    RunConcat(bulk, Conf(v, log), Introducer(c1), payload + [last]);
    StartHolds(w);
    OscPayload(bulk, w, log, [], payload);
    RunAppend(bulk, Conf(w, log), payload, last);
    var e := Fitting(Kept(payload), MAX_OSC_RAW);
    assert [] + e == e;
    OscEndDelivers(Run(bulk, Conf(w, log), payload).vt, e, last);
  }

  lemma OscOpens(bulk: bool, v: Vt, log: seq<Event>, c1: bool) returns (w: Vt)
    requires Fresh(v)
    ensures Run(bulk, Conf(v, log), Introducer(c1)) == Conf(w, log)
    ensures w.state.OscString? && w.oscRaw == [] && w.oscBounds == []
  {
    assert log + [] == log;
    if c1 {
      w := v.(state := OscString, oscRaw := [], oscBounds := []);
      RunOne(bulk, Conf(v, log), 0x9D);
    } else {
      w := Reset(v).(state := OscString, oscRaw := [], oscBounds := []);
      assert [ESC] + [0x5D] == [ESC, 0x5D];
      RunOne(bulk, Conf(v, log), ESC);
      RunAppend(bulk, Conf(v, log), [ESC], 0x5D);
    }
  }

  // ---- Round trip ----

  function Join(fs: seq<seq<Byte>>): seq<Byte>
    requires fs != []
  {
    if |fs| == 1 then fs[0] else Join(fs[..|fs| - 1]) + [SEMICOLON] + fs[|fs| - 1]
  }

  /** A field byte that neither separates, nor ends the string, nor is dropped. */
  predicate FieldByte(b: Byte) {
    b >= 0x20 && b != SEMICOLON
  }

  predicate Legal(fs: seq<seq<Byte>>) {
    forall i, j :: 0 <= i < |fs| && 0 <= j < |fs[i]| ==> FieldByte(fs[i][j])
  }

  lemma {:induction false} SplitField(e: seq<Byte>, f: seq<Byte>)
    requires SEMICOLON !in f
    ensures var fs := Split(e); Split(e + f) == fs[..|fs| - 1] + [fs[|fs| - 1] + f]
  {
    hide Split;
    var k := |Split(e)| - 1;
    var init, last := Split(e)[..k], Split(e)[k];
    if f == [] {
      assert e + f == e && last + f == last && init + [last] == Split(e);
    } else {
      var n := |f| - 1;
      assert e + f == (e + f[..n]) + [f[n]];
      SplitField(e, f[..n]);
      SplitAppend(e + f[..n], f[n]);
      assert f[n] in f;
      assert (init + [last + f[..n]])[..k] == init;
      assert last + f[..n] + [f[n]] == last + f;
    }
  }

  lemma NoFields()
    ensures Split([]) == [[]]
  {
  }

  lemma {:induction false} SplitJoin(fs: seq<seq<Byte>>)
    requires fs != [] && Legal(fs)
    ensures Split(Join(fs)) == fs
    decreases |fs|
  {
    hide Split;
    var n := |fs| - 1;
    assert SEMICOLON !in fs[n];
    assert [] + fs[n] == fs[n];
    if n == 0 {
      NoFields();
      SplitField([], fs[0]);
    } else {
      SplitJoin(fs[..n]);
      SplitAppend(Join(fs[..n]), SEMICOLON);
      SplitField(Join(fs[..n]) + [SEMICOLON], fs[n]);
      assert fs == fs[..n] + [fs[n]];
    }
  }

  lemma {:induction false} JoinIsKept(fs: seq<seq<Byte>>)
    requires fs != [] && Legal(fs)
    ensures forall b :: b in Join(fs) ==> b >= 0x20
    decreases |fs|
  {
    var n := |fs| - 1;
    assert forall b :: b in fs[n] ==> b >= 0x20;
    if n > 0 {
      JoinIsKept(fs[..n]);
    }
  }

  lemma {:induction false} AllKept(bs: seq<Byte>)
    requires forall b :: b in bs ==> b >= 0x20
    ensures Kept(bs) == bs
  {
    if bs != [] {
      assert bs[0] in bs && forall b :: b in bs[1..] ==> b in bs;
      AllKept(bs[1..]);
    }
  }

  /** The room a payload takes. */
  function Weight(bs: seq<Byte>): nat {
    if bs == [] then 0 else (if bs[0] == SEMICOLON then 0 else 1) + Weight(bs[1..])
  }

  /** A payload fits exactly when there is still room before its last byte. */
  lemma {:induction false} FittingIff(bs: seq<Byte>, room: nat)
    ensures Fitting(bs, room) == bs <==> bs == [] || Weight(bs[..|bs| - 1]) < room
  {
    if |bs| == 1 {
      assert Fitting(bs[1..], 0) == [];
      assert bs == [bs[0]] && bs[..0] == [];
    } else if |bs| > 1 {
      assert bs[..|bs| - 1][1..] == bs[1..][..|bs| - 2];
      assert bs == [bs[0]] + bs[1..];
      if room > 0 {
        FittingIff(bs[1..], if bs[0] == SEMICOLON then room else room - 1);
        FittingLength(bs[1..], if bs[0] == SEMICOLON then room else room - 1);
      }
    }
  }

  lemma {:induction false} FittingLength(bs: seq<Byte>, room: nat)
    ensures Fitting(bs, room) <= bs
  {
    if bs != [] && room > 0 {
      FittingLength(bs[1..], if bs[0] == SEMICOLON then room else room - 1);
    }
  }

  /** One to sixteen legal fields that fit the buffer come back as they were sent. */
  lemma OscRoundTrip(bulk: bool, v: Vt, log: seq<Event>, c1: bool, fs: seq<seq<Byte>>, bell: bool)
    requires Fresh(v) && 1 <= |fs| <= MAX_OSC_PARAMS && Legal(fs)
    requires Join(fs) != [] ==> Weight(Join(fs)[..|Join(fs)| - 1]) < MAX_OSC_RAW
    ensures Run(bulk, Conf(v, log), Introducer(c1) + Join(fs) + [if bell then 0x07 else ESC]).log
            == log + [OscDispatch(fs, bell)]
  {
    hide Run, Split, Fitting, Kept, Join, Weight, Introducer;
    JoinIsKept(fs);
    AllKept(Join(fs));
    FittingIff(Join(fs), MAX_OSC_RAW);
    SplitJoin(fs);
    OscDelivers(bulk, v, log, c1, Join(fs), if bell then 0x07 else ESC);
    assert fs[..|fs|] == fs;
    assert log + [OscDispatch(fs, bell)] + [] == log + [OscDispatch(fs, bell)];
  }
}
