/** Which control sequences and device control strings are dispatched, and which ignored. */
module VteShapes {
  import opened VteTypes
  import opened VteMachine
  import opened VteGround
  import opened VteApc
  import opened VteCsi
  import VteDcs

  // ---- The shape of a sequence ----

  /** A digit, a colon or a semicolon. */
  predicate IsParamByte(b: Byte) {
    0x30 <= b <= 0x3B
  }

  predicate AllParamBytes(bs: seq<Byte>) {
    forall i :: 0 <= i < |bs| ==> IsParamByte(bs[i])
  }

  /** Bytes between an introducer and a final byte. */
  predicate BodyBytes(body: seq<Byte>) {
    forall i :: 0 <= i < |body| ==> 0x20 <= body[i] <= 0x3F
  }

  /** At most one private marker, and then parameters. */
  predicate HasParams(body: seq<Byte>) {
    exists k :: 0 <= k <= |body| && IsMarker(body[..k]) && AllParamBytes(body[k..])
  }

  /** A marker at most, then parameters, then intermediates. */
  predicate Shaped(body: seq<Byte>) {
    exists k :: 0 <= k <= |body| && HasParams(body[..k]) && IsIntermediates(body[k..])
  }

  lemma HasParamsSnoc(body: seq<Byte>, b: Byte)
    ensures HasParams(body + [b])
            <==> (HasParams(body) && IsParamByte(b)) || (body == [] && (IsParamByte(b) || 0x3C <= b <= 0x3F))
  {
    var all := body + [b];
    if HasParams(all) {
      var k :| 0 <= k <= |all| && IsMarker(all[..k]) && AllParamBytes(all[k..]);
      if k <= |body| {
        assert all[k..][|all| - 1 - k] == b && all[..k] == body[..k] && all[k..] == body[k..] + [b];
        assert forall i :: 0 <= i < |body[k..]| ==> body[k..][i] == all[k..][i];
      } else {
        assert all[..k][|body|] == b;
      }
    }
    if HasParams(body) && IsParamByte(b) {
      var k :| 0 <= k <= |body| && IsMarker(body[..k]) && AllParamBytes(body[k..]);
      assert all[..k] == body[..k] && all[k..] == body[k..] + [b];
    }
    if body == [] && 0x3C <= b <= 0x3F {
      assert all[..1] == [b] && all[1..] == [];
    }
    if body == [] && IsParamByte(b) {
      assert all[..0] == [] && all[0..] == [b];
    }
  }

  lemma ShapedSnoc(body: seq<Byte>, b: Byte)
    ensures Shaped(body + [b]) <==> HasParams(body + [b]) || (Shaped(body) && 0x20 <= b <= 0x2F)
  {
    hide HasParams;
    var all := body + [b];
    if Shaped(all) {
      var k :| 0 <= k <= |all| && HasParams(all[..k]) && IsIntermediates(all[k..]);
      if k <= |body| {
        assert all[k..][|all| - 1 - k] == b && all[..k] == body[..k] && all[k..] == body[k..] + [b];
        assert forall i :: 0 <= i < |body[k..]| ==> body[k..][i] == all[k..][i];
      } else {
        assert all[..k] == all;
      }
    }
    if HasParams(all) {
      assert all[..|all|] == all && all[|all|..] == [];
    }
    if Shaped(body) && 0x20 <= b <= 0x2F {
      var k :| 0 <= k <= |body| && HasParams(body[..k]) && IsIntermediates(body[k..]);
      assert all[..k] == body[..k] && all[k..] == body[k..] + [b];
    }
  }

  lemma NothingShaped()
    ensures HasParams([]) && Shaped([])
  {
    var e: seq<Byte> := [];
    assert e[..0] == [] && e[0..] == [];
  }

  // ---- Parameters are always printed ones ----

  lemma LastGroup(g: Group, v: seq<Byte>)
    requires g != []
    ensures GroupText(g + [v]) == GroupText(g) + [COLON] + v
  {
    assert (g + [v])[..|g|] == g;
  }

  lemma LastParam(gs: seq<Group>, g: Group)
    requires gs != [] && IsParamList(gs) && IsGroup(g)
    ensures IsParamList(gs + [g]) && ParamText(gs + [g]) == ParamText(gs) + [SEMICOLON] + GroupText(g)
  {
    assert (gs + [g])[..|gs|] == gs;
  }

  /** Adding a byte to the text of the last group. */
  lemma GrowGroup(g: Group, b: Byte) returns (g': Group)
    requires IsGroup(g) && (IsDigit(b) || b == COLON)
    ensures IsGroup(g') && GroupText(g') == GroupText(g) + [b]
  {
    var k := |g| - 1;
    assert g == g[..k] + [g[k]];
    if b == COLON {
      g' := g + [[]];
      LastGroup(g, []);
    } else {
      g' := g[..k] + [g[k] + [b]];
      if k > 0 {
        LastGroup(g[..k], g[k] + [b]);
        LastGroup(g[..k], g[k]);
      }
    }
  }

  /** Digits, colons and semicolons in any order are the text of some parameter list. */
  lemma {:induction false} ParamsArePrinted(bs: seq<Byte>) returns (gs: seq<Group>)
    requires AllParamBytes(bs)
    ensures IsParamList(gs) && ParamText(gs) == bs
  {
    if bs == [] {
      gs := [[[]]];
    } else {
      var n := |bs| - 1;
      var b := bs[n];
      assert bs == bs[..n] + [b];
      var init := ParamsArePrinted(bs[..n]);
      var k := |init| - 1;
      if b == SEMICOLON {
        gs := init + [[[]]];
        LastParam(init, [[]]);
      } else {
        var g := GrowGroup(init[k], b);
        gs := init[..k] + [g];
        assert init == init[..k] + [init[k]];
        if k > 0 {
          LastParam(init[..k], g);
          LastParam(init[..k], init[k]);
        }
      }
    }
  }

  /** A shaped body is the printed form of a marker, parameters and intermediates. */
  lemma ShapedIsPrinted(body: seq<Byte>) returns (marker: seq<Byte>, gs: seq<Group>, inters: seq<Byte>)
    requires Shaped(body)
    ensures IsMarker(marker) && IsParamList(gs) && IsIntermediates(inters)
    ensures body == marker + (ParamText(gs) + inters)
  {
    hide ParamText;
    var k :| 0 <= k <= |body| && HasParams(body[..k]) && IsIntermediates(body[k..]);
    var head := body[..k];
    var j :| 0 <= j <= |head| && IsMarker(head[..j]) && AllParamBytes(head[j..]);
    gs := ParamsArePrinted(head[j..]);
    marker, inters := head[..j], body[k..];
    assert body == head + inters && head == marker + head[j..];
  }

  // ---- The states between introducer and final byte ----

  /** Where the parser is after the body of a control sequence. */
  lemma {:induction false} BodyState(bulk: bool, v: Vt, log: seq<Event>, body: seq<Byte>)
    requires v.state.CsiEntry? && BodyBytes(body)
    ensures var d := Run(bulk, Conf(v, log), body);
            && d.log == log
            && (d.vt.state == CsiEntry <==> body == [])
            && (d.vt.state in {CsiEntry, CsiParam} <==> HasParams(body))
            && (d.vt.state in {CsiEntry, CsiParam, CsiIntermediate} <==> Shaped(body))
            && d.vt.state in {CsiEntry, CsiParam, CsiIntermediate, CsiIgnore}
  {
    hide Run, Step, HasParams, Shaped;
    if body == [] {
      NothingShaped();
      RunNil(bulk, Conf(v, log));
    } else {
      var n := |body| - 1;
      var b := body[n];
      assert body == body[..n] + [b];
      BodyState(bulk, v, log, body[..n]);
      RunAppend(bulk, Conf(v, log), body[..n], b);
      BodyStep(bulk, Run(bulk, Conf(v, log), body[..n]).vt, b);
      HasParamsSnoc(body[..n], b);
      ShapedSnoc(body[..n], b);
      assert log + [] == log;
    }
  }

  lemma BodyStep(bulk: bool, v: Vt, b: Byte)
    requires 0x20 <= b <= 0x3F && v.state in {CsiEntry, CsiParam, CsiIntermediate, CsiIgnore}
    ensures var d := Step(bulk, v, b);
            && d.log == []
            && d.vt.state == if v.state == CsiIgnore then CsiIgnore
                             else if b <= 0x2F then CsiIntermediate
                             else if v.state == CsiIntermediate then CsiIgnore
                             else if b <= 0x3B || v.state == CsiEntry then CsiParam
                             else CsiIgnore
  {
    hide Values;
  }

  lemma IgnoredFinal(bulk: bool, v: Vt, final: Byte)
    requires v.state.CsiIgnore? && 0x40 <= final <= 0x7E
    ensures Step(bulk, v, final) == Conf(v.(state := Ground), [])
  {
  }

  /** A control sequence with any body: it is dispatched exactly when it is shaped, and then with
      the parameters and intermediates that are printed there; either way it is over. */
  lemma CsiDispatchesIff(bulk: bool, v: Vt, log: seq<Event>, c1: bool, body: seq<Byte>, final: Byte)
      returns (marker: seq<Byte>, gs: seq<Group>, inters: seq<Byte>)
    requires Fresh(v) && BodyBytes(body) && 0x40 <= final <= 0x7E
    ensures IsMarker(marker) && IsParamList(gs) && IsIntermediates(inters)
    ensures Shaped(body) ==> body == marker + (ParamText(gs) + inters)
    ensures var d := Run(bulk, Conf(v, log), Introducer(c1) + (body + [final]));
            && d.vt.state.Ground?
            && d.log == log + if Shaped(body)
                              then [CsiDispatch(Take(ListValues(gs), MAX_PARAMS), Limited(marker + inters),
                                                Values(ListValues(gs)) > MAX_PARAMS
                                                || |marker + inters| > MAX_INTERMEDIATES, final)]
                              else []
  {
    hide Run, Step, Shaped, Introducer, Take, Values, ListValues, ParamText, Limited;
    marker, gs, inters := [], [[[]]], [];
    if Shaped(body) {
      marker, gs, inters := ShapedIsPrinted(body);
      assert body + [final] == marker + (ParamText(gs) + inters + [final]);
      CsiCharacterisation(bulk, v, log, c1, marker, gs, inters, final);
    } else {
      var e := Reset(v).(state := CsiEntry);
      RunConcat(bulk, Conf(v, log), Introducer(c1), body + [final]);
      Introduced(bulk, v, log, c1);
      BodyState(bulk, e, log, body);
      RunAppend(bulk, Conf(e, log), body, final);
      IgnoredFinal(bulk, Run(bulk, Conf(e, log), body).vt, final);
      assert log + [] == log;
    }
  }

  /** A device control string whose introduction is not shaped reports nothing up to its
      terminator; only a CAN or SUB there is executed. */
  lemma UnshapedDcsIsSilent(bulk: bool, v: Vt, log: seq<Event>, c1: bool, body: seq<Byte>,
                            payload: seq<Byte>, last: Byte)
    requires Fresh(v) && BodyBytes(body) && !Shaped(body) && EndsString(last)
    requires forall b :: b in payload ==> !EndsString(b)
    ensures var d := Run(bulk, Conf(v, log), VteDcs.Introducer(c1) + body + payload + [last]);
            d.log == log + ExecutedEnd(last) && EndedBy(d.vt, last)
  {
    hide Run, Step, Shaped, EndsString, ExecutedEnd, VteDcs.Introducer;
    var e, intro := Reset(v).(state := CsiEntry), VteDcs.Introducer(c1);
    VteDcs.Introduced(bulk, v, log, c1);
    BodyState(bulk, e, log, body);
    assert forall b :: b in body ==> 0x20 <= b <= 0x3F;
    VteDcs.TwinRun(bulk, e, log, body);
    RunConcat(bulk, Conf(v, log), intro, body);
    var w := Run(bulk, Conf(v, log), intro + body).vt;
    RunConcat(bulk, Conf(v, log), intro + body, payload);
    RunIgnored(bulk, w, log, payload);
    RunAppend(bulk, Conf(v, log), intro + body + payload, last);
    IgnoredEnds(bulk, w, last);
  }
}
