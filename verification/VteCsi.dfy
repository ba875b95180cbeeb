/** Control sequences: what the dispatch of a printed parameter list contains. */
module VteCsi {
  import opened VteTypes
  import opened VteMachine
  import opened VteGround

  const COLON: Byte := 0x3A
  const SEMICOLON: Byte := 0x3B

  // ---- Printed values ----

  predicate IsDigit(b: Byte) {
    0x30 <= b <= 0x39
  }

  /** The decimal value of a digit string of any length. */
  function DecValue(ds: seq<Byte>): int {
    if ds == [] then 0
    else
      var b: int := ds[|ds| - 1];
      DecValue(ds[..|ds| - 1]) * 10 + (b - 0x30)
  }

  function Saturated(n: int): U16 {
    if n < 0 then 0 else if n <= 0xFFFF then n else 0xFFFF
  }

  /** A group of values, each a digit string. */
  type Group = seq<seq<Byte>>

  predicate IsGroup(g: Group) {
    g != [] && forall i, j :: 0 <= i < |g| && 0 <= j < |g[i]| ==> IsDigit(g[i][j])
  }

  predicate IsParamList(gs: seq<Group>) {
    gs != [] && forall i :: 0 <= i < |gs| ==> IsGroup(gs[i])
  }

  function GroupText(g: Group): seq<Byte>
    requires g != []
  {
    var k := |g| - 1;
    if k == 0 then g[0] else GroupText(g[..k]) + [COLON] + g[k]
  }

  function ParamText(gs: seq<Group>): seq<Byte>
    requires IsParamList(gs)
  {
    var k := |gs| - 1;
    if k == 0 then GroupText(gs[0]) else ParamText(gs[..k]) + [SEMICOLON] + GroupText(gs[k])
  }

  function GroupValues(g: Group): (vs: seq<U16>)
    ensures |vs| == |g|
  {
    seq(|g|, i requires 0 <= i < |g| => Saturated(DecValue(g[i])))
  }

  function ListValues(gs: seq<Group>): (vss: seq<seq<U16>>)
    ensures |vss| == |gs|
  {
    seq(|gs|, i requires 0 <= i < |gs| => GroupValues(gs[i]))
  }

  /** The first `n` values, in their groups. */
  function Take(vss: seq<seq<U16>>, n: nat): seq<seq<U16>> {
    if vss == [] then []
    else
      var init, last := vss[..|vss| - 1], vss[|vss| - 1];
      if Values(init) >= n then Take(init, n)
      else Take(init, n) + [last[..Min(|last|, n - Values(init))]]
  }

  lemma TakeLast(vss: seq<seq<U16>>, g: seq<U16>, n: nat)
    ensures Take(vss + [g], n) ==
            if Values(vss) >= n then Take(vss, n) else Take(vss, n) + [g[..Min(|g|, n - Values(vss))]]
    ensures Values(vss + [g]) == Values(vss) + |g|
  {
    assert (vss + [g])[..|vss|] == vss;
  }

  lemma {:induction false} TakeAll(vss: seq<seq<U16>>, n: nat)
    requires Values(vss) <= n && forall g :: g in vss ==> g != []
    ensures Take(vss, n) == vss
  {
    if vss != [] {
      var k := |vss| - 1;
      var init, g := vss[..k], vss[k];
      assert g in vss && forall h :: h in init ==> h in vss;
      assert vss == init + [g] && g[..|g|] == g;
      TakeLast(init, g, n);
      TakeAll(init, n);
    }
  }

  // ---- Reading the parameters ----

  function WithOpen(vss: seq<seq<U16>>, o: seq<U16>): seq<seq<U16>> {
    if o == [] then vss else vss + [o]
  }

  /** The parser has read the groups `vss`, the values `o` of the next group, and the
      digits `ds` of its next value. */
  ghost predicate HasRead(v: Vt, vss: seq<seq<U16>>, o: seq<U16>, ds: seq<Byte>) {
    var total := Values(vss) + |o|;
    && v.state == CsiParam
    && (forall g :: g in vss ==> g != [])
    && Values(v.groups) + |v.open| == Min(total, MAX_PARAMS)
    && Groups(v) == Take(WithOpen(vss, o), MAX_PARAMS)
    && (total < MAX_PARAMS ==>
          v.groups == vss && v.open == o && v.param == Saturated(DecValue(ds)) && !v.ignoring)
    && (total >= MAX_PARAMS ==> v.ignoring == (total > MAX_PARAMS || ds != []))
  }

  /** `w` differs from `v` at most in its parameters. */
  predicate SameButParams(v: Vt, w: Vt) {
    w == v.(groups := w.groups, open := w.open, param := w.param, ignoring := w.ignoring)
  }

  lemma DecValueAppend(ds: seq<Byte>, b: Byte)
    ensures DecValue(ds + [b]) == DecValue(ds) * 10 + (b - 0x30)
  {
    assert (ds + [b])[..|ds|] == ds;
  }

  lemma {:induction false} DecValueNat(ds: seq<Byte>)
    requires forall i :: 0 <= i < |ds| ==> IsDigit(ds[i])
    ensures DecValue(ds) >= 0
  {
    if ds != [] {
      DecValueNat(ds[..|ds| - 1]);
    }
  }

  lemma DigitRead(v: Vt, vss: seq<seq<U16>>, o: seq<U16>, ds: seq<Byte>, b: Byte)
    requires HasRead(v, vss, o, ds) && IsDigit(b) && forall i :: 0 <= i < |ds| ==> IsDigit(ds[i])
    ensures HasRead(Digit(v, b), vss, o, ds + [b]) && SameButParams(v, Digit(v, b))
  {
    hide Take, Values, WithOpen, DecValue;
    DecValueAppend(ds, b);
    DecValueNat(ds);
  }

  /** One more value is taken along while there is room, and changes nothing after. */
  lemma OneMoreValue(vss: seq<seq<U16>>, o: seq<U16>, x: U16)
    requires forall g :: g in vss ==> g != []
    ensures Values(vss + [o + [x]]) == Values(vss) + |o| + 1
    ensures Take(vss + [o + [x]], MAX_PARAMS) ==
            if Values(vss) + |o| < MAX_PARAMS then vss + [o + [x]] else Take(WithOpen(vss, o), MAX_PARAMS)
  {
    hide Take, Values;
    var o' := o + [x];
    TakeLast(vss, o, MAX_PARAMS);
    TakeLast(vss, o', MAX_PARAMS);
    if Values(vss) + |o| < MAX_PARAMS {
      TakeAll(vss, MAX_PARAMS);
      assert o'[..|o'|] == o';
    } else if o != [] && Values(vss) < MAX_PARAMS {
      assert o[..MAX_PARAMS - Values(vss)] == o'[..MAX_PARAMS - Values(vss)];
    }
  }

  lemma ColonRead(v: Vt, vss: seq<seq<U16>>, o: seq<U16>, ds: seq<Byte>)
    requires HasRead(v, vss, o, ds)
    ensures HasRead(NextSubParam(v), vss, o + [Saturated(DecValue(ds))], []) && SameButParams(v, NextSubParam(v))
  {
    hide Take, Values;
    OneMoreValue(vss, o, Saturated(DecValue(ds)));
  }

  lemma SemicolonRead(v: Vt, vss: seq<seq<U16>>, o: seq<U16>, ds: seq<Byte>)
    requires HasRead(v, vss, o, ds)
    ensures HasRead(NextParam(v), vss + [o + [Saturated(DecValue(ds))]], [], []) && SameButParams(v, NextParam(v))
  {
    hide Take, Values;
    OneMoreValue(vss, o, Saturated(DecValue(ds)));
  }

  lemma ParamStep(bulk: bool, v: Vt, b: Byte)
    requires v.state.CsiParam?
    ensures IsDigit(b) ==> Step(bulk, v, b) == Conf(Digit(v, b).(state := CsiParam), [])
    ensures b == COLON ==> Step(bulk, v, b) == Conf(NextSubParam(v).(state := CsiParam), [])
    ensures b == SEMICOLON ==> Step(bulk, v, b) == Conf(NextParam(v).(state := CsiParam), [])
  {
    hide Digit, NextParam, NextSubParam;
  }

  lemma {:induction false} DigitsRead(bulk: bool, v: Vt, log: seq<Event>,
                                      vss: seq<seq<U16>>, o: seq<U16>, ds: seq<Byte>)
    requires HasRead(v, vss, o, []) && forall i :: 0 <= i < |ds| ==> IsDigit(ds[i])
    ensures var d := Run(bulk, Conf(v, log), ds);
            HasRead(d.vt, vss, o, ds) && SameButParams(v, d.vt) && d.log == log
  {
    hide HasRead, Step, Run, Digit;
    if ds == [] {
      RunNil(bulk, Conf(v, log));
    } else {
      var k := |ds| - 1;
      var d := Run(bulk, Conf(v, log), ds[..k]);
      assert ds == ds[..k] + [ds[k]];
      DigitsRead(bulk, v, log, vss, o, ds[..k]);
      RunAppend(bulk, Conf(v, log), ds[..k], ds[k]);
      HasReadState(d.vt, vss, o, ds[..k]);
      ParamStep(bulk, d.vt, ds[k]);
      DigitRead(d.vt, vss, o, ds[..k], ds[k]);
    }
  }

  lemma HasReadState(v: Vt, vss: seq<seq<U16>>, o: seq<U16>, ds: seq<Byte>)
    requires HasRead(v, vss, o, ds)
    ensures v.state.CsiParam?
  {
  }

  /** A group without its separator: all its values but the last are stored. */
  lemma {:induction false} GroupRead(bulk: bool, v: Vt, log: seq<Event>, vss: seq<seq<U16>>, g: Group)
    requires HasRead(v, vss, [], []) && IsGroup(g)
    ensures var d := Run(bulk, Conf(v, log), GroupText(g));
            HasRead(d.vt, vss, GroupValues(g)[..|g| - 1], g[|g| - 1]) && SameButParams(v, d.vt) && d.log == log
    decreases |g|
  {
    hide HasRead, Step, Run, NextSubParam, Saturated, DecValue;
    var k := |g| - 1;
    if k == 0 {
      DigitsRead(bulk, v, log, vss, [], g[0]);
      assert GroupValues(g)[..0] == [];
    } else {
      var init := g[..k];
      var d := Run(bulk, Conf(v, log), GroupText(init));
      GroupRead(bulk, v, log, vss, init);
      var vs := GroupValues(init);
      RunAppend(bulk, Conf(v, log), GroupText(init), COLON);
      HasReadState(d.vt, vss, vs[..k - 1], init[k - 1]);
      ParamStep(bulk, d.vt, COLON);
      ColonRead(d.vt, vss, vs[..k - 1], init[k - 1]);
      assert vs[..k - 1] + [Saturated(DecValue(init[k - 1]))] == GroupValues(g)[..k];
      RunConcat(bulk, Conf(v, log), GroupText(init) + [COLON], g[k]);
      assert log + [] == log;
      DigitsRead(bulk, NextSubParam(d.vt), log, vss, GroupValues(g)[..k], g[k]);
    }
  }

  /** A parameter list: all its values but the last are stored. */
  lemma {:induction false} ParamsRead(bulk: bool, v: Vt, log: seq<Event>, gs: seq<Group>)
    requires HasRead(v, [], [], []) && IsParamList(gs)
    ensures var d, g := Run(bulk, Conf(v, log), ParamText(gs)), gs[|gs| - 1];
            HasRead(d.vt, ListValues(gs)[..|gs| - 1], GroupValues(g)[..|g| - 1], g[|g| - 1])
            && SameButParams(v, d.vt) && d.log == log
    decreases |gs|
  {
    hide HasRead, Step, Run, NextParam, Saturated, DecValue, GroupText;
    var k := |gs| - 1;
    if k == 0 {
      assert ListValues(gs)[..0] == [];
      GroupRead(bulk, v, log, [], gs[0]);
    } else {
      var init := gs[..k];
      var g := init[k - 1];
      var d := Run(bulk, Conf(v, log), ParamText(init));
      ParamsRead(bulk, v, log, init);
      RunAppend(bulk, Conf(v, log), ParamText(init), SEMICOLON);
      HasReadState(d.vt, ListValues(init)[..k - 1], GroupValues(g)[..|g| - 1], g[|g| - 1]);
      ParamStep(bulk, d.vt, SEMICOLON);
      SemicolonRead(d.vt, ListValues(init)[..k - 1], GroupValues(g)[..|g| - 1], g[|g| - 1]);
      assert GroupValues(g)[..|g| - 1] + [Saturated(DecValue(g[|g| - 1]))] == GroupValues(g);
      assert ListValues(init)[..k - 1] + [GroupValues(g)] == ListValues(gs)[..k];
      RunConcat(bulk, Conf(v, log), ParamText(init) + [SEMICOLON], GroupText(gs[k]));
      assert log + [] == log;
      GroupRead(bulk, NextParam(d.vt), log, ListValues(gs)[..k], gs[k]);
    }
  }

  // ---- The whole sequence ----

  predicate IsMarker(m: seq<Byte>) {
    m == [] || (|m| == 1 && 0x3C <= m[0] <= 0x3F)
  }

  predicate IsIntermediates(inters: seq<Byte>) {
    forall i :: 0 <= i < |inters| ==> 0x20 <= inters[i] <= 0x2F
  }

  function Limited(bs: seq<Byte>): seq<Byte> {
    bs[..Min(|bs|, MAX_INTERMEDIATES)]
  }

  /** The intermediates after a run of collected bytes. */
  lemma {:induction false} IntermediatesRead(bulk: bool, v: Vt, log: seq<Event>, inters: seq<Byte>)
    requires v.state.CsiParam? && IsIntermediates(inters) && |v.intermediates| <= MAX_INTERMEDIATES
    ensures Run(bulk, Conf(v, log), inters)
            == Conf(v.(state := if inters == [] then CsiParam else CsiIntermediate,
                       intermediates := Limited(v.intermediates + inters),
                       ignoring := v.ignoring || |v.intermediates + inters| > MAX_INTERMEDIATES), log)
    decreases |inters|
  {
    hide Run;
    if inters == [] {
      RunNil(bulk, Conf(v, log));
      assert v.intermediates + inters == v.intermediates;
    } else {
      var k := |inters| - 1;
      assert inters == inters[..k] + [inters[k]];
      IntermediatesRead(bulk, v, log, inters[..k]);
      RunAppend(bulk, Conf(v, log), inters[..k], inters[k]);
      assert log + [] == log;
      CollectStep(bulk, Run(bulk, Conf(v, log), inters[..k]).vt, v.intermediates + inters[..k], inters[k]);
      assert v.intermediates + inters[..k] + [inters[k]] == v.intermediates + inters;
    }
  }

  lemma CollectStep(bulk: bool, v: Vt, all: seq<Byte>, b: Byte)
    requires v.state in {CsiParam, CsiIntermediate} && 0x20 <= b <= 0x2F && v.intermediates == Limited(all)
    ensures Step(bulk, v, b)
            == Conf(v.(state := CsiIntermediate, intermediates := Limited(all + [b]),
                       ignoring := v.ignoring || |all| >= MAX_INTERMEDIATES), [])
  {
  }

  /** The final byte stores the last value and dispatches. */
  lemma FinalDispatches(bulk: bool, v: Vt, vss: seq<seq<U16>>, o: seq<U16>, ds: seq<Byte>, ign: bool, b: Byte, w: Vt)
    requires HasRead(v, vss, o, ds) && 0x40 <= b <= 0x7E && w.state in {CsiParam, CsiIntermediate}
    requires w == v.(state := w.state, intermediates := w.intermediates, ignoring := v.ignoring || ign)
    ensures var all := vss + [o + [Saturated(DecValue(ds))]];
            Step(bulk, w, b).log
            == [CsiDispatch(Take(all, MAX_PARAMS), w.intermediates, Values(all) > MAX_PARAMS || ign, b)]
    ensures Step(bulk, w, b).vt.state.Ground?
  {
    hide Take, Values, DecValue, Saturated;
    OneMoreValue(vss, o, Saturated(DecValue(ds)));
  }

  /** ESC `[`, or the C1 byte 0x9B. */
  function Introducer(c1: bool): seq<Byte> {
    if c1 then [0x9B] else [ESC, 0x5B]
  }

  lemma Introduced(bulk: bool, v: Vt, log: seq<Event>, c1: bool)
    requires Fresh(v)
    ensures Run(bulk, Conf(v, log), Introducer(c1)) == Conf(Reset(v).(state := CsiEntry), log)
  {
    assert log + [] == log && [] + [0x9B] == [0x9B] && [] + [ESC] == [ESC] && [ESC] + [0x5B] == [ESC, 0x5B];
    RunAppend(bulk, Conf(v, log), [], if c1 then 0x9B else ESC);
    if !c1 {
      RunAppend(bulk, Conf(v, log), [ESC], 0x5B);
      assert Reset(Reset(v)) == Reset(v);
    }
  }

  lemma MarkerRead(bulk: bool, v: Vt, log: seq<Event>, marker: seq<Byte>, rest: seq<Byte>)
    requires v.state.CsiEntry? && v.intermediates == [] && IsMarker(marker)
    requires rest != [] && (0x20 <= rest[0] <= 0x3B || 0x40 <= rest[0] <= 0x7E)
    ensures Run(bulk, Conf(v, log), marker + rest)
            == Run(bulk, Conf(v.(state := CsiParam, intermediates := marker), log), rest)
  {
    assert Run(bulk, Conf(v, log), rest) == Run(bulk, Conf(v.(state := CsiParam), log), rest);
    hide Run;
    if marker == [] {
      assert marker + rest == rest;
    } else {
      RunUncons(bulk, Conf(v, log), marker + rest);
      assert (marker + rest)[1..] == rest && log + [] == log && [] + [marker[0]] == marker;
    }
  }

  lemma {:induction false} GroupTextByte(g: Group, b: Byte)
    requires IsGroup(g) && b in GroupText(g)
    ensures 0x30 <= b <= 0x3A
    decreases |g|
  {
    if |g| > 1 && b in GroupText(g[..|g| - 1]) {
      GroupTextByte(g[..|g| - 1], b);
    }
  }

  lemma {:induction false} ParamTextByte(gs: seq<Group>, b: Byte)
    requires IsParamList(gs) && b in ParamText(gs)
    ensures 0x30 <= b <= 0x3B
    decreases |gs|
  {
    var k := |gs| - 1;
    if b in GroupText(gs[k]) {
      GroupTextByte(gs[k], b);
    } else if k > 0 && b in ParamText(gs[..k]) {
      ParamTextByte(gs[..k], b);
    }
  }

  function CsiText(c1: bool, marker: seq<Byte>, gs: seq<Group>, inters: seq<Byte>, final: Byte): seq<Byte>
    requires IsParamList(gs)
  {
    Introducer(c1) + (marker + (ParamText(gs) + inters + [final]))
  }

  /** A printed control sequence yields one dispatch: the first 32 values in their groups,
      each saturated; the first two collected bytes; and the ignore flag exactly when there
      were more of either. */
  lemma CsiCharacterisation(bulk: bool, v: Vt, log: seq<Event>,
                            c1: bool, marker: seq<Byte>, gs: seq<Group>, inters: seq<Byte>, final: Byte)
    requires Fresh(v) && IsMarker(marker) && IsParamList(gs) && IsIntermediates(inters) && 0x40 <= final <= 0x7E
    ensures var d := Run(bulk, Conf(v, log), CsiText(c1, marker, gs, inters, final));
            && d.vt.state.Ground?
            && d.log == log + [CsiDispatch(Take(ListValues(gs), MAX_PARAMS), Limited(marker + inters),
                                           Values(ListValues(gs)) > MAX_PARAMS || |marker + inters| > MAX_INTERMEDIATES,
                                           final)]
  {
    hide Run, Step, Take, HasRead, Values, GroupValues;
    var body := ParamText(gs) + inters + [final];
    var e := Reset(v).(state := CsiEntry);
    var p := e.(state := CsiParam, intermediates := marker);
    assert body[0] == final || body[0] in inters || body[0] in ParamText(gs);
    if body[0] in ParamText(gs) { ParamTextByte(gs, body[0]); }
    RunConcat(bulk, Conf(v, log), Introducer(c1), marker + body);
    Introduced(bulk, v, log, c1);
    MarkerRead(bulk, e, log, marker, body);
    NothingRead(p);
    ParamsRead(bulk, p, log, gs);
    RunConcat(bulk, Conf(p, log), ParamText(gs), inters);
    RunAppend(bulk, Conf(p, log), ParamText(gs) + inters, final);
    var q := Run(bulk, Conf(p, log), ParamText(gs)).vt;
    var g := gs[|gs| - 1];
    var vss, o, ds := ListValues(gs)[..|gs| - 1], GroupValues(g)[..|g| - 1], g[|g| - 1];
    HasReadState(q, vss, o, ds);
    IntermediatesRead(bulk, q, log, inters);
    LastValue(gs);
    FinalDispatches(bulk, q, vss, o, ds, |marker + inters| > MAX_INTERMEDIATES, final,
                    Run(bulk, Conf(q, log), inters).vt);
  }

  lemma NothingRead(v: Vt)
    requires v.state.CsiParam? && v.groups == [] && v.open == [] && v.param == 0 && !v.ignoring
    ensures HasRead(v, [], [], [])
  {
  }

  lemma LastValue(gs: seq<Group>)
    requires IsParamList(gs)
    ensures var g := gs[|gs| - 1];
            ListValues(gs)
            == ListValues(gs)[..|gs| - 1] + [GroupValues(g)[..|g| - 1] + [Saturated(DecValue(g[|g| - 1]))]]
  {
    hide DecValue, Saturated;
    var g := gs[|gs| - 1];
    assert GroupValues(g)[..|g| - 1] + [Saturated(DecValue(g[|g| - 1]))] == GroupValues(g);
    assert ListValues(gs) == ListValues(gs)[..|gs| - 1] + [GroupValues(g)];
  }

  // ---- Round trip ----

  function Decimal(n: nat): (ds: seq<Byte>)
    ensures forall i :: 0 <= i < |ds| ==> IsDigit(ds[i])
  {
    (if n < 10 then [] else Decimal(n / 10)) + [0x30 + n % 10]
  }

  lemma {:induction false} DecimalValue(n: nat)
    ensures DecValue(Decimal(n)) == n
  {
    if n < 10 {
    } else {
      hide DecValue;
      DecimalValue(n / 10);
      DecValueAppend(Decimal(n / 10), 0x30 + n % 10);
    }
  }

  function Printed(vss: seq<seq<U16>>): (gs: seq<Group>) {
    seq(|vss|, i requires 0 <= i < |vss| => seq(|vss[i]|, j requires 0 <= j < |vss[i]| => Decimal(vss[i][j])))
  }

  lemma PrintedValues(vss: seq<seq<U16>>)
    requires vss != [] && forall g :: g in vss ==> g != []
    ensures IsParamList(Printed(vss)) && ListValues(Printed(vss)) == vss
  {
    var gs := Printed(vss);
    forall i | 0 <= i < |vss| ensures IsGroup(gs[i]) && GroupValues(gs[i]) == vss[i] {
      assert vss[i] in vss;
      forall j | 0 <= j < |vss[i]| ensures GroupValues(gs[i])[j] == vss[i][j] { DecimalValue(vss[i][j]); }
    }
  }

  /** Up to the limits, the values that were printed are the values that are dispatched. */
  lemma CsiRoundTrip(bulk: bool, v: Vt, log: seq<Event>,
                     c1: bool, marker: seq<Byte>, vss: seq<seq<U16>>, inters: seq<Byte>, final: Byte)
    requires Fresh(v) && IsMarker(marker) && IsIntermediates(inters) && 0x40 <= final <= 0x7E
    requires vss != [] && (forall g :: g in vss ==> g != [])
    requires Values(vss) <= MAX_PARAMS && |marker + inters| <= MAX_INTERMEDIATES
    ensures IsParamList(Printed(vss))
    ensures Run(bulk, Conf(v, log), CsiText(c1, marker, Printed(vss), inters, final)).log
            == log + [CsiDispatch(vss, marker + inters, false, final)]
  {
    hide Run, Take, Values, Printed, ListValues;
    PrintedValues(vss);
    CsiCharacterisation(bulk, v, log, c1, marker, Printed(vss), inters, final);
    TakeAll(vss, MAX_PARAMS);
    assert Limited(marker + inters) == marker + inters;
  }
}
