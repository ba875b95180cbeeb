/** Text in Ground: the byte-sequence table against RFC 3629, and the decoding of
    well-formed and ill-formed text. */
module VteText {
  import opened VteTypes
  import opened Utf8
  import opened VteMachine
  import opened VteGround

  // ---- The table is the set of prefixes of encodings ----

  ghost predicate BeginsEncoding(p: seq<Byte>) {
    exists c :: p <= Encode(c)
  }

  /** The shortest way to complete a table prefix. */
  function Fill(p: seq<Byte>): (q: seq<Byte>)
    requires TablePrefix(p)
    ensures p <= q && Complete(q)
    decreases SeqLen(p[0]) - |p|
  {
    if |p| == SeqLen(p[0]) then p
    else if |p| == 1 then Fill(p + [if p[0] == 0xE0 then 0xA0 else if p[0] == 0xF0 then 0x90 else 0x80])
    else Fill(p + [0x80])
  }

  lemma TableIsPrefixesOfEncodings(p: seq<Byte>)
    requires p != []
    ensures TablePrefix(p) <==> BeginsEncoding(p)
  {
    if TablePrefix(p) {
      CompleteIsEncoded(Fill(p));
      assert p <= Encode(CodePoint(Fill(p)));
    }
    if BeginsEncoding(p) {
      var c :| p <= Encode(c);
      EncodeIsComplete(c);
    }
  }

  lemma EncodeUnique(c: Scalar, d: Scalar, bs: seq<Byte>)
    requires Encode(c) <= bs && Encode(d) <= bs
    ensures c == d
  {
    EncodeIsComplete(c);
    EncodeIsComplete(d);
    assert Encode(c)[0] == bs[0] == Encode(d)[0];
    assert Encode(c) == Encode(d);
  }

  /** No two strings have the same encoding. */
  lemma {:induction false} EncodeAllInjective(cs: seq<Scalar>, ds: seq<Scalar>)
    requires EncodeAll(cs) == EncodeAll(ds)
    ensures cs == ds
  {
    hide Encode;
    if cs != [] && ds != [] {
      var bs := EncodeAll(cs);
      assert Encode(cs[0]) <= bs && Encode(ds[0]) <= bs;
      EncodeUnique(cs[0], ds[0], bs);
      assert bs[|Encode(cs[0])|..] == EncodeAll(cs[1..]) == EncodeAll(ds[1..]);
      EncodeAllInjective(cs[1..], ds[1..]);
      assert cs == [cs[0]] + cs[1..] && ds == [ds[0]] + ds[1..];
    }
  }

  /** The decoder finds the encoded character at the head of the text; or reports that the
      text is the start of one; or reports the maximal ill-formed subpart: the longest
      head that begins an encoding, or one byte (section 3.9 of the Unicode Standard). */
  lemma DecodeFirstMeaning(bs: seq<Byte>)
    requires bs != []
    ensures match DecodeFirst(bs)
            case Char(c, n) => Encode(c) <= bs && n == |Encode(c)|
            case Short => BeginsEncoding(bs) && forall c :: !(Encode(c) <= bs)
            case Bad(n) =>
              && (forall c :: !(Encode(c) <= bs)) && !BeginsEncoding(bs)
              && 0 < n <= |bs| && (n == 1 || BeginsEncoding(bs[..n]))
              && (forall k :: n < k <= |bs| ==> !BeginsEncoding(bs[..k]))
  {
    match DecodeFirst(bs)
    case Char(c, n) =>
      CompleteIsEncoded(bs[..n]);
    case Short =>
      TableIsPrefixesOfEncodings(bs);
      forall c ensures !(Encode(c) <= bs) { EncodeIsComplete(c); }
    case Bad(n) =>
      forall c ensures !(Encode(c) <= bs) { EncodeIsComplete(c); }
      TableIsPrefixesOfEncodings(bs);
      TableIsPrefixesOfEncodings(bs[..n]);
      forall k | n < k <= |bs| ensures !BeginsEncoding(bs[..k]) { TableIsPrefixesOfEncodings(bs[..k]); }
  }

  // ---- Decoding in Ground ----

  /** The callbacks of the first character or ill-formed subpart of a text; a lone
      0x80..0x9F byte is a control. */
  function HeadEvents(bs: seq<Byte>): seq<Event>
    requires bs != []
  {
    match DecodeFirst(bs)
    case Char(c, _) => [GroundChar(c)]
    case Bad(n) =>
      if n == 1 && 0x80 <= bs[0] <= 0x9F then (if bs[0] == ST then [] else [Execute(bs[0])])
      else [Print(REPLACEMENT)]
    case Short => []
  }

  function HeadLen(bs: seq<Byte>): (n: nat)
    requires bs != []
  {
    match DecodeFirst(bs)
    case Char(_, n) => n
    case Bad(n) => n
    case Short => |bs|
  }

  function TextEvents(bs: seq<Byte>): seq<Event>
    decreases |bs|
  {
    if bs == [] then [] else HeadEvents(bs) + TextEvents(bs[HeadLen(bs)..])
  }

  /** The cut-off character at the end of a text. */
  function TextTail(bs: seq<Byte>): seq<Byte>
    decreases |bs|
  {
    if bs == [] then []
    else if DecodeFirst(bs).Short? then bs
    else TextTail(bs[HeadLen(bs)..])
  }

  /** Nothing in the text leaves Ground: no ESC, and no lone C1 byte that introduces
      a sequence or a string. */
  predicate PlainText(bs: seq<Byte>)
    decreases |bs|
  {
    bs == [] || (bs[0] !in {ESC, 0x90, 0x98, 0x9B, 0x9D, 0x9E, 0x9F} && PlainText(bs[HeadLen(bs)..]))
  }

  lemma HeadDecodes(bulk: bool, v: Vt, log: seq<Event>, bs: seq<Byte>)
    requires Fresh(v) && PlainText(bs) && bs != [] && !DecodeFirst(bs).Short?
    ensures Run(bulk, Conf(v, log), bs) == Run(bulk, Conf(v, log + HeadEvents(bs)), bs[HeadLen(bs)..])
  {
    hide Run;
    var n := HeadLen(bs);
    if DecodeFirst(bs).Char? {
      assert bs == bs[..n] + bs[n..];
      RunConcat(bulk, Conf(v, log), bs[..n], bs[n..]);
      RunChar(bulk, v, log, bs[..n]);
    } else {
      RunBad(bulk, v, log, bs);
    }
  }

  lemma {:induction false} GroundDecodes(bulk: bool, v: Vt, log: seq<Event>, bs: seq<Byte>)
    requires Fresh(v) && PlainText(bs)
    ensures Run(bulk, Conf(v, log), bs) == Conf(v.(partial := TextTail(bs)), log + TextEvents(bs))
    decreases |bs|
  {
    hide Run, DecodeFirst, HeadEvents, TablePrefix;
    if bs == [] {
      RunNil(bulk, Conf(v, log));
      assert log + [] == log;
    } else if DecodeFirst(bs).Short? {
      CutHead(bs);
      RunIntoPartial(bulk, v, log, bs);
      assert log + [] == log;
    } else {
      var n := HeadLen(bs);
      HeadDecodes(bulk, v, log, bs);
      GroundDecodes(bulk, v, log + HeadEvents(bs), bs[n..]);
      assert log + HeadEvents(bs) + TextEvents(bs[n..]) == log + (HeadEvents(bs) + TextEvents(bs[n..]));
    }
  }

  lemma CutHead(bs: seq<Byte>)
    requires bs != [] && DecodeFirst(bs).Short?
    ensures HeadEvents(bs) == [] && TextEvents(bs) == []
  {
  }

  /** Encode-then-parse: every string without ESC comes back, one callback a character. */
  lemma {:induction false} EncodedTextRoundTrip(bulk: bool, v: Vt, log: seq<Event>, cs: seq<Scalar>)
    requires Fresh(v) && ESC !in cs
    ensures Run(bulk, Conf(v, log), EncodeAll(cs)) == Conf(v, log + GroundChars(cs))
    decreases |cs|
  {
    hide Run;
    if cs == [] {
      RunNil(bulk, Conf(v, log));
      assert log + GroundChars([]) == log;
    } else {
      assert cs[0] in cs;
      RunConcat(bulk, Conf(v, log), Encode(cs[0]), EncodeAll(cs[1..]));
      EncodeIsComplete(cs[0]);
      RunChar(bulk, v, log, Encode(cs[0]));
      EncodedTextRoundTrip(bulk, v, log + [GroundChar(cs[0])], cs[1..]);
      assert log + [GroundChar(cs[0])] + GroundChars(cs[1..]) == log + GroundChars(cs);
    }
  }

  /** Every character of the string makes one callback, in order: the controls U+0000..U+001F and
      U+0080..U+009F are executed, and all others are printed. */
  lemma TextIsReported(bulk: bool, v: Vt, log: seq<Event>, cs: seq<Scalar>)
    requires Fresh(v) && ESC !in cs
    ensures var d := Run(bulk, Conf(v, log), EncodeAll(cs));
            && d.vt == v && |d.log| == |log| + |cs| && log <= d.log
            && forall i :: 0 <= i < |cs| ==>
                 d.log[|log| + i]
                 == if cs[i] <= 0x1F || 0x80 <= cs[i] <= 0x9F then Execute(cs[i]) else Print(cs[i])
  {
    hide Run, EncodeAll;
    EncodedTextRoundTrip(bulk, v, log, cs);
  }

  predicate Printable(c: Scalar) {
    c >= 0x20 && !(0x80 <= c <= 0x9F)
  }

  lemma PrintableTextPrints(bulk: bool, v: Vt, cs: seq<Scalar>)
    requires Fresh(v) && forall c :: c in cs ==> Printable(c)
    ensures var d := Run(bulk, Conf(v, []), EncodeAll(cs));
            && d.vt == v && |d.log| == |cs|
            && forall i :: 0 <= i < |cs| ==> d.log[i] == Print(cs[i])
  {
    hide Run;
    EncodedTextRoundTrip(bulk, v, [], cs);
    assert [] + GroundChars(cs) == GroundChars(cs);
    assert forall i :: 0 <= i < |cs| ==> cs[i] in cs;
  }
}
