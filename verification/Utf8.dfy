/** UTF-8 as `str::from_utf8` documents it: the byte-sequence table of the Unicode
    Standard (section 3.9, Table 3-7), with `valid_up_to` and `error_len`. */
module Utf8 {
  import opened VteTypes

  /** Length of the well-formed sequences that begin with `lead`; 0 if there are none. */
  function SeqLen(lead: Byte): nat {
    if lead < 0x80 then 1
    else if 0xC2 <= lead <= 0xDF then 2
    else if 0xE0 <= lead <= 0xEF then 3
    else if 0xF0 <= lead <= 0xF4 then 4
    else 0
  }

  predicate SecondOk(lead: Byte, b: Byte) {
    && (if lead == 0xE0 then 0xA0 else if lead == 0xF0 then 0x90 else 0x80) <= b
    && b <= (if lead == 0xED then 0x9F else if lead == 0xF4 then 0x8F else 0xBF)
  }

  predicate Continuation(b: Byte) {
    0x80 <= b <= 0xBF
  }

  /** `p` begins some row of the table. */
  predicate TablePrefix(p: seq<Byte>) {
    && 0 < |p| <= SeqLen(p[0])
    && (|p| >= 2 ==> SecondOk(p[0], p[1]))
    && (|p| >= 3 ==> Continuation(p[2]))
    && (|p| >= 4 ==> Continuation(p[3]))
  }

  predicate Complete(p: seq<Byte>) {
    TablePrefix(p) && |p| == SeqLen(p[0])
  }

  /** A character that needs more bytes. */
  predicate Partial(p: seq<Byte>) {
    TablePrefix(p) && |p| < SeqLen(p[0])
  }

  function CodePoint(p: seq<Byte>): Scalar
    requires Complete(p)
  {
    var b0: int := p[0];
    if |p| == 1 then b0
    else
      var b1: int := p[1] - 0x80;
      if |p| == 2 then (b0 - 0xC0) * 0x40 + b1
      else
        var b2: int := p[2] - 0x80;
        if |p| == 3 then ((b0 - 0xE0) * 0x40 + b1) * 0x40 + b2
        else
          var b3: int := p[3] - 0x80;
          (((b0 - 0xF0) * 0x40 + b1) * 0x40 + b2) * 0x40 + b3
  }

  datatype First = Char(c: Scalar, len: nat) | Bad(len: nat) | Short

  /** What a decoder sees at the head of `bs`: a character, an ill-formed run and
      its length, or a character cut off by the end of the input. */
  function DecodeFirst(bs: seq<Byte>): (r: First)
    requires bs != []
    ensures r.Char? ==> 0 < r.len <= |bs| && Complete(bs[..r.len]) && r.c == CodePoint(bs[..r.len])
    ensures r.Bad? ==> 0 < r.len <= |bs|
    ensures r.Short? <==> Partial(bs)
  {
    var n := SeqLen(bs[0]);
    if n == 0 then Bad(1)
    else if n <= |bs| && Complete(bs[..n]) then Char(CodePoint(bs[..n]), n)
    else if Partial(bs) then Short
    else if !SecondOk(bs[0], bs[1]) then Bad(1)
    else if !Continuation(bs[2]) then Bad(2)
    else Bad(3)
  }

  datatype Stop = AllValid | Invalid(errorLen: nat) | Truncated

  /** The outcome of `str::from_utf8`: the decoded valid prefix, its length in bytes
      (`valid_up_to`), and why it ends there (`error_len`). */
  datatype Decoded = Decoded(chars: seq<Scalar>, validUpTo: nat, stop: Stop)

  function FromUtf8(bs: seq<Byte>): (r: Decoded)
    ensures r.validUpTo <= |bs|
    ensures r.stop.AllValid? <==> r.validUpTo == |bs|
    ensures r.chars == [] <==> r.validUpTo == 0
  {
    hide DecodeFirst, Partial, Complete, CodePoint;
    if bs == [] then Decoded([], 0, AllValid)
    else match DecodeFirst(bs)
      case Bad(n) => Decoded([], 0, Invalid(n))
      case Short => Decoded([], 0, Truncated)
      case Char(c, n) =>
        var r := FromUtf8(bs[n..]);
        Decoded([c] + r.chars, n + r.validUpTo, r.stop)
  }

  lemma FromUtf8Step(bs: seq<Byte>)
    requires bs != []
    ensures var f := DecodeFirst(bs);
            && (f.Bad? ==> FromUtf8(bs) == Decoded([], 0, Invalid(f.len)))
            && (f.Short? ==> FromUtf8(bs) == Decoded([], 0, Truncated))
            && (f.Char? ==>
                  var r := FromUtf8(bs[f.len..]);
                  FromUtf8(bs) == Decoded([f.c] + r.chars, f.len + r.validUpTo, r.stop))
  {
    hide DecodeFirst, Partial, Complete, CodePoint;
  }

  /** Why the valid prefix ends where it does. */
  lemma {:induction false} FromUtf8Stops(bs: seq<Byte>)
    ensures var r := FromUtf8(bs);
            && (r.stop.Invalid? ==> DecodeFirst(bs[r.validUpTo..]) == Bad(r.stop.errorLen))
            && (r.stop.Truncated? ==> Partial(bs[r.validUpTo..]))
  {
    hide FromUtf8, DecodeFirst, Partial, Complete, CodePoint;
    var r := FromUtf8(bs);
    if bs != [] {
      FromUtf8Step(bs);
      assert bs[0..] == bs;
      if DecodeFirst(bs).Char? {
        var n := DecodeFirst(bs).len;
        FromUtf8Stops(bs[n..]);
        assert bs[n..][r.validUpTo - n..] == bs[r.validUpTo..];
      }
    }
  }

  // ---- The table is the set of prefixes of encodings ----

  /** The encoding of section 3 of RFC 3629. */
  function Encode(c: Scalar): (p: seq<Byte>)
    ensures |p| > 0
  {
    if c < 0x80 then [c]
    else if c < 0x800 then [0xC0 + c / 0x40, 0x80 + c % 0x40]
    else if c < 0x1_0000 then [0xE0 + c / 0x40 / 0x40, 0x80 + c / 0x40 % 0x40, 0x80 + c % 0x40]
    else [0xF0 + c / 0x40 / 0x40 / 0x40, 0x80 + c / 0x40 / 0x40 % 0x40, 0x80 + c / 0x40 % 0x40, 0x80 + c % 0x40]
  }

  function EncodeAll(cs: seq<Scalar>): seq<Byte> {
    if cs == [] then [] else Encode(cs[0]) + EncodeAll(cs[1..])
  }

  lemma EncodeIsComplete(c: Scalar)
    ensures Complete(Encode(c)) && CodePoint(Encode(c)) == c
  {
    var q: int := c / 0x40;
    var r: int := q / 0x40;
    var t: int := r / 0x40;
    assert c == q * 0x40 + c % 0x40 && q == r * 0x40 + q % 0x40 && r == t * 0x40 + r % 0x40;
  }

  lemma DivModStep(a: nat, b: nat)
    requires b < 0x40
    ensures (a * 0x40 + b) / 0x40 == a && (a * 0x40 + b) % 0x40 == b
  {
  }

  lemma CompleteIsEncoded(p: seq<Byte>)
    requires Complete(p)
    ensures Encode(CodePoint(p)) == p
  {
    if |p| <= 3 {
      ShortIsEncoded(p);
    } else {
      LongIsEncoded(p);
    }
  }

  lemma ShortIsEncoded(p: seq<Byte>)
    requires Complete(p) && |p| <= 3
    ensures Encode(CodePoint(p)) == p
  {
    var b0: int := p[0];
    if |p| == 2 {
      DivModStep(b0 - 0xC0, p[1] - 0x80);
    } else if |p| == 3 {
      var m: int := (b0 - 0xE0) * 0x40 + (p[1] - 0x80);
      DivModStep(b0 - 0xE0, p[1] - 0x80);
      DivModStep(m, p[2] - 0x80);
    }
  }

  lemma LongIsEncoded(p: seq<Byte>)
    requires Complete(p) && |p| == 4
    ensures Encode(CodePoint(p)) == p
  {
    var b0: int := p[0];
    var m: int := (b0 - 0xF0) * 0x40 + (p[1] - 0x80);
    var n: int := m * 0x40 + (p[2] - 0x80);
    DivModStep(b0 - 0xF0, p[1] - 0x80);
    DivModStep(m, p[2] - 0x80);
    DivModStep(n, p[3] - 0x80);
  }
}
