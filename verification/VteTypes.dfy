/** The vocabulary of the VTE byte parser: bytes, limits, parser states and the
    callbacks a `Perform` implementation receives, recorded as events. */
module VteTypes {

  type Byte = b: int | 0 <= b < 0x100
  type U16 = n: int | 0 <= n < 0x1_0000
  /** A Unicode scalar value. */
  type Scalar = c: int | 0 <= c < 0xD800 || 0xE000 <= c < 0x11_0000

  const MAX_INTERMEDIATES: nat := 2
  const MAX_OSC_PARAMS: nat := 16
  const MAX_OSC_RAW: nat := 64 * 1024 * 1024
  const MAX_PARAMS: nat := 32

  const CAN: Byte := 0x18
  const SUB: Byte := 0x1A
  const ESC: Byte := 0x1B
  const ST: Byte := 0x9C
  const REPLACEMENT: Scalar := 0xFFFD

  datatype State =
    | CsiEntry | CsiIgnore | CsiIntermediate | CsiParam
    | DcsEntry | DcsEscape | DcsIgnore | DcsIntermediate | DcsParam | DcsPassthrough
    | Escape | EscapeIntermediate
    | OscString | SosPmApcString | ApcString
    | Ground

  /** One callback. A bulk APC callback is recorded as one `ApcPut` a byte. */
  datatype Event =
    | Print(c: Scalar)
    | Execute(b: Byte)
    | Hook(groups: seq<seq<U16>>, intermediates: seq<Byte>, ignore: bool, action: Byte)
    | Put(b: Byte)
    | Unhook
    | NotifyDcsAbort
    | OscDispatch(fields: seq<seq<Byte>>, bell: bool)
    | CsiDispatch(groups: seq<seq<U16>>, intermediates: seq<Byte>, ignore: bool, action: Byte)
    | EscDispatch(intermediates: seq<Byte>, ignore: bool, b: Byte)
    | ApcStart
    | ApcPut(b: Byte)
    | ApcEnd

  /** The C0 controls that do not cancel or start a sequence. */
  predicate IsC0(b: Byte) {
    b <= 0x17 || b == 0x19 || 0x1C <= b <= 0x1F
  }

  function SatMul10(n: U16): U16 {
    if n * 10 <= 0xFFFF then n * 10 else 0xFFFF
  }

  function SatAdd(n: U16, d: Byte): U16 {
    if n + d <= 0xFFFF then n + d else 0xFFFF
  }

  function Min(a: nat, b: nat): nat {
    if a <= b then a else b
  }

  /** `memchr`, with the length standing for "not found". */
  function Memchr(b: Byte, bs: seq<Byte>): (i: nat)
    ensures i <= |bs| && b !in bs[..i]
    ensures i < |bs| ==> bs[i] == b
  {
    if bs == [] || bs[0] == b then 0 else
      var i := Memchr(b, bs[1..]);
      assert bs[..i + 1] == [bs[0]] + bs[1..][..i];
      i + 1
  }

  function Concat<T>(xss: seq<seq<T>>): seq<T> {
    if xss == [] then [] else xss[0] + Concat(xss[1..])
  }

  lemma {:induction false} ConcatAppend<T>(xss: seq<seq<T>>, yss: seq<seq<T>>)
    ensures Concat(xss + yss) == Concat(xss) + Concat(yss)
  {
    if xss == [] {
      assert xss + yss == yss;
    } else {
      assert (xss + yss)[1..] == xss[1..] + yss;
      ConcatAppend(xss[1..], yss);
    }
  }
}
