/** Splitting the input into chunks does not matter, except at the two splits
    inside a character that `VteGround` names. */
module VteChunks {
  import opened VteTypes
  import opened Utf8
  import opened VteMachine
  import opened VteGround

  predicate BadSplit(partial: seq<Byte>, bytes: seq<Byte>) {
    LosesByte(partial, bytes) || PrintsC1(partial, bytes)
  }

  /** One call of `advance` a chunk. */
  function AdvanceAll(c: Conf, chunks: seq<seq<Byte>>): Conf
    decreases |chunks|
  {
    if chunks == [] then c else AdvanceAll(Advance(true, c, chunks[0]), chunks[1..])
  }

  lemma {:induction false} AdvanceAllConcat(c: Conf, a: seq<seq<Byte>>, b: seq<seq<Byte>>)
    ensures AdvanceAll(c, a + b) == AdvanceAll(AdvanceAll(c, a), b)
    decreases |a|
  {
    hide Advance;
    if a == [] {
      assert a + b == b;
    } else {
      assert (a + b)[1..] == a[1..] + b;
      AdvanceAllConcat(Advance(true, c, a[0]), a[1..], b);
    }
  }

  /** No chunk boundary is a bad split. */
  predicate SafeSplits(c: Conf, chunks: seq<seq<Byte>>)
    decreases |chunks|
  {
    chunks == [] || (!BadSplit(c.vt.partial, chunks[0]) && SafeSplits(Run(true, c, chunks[0]), chunks[1..]))
  }

  lemma {:induction false} ChunkedIsWhole(c: Conf, chunks: seq<seq<Byte>>)
    requires SafeSplits(c, chunks)
    ensures AdvanceAll(c, chunks) == Run(true, c, Concat(chunks))
    decreases |chunks|
  {
    if chunks != [] {
      RunConcat(true, c, chunks[0], Concat(chunks[1..]));
      ChunkedIsWhole(Run(true, c, chunks[0]), chunks[1..]);
    } else {
      RunNil(true, c);
    }
  }

  /** Any two safe splits of the same bytes, one call included, end alike. */
  lemma ChunkingIrrelevant(c: Conf, a: seq<seq<Byte>>, b: seq<seq<Byte>>)
    requires Concat(a) == Concat(b) && SafeSplits(c, a) && SafeSplits(c, b)
    ensures AdvanceAll(c, a) == AdvanceAll(c, b)
  {
    ChunkedIsWhole(c, a);
    ChunkedIsWhole(c, b);
  }

  // ---- The condition is exact ----

  /** After the completed two-byte character, the run goes on with the rest. */
  lemma SplitRun(bulk: bool, c: Conf, bytes: seq<Byte>)
    requires Pending(c.vt) && BadSplit(c.vt.partial, bytes)
    ensures var p := c.vt.partial + bytes[..1];
            && Complete(p)
            && Run(bulk, c, bytes)
               == Run(bulk, Conf(c.vt.(partial := []), c.log + [GroundChar(CodePoint(p))]), bytes[1..])
  {
    assert Complete(c.vt.partial + bytes[..1]);
  }

  lemma PrintedC1Differs(bulk: bool, c: Conf, bytes: seq<Byte>)
    requires Pending(c.vt) && PrintsC1(c.vt.partial, bytes)
    ensures Advance(bulk, c, bytes) != Run(bulk, c, bytes)
  {
    hide Run;
    SplitRun(bulk, c, bytes);
    var v, cp := c.vt.(partial := []), CodePoint(c.vt.partial + bytes[..1]);
    var skipped := if LosesByte(c.vt.partial, bytes) then bytes[2..] else bytes[1..];
    assert GroundChar(cp) == Execute(cp);
    RunLog(bulk, v, c.log + [Execute(cp)], bytes[1..]);
    RunLog(bulk, v, c.log + [Print(cp)], skipped);
    assert Run(bulk, c, bytes).log[|c.log|] == Execute(cp);
    assert Advance(bulk, c, bytes).log[|c.log|] == Print(cp);
  }

  /** With a lost character the call is one callback short. */
  lemma LostCharDiffers(bulk: bool, c: Conf, bytes: seq<Byte>)
    requires Pending(c.vt) && LosesByte(c.vt.partial, bytes) && bytes[1] != ESC
    requires !PrintsC1(c.vt.partial, bytes)
    ensures |Run(bulk, c, bytes).log| == |Advance(bulk, c, bytes).log| + 1
  {
    hide Run, GroundByte;
    SplitRun(bulk, c, bytes);
    var v := c.vt.(partial := []);
    var log := c.log + [Print(CodePoint(c.vt.partial + bytes[..1]))];
    assert bytes[1..] == [bytes[1]] + bytes[2..];
    RunConcat(bulk, Conf(v, log), [bytes[1]], bytes[2..]);
    assert Complete([bytes[1]]);
    RunChar(bulk, v, log, [bytes[1]]);
    RunLog(bulk, v, log + [GroundChar(bytes[1])], bytes[2..]);
    RunLog(bulk, v, log, bytes[2..]);
  }

  /** With a lost ESC the two calls are in different states after the next byte. */
  lemma LostEscapeDiffers(bulk: bool, c: Conf, bytes: seq<Byte>)
    requires Pending(c.vt) && LosesByte(c.vt.partial, bytes) && bytes[1] == ESC && |bytes| == 3
    requires !PrintsC1(c.vt.partial, bytes)
    ensures Run(bulk, c, bytes).vt.state == Escape != Advance(bulk, c, bytes).vt.state
  {
    hide Run, GroundByte;
    SplitRun(bulk, c, bytes);
    var v := c.vt.(partial := []);
    var d := Conf(v, c.log + [Print(CodePoint(c.vt.partial + bytes[..1]))]);
    assert bytes[2..] == [bytes[2]] && bytes[1..] == [ESC, bytes[2]] && [ESC, bytes[2]][1..] == [bytes[2]];
    RunUncons(bulk, d, [ESC, bytes[2]]);
    RunOne(bulk, d, bytes[2]);
    RunOne(bulk, Next(bulk, d, ESC), bytes[2]);
    FreshSteps(bulk, v, bytes[2]);
  }

  lemma FreshSteps(bulk: bool, v: Vt, b: Byte)
    requires Fresh(v) && b >= 0x80
    ensures Step(bulk, v, ESC).vt.state.Escape? && !Step(bulk, v, b).vt.state.Escape?
    ensures Step(bulk, Step(bulk, v, ESC).vt, b).vt.state.Escape?
  {
  }

  /** A call agrees with the run at every length of its chunk exactly when the chunk
      does not make a bad split. */
  lemma AdvanceFaithfulIff(bulk: bool, c: Conf, bytes: seq<Byte>)
    requires Pending(c.vt) || c.vt.partial == []
    ensures (forall k :: 0 <= k <= |bytes| ==> Advance(bulk, c, bytes[..k]) == Run(bulk, c, bytes[..k]))
            <==> !BadSplit(c.vt.partial, bytes)
  {
    hide Run;
    var p := c.vt.partial;
    if BadSplit(p, bytes) {
      var k := if PrintsC1(p, bytes) then 1 else 3;
      var head := bytes[..k];
      if PrintsC1(p, bytes) {
        PrintedC1Differs(bulk, c, head);
      } else if bytes[1] != ESC {
        LostCharDiffers(bulk, c, head);
      } else {
        LostEscapeDiffers(bulk, c, head);
      }
      assert Advance(bulk, c, bytes[..k]) != Run(bulk, c, bytes[..k]);
    } else {
      assert forall k :: 0 <= k <= |bytes| ==> !BadSplit(p, bytes[..k]);
    }
  }

  // ---- The condition is exact for lists of chunks ----

  /** Between characters, or in Ground within one. */
  predicate AtBoundary(v: Vt) {
    v.partial == [] || Pending(v)
  }

  lemma StepAtBoundary(bulk: bool, v: Vt, b: Byte)
    requires AtBoundary(v)
    ensures AtBoundary(Step(bulk, v, b).vt)
  {
    if v.state.Ground? {
    } else {
      hide CodePoint, TablePrefix, GroundChar;
      StepKeepsPartial(bulk, v, b);
    }
  }

  lemma {:induction false} RunAtBoundary(bulk: bool, c: Conf, bs: seq<Byte>)
    requires AtBoundary(c.vt)
    ensures AtBoundary(Run(bulk, c, bs).vt)
    decreases |bs|
  {
    hide Step, AtBoundary;
    if bs != [] {
      StepAtBoundary(bulk, c.vt, bs[0]);
      RunAtBoundary(bulk, Next(bulk, c, bs[0]), bs[1..]);
    }
  }

  /** The first `n` chunks, and `k` bytes of the next one. */
  function Prefix(chunks: seq<seq<Byte>>, n: nat, k: nat): seq<seq<Byte>>
    requires n < |chunks| && k <= |chunks[n]|
  {
    chunks[..n] + [chunks[n][..k]]
  }

  /** The calls on such a prefix end like one run over its bytes. */
  predicate FaithfulAt(c: Conf, chunks: seq<seq<Byte>>, n: nat, k: nat)
    requires n < |chunks| && k <= |chunks[n]|
  {
    AdvanceAll(c, Prefix(chunks, n, k)) == Run(true, c, Concat(Prefix(chunks, n, k)))
  }

  ghost predicate FaithfulThroughout(c: Conf, chunks: seq<seq<Byte>>) {
    forall n, k :: 0 <= n < |chunks| && 0 <= k <= |chunks[n]| ==> FaithfulAt(c, chunks, n, k)
  }

  lemma FaithfulFirst(c: Conf, chunks: seq<seq<Byte>>, k: nat)
    requires chunks != [] && k <= |chunks[0]|
    ensures FaithfulAt(c, chunks, 0, k) <==> Advance(true, c, chunks[0][..k]) == Run(true, c, chunks[0][..k])
  {
    hide Advance, Run;
    var bs := chunks[0][..k];
    var none: seq<seq<Byte>> := [];
    assert Prefix(chunks, 0, k) == [bs] && [bs][1..] == none;
    assert Concat([bs]) == bs + Concat(none) == bs;
    assert AdvanceAll(c, [bs]) == AdvanceAll(Advance(true, c, bs), none) == Advance(true, c, bs);
  }

  lemma FaithfulLater(c: Conf, chunks: seq<seq<Byte>>, n: nat, k: nat)
    requires n + 1 < |chunks| && k <= |chunks[n + 1]| && Advance(true, c, chunks[0]) == Run(true, c, chunks[0])
    ensures FaithfulAt(c, chunks, n + 1, k) <==> FaithfulAt(Run(true, c, chunks[0]), chunks[1..], n, k)
  {
    hide Advance, Run;
    var rest := Prefix(chunks[1..], n, k);
    assert Prefix(chunks, n + 1, k) == [chunks[0]] + rest && ([chunks[0]] + rest)[1..] == rest;
    RunConcat(true, c, chunks[0], Concat(rest));
  }

  /** For any list of chunks: every call agrees with the run, at every length of its chunk,
      exactly when no boundary is a bad split. */
  lemma {:induction false} ChunksFaithfulIff(c: Conf, chunks: seq<seq<Byte>>)
    requires AtBoundary(c.vt)
    ensures FaithfulThroughout(c, chunks) <==> SafeSplits(c, chunks)
    decreases |chunks|
  {
    hide Advance, Run, FaithfulAt, BadSplit;
    if chunks != [] {
      var first, rest := chunks[0], chunks[1..];
      var d := Run(true, c, first);
      forall k | 0 <= k <= |first|
        ensures FaithfulAt(c, chunks, 0, k) <==> Advance(true, c, first[..k]) == Run(true, c, first[..k])
      {
        FaithfulFirst(c, chunks, k);
      }
      AdvanceFaithfulIff(true, c, first);
      if !BadSplit(c.vt.partial, first) {
        assert first[..|first|] == first;
        RunAtBoundary(true, c, first);
        ChunksFaithfulIff(d, rest);
        LaterThroughout(c, chunks);
      }
    }
  }

  lemma LaterThroughout(c: Conf, chunks: seq<seq<Byte>>)
    requires chunks != [] && forall k :: 0 <= k <= |chunks[0]| ==> FaithfulAt(c, chunks, 0, k)
    requires Advance(true, c, chunks[0]) == Run(true, c, chunks[0])
    ensures FaithfulThroughout(c, chunks) <==> FaithfulThroughout(Run(true, c, chunks[0]), chunks[1..])
  {
    hide FaithfulAt, Run, Advance;
    var d, rest := Run(true, c, chunks[0]), chunks[1..];
    if FaithfulThroughout(d, rest) {
      forall n, k | 0 <= n < |chunks| && 0 <= k <= |chunks[n]| ensures FaithfulAt(c, chunks, n, k) {
        if n > 0 {
          assert rest[n - 1] == chunks[n];
          FaithfulLater(c, chunks, n - 1, k);
          assert FaithfulAt(d, rest, n - 1, k);
        }
      }
    }
    if FaithfulThroughout(c, chunks) {
      forall n, k | 0 <= n < |rest| && 0 <= k <= |rest[n]| ensures FaithfulAt(d, rest, n, k) {
        FaithfulLater(c, chunks, n, k);
      }
    }
  }
}
