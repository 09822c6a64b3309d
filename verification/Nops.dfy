/**
 * Padding with multi-byte NOPs: exactly the number of bytes asked for, in the smallest
 * possible number of instructions.
 */
module Nops {
  import opened Basics
  import opened X86
  import opened ModRM
  import opened Encoder

  type size = k: nat | 1 <= k <= 9 witness 1

  /** The recommended NOP of each length. */
  function Nop(k: size): (s: seq<byte>)
    ensures |s| == k
  {
    match k
    case 1 => [0x90]
    case 2 => [0x66, 0x90]
    case 3 => [0x0F, 0x1F, 0x00]
    case 4 => [0x0F, 0x1F, 0x40, 0x00]
    case 5 => [0x0F, 0x1F, 0x44, 0x00, 0x00]
    case 6 => [0x66, 0x0F, 0x1F, 0x44, 0x00, 0x00]
    case 7 => [0x0F, 0x1F, 0x80, 0x00, 0x00, 0x00, 0x00]
    case 8 => [0x0F, 0x1F, 0x84, 0x00, 0x00, 0x00, 0x00, 0x00]
    case _ => [0x66, 0x0F, 0x1F, 0x84, 0x00, 0x00, 0x00, 0x00, 0x00]
  }

  /**
   * The length of the NOP instruction at a position, if there is one: after an operand-size prefix or none,
   * the one-byte 90, or 0F 1F /0 with any operand in the r/m position.
   */
  function NopLength(code: Code, at: nat): Option<nat> {
    var prefix := if At(code, at) == 0x66 then 1 else 0;
    var start := at + prefix;
    if At(code, start) == 0x90 then Some(prefix + 1)
    else if At(code, start) == 0x0F && At(code, start + 1) == 0x1F && MidField(At(code, start + 2)) == 0 then
      Some(prefix + 2 + RmLength(code, start + 2))
    else None
  }

  /** Each entry of the table is one NOP instruction of that length. */
  lemma NopIsOne(code: Code, at: nat, k: size)
    requires Holds(code, at, Nop(k))
    ensures NopLength(code, at) == Some(k)
  {
    hide Holds, At;
    forall i | 0 <= i < k ensures At(code, at + i) == Nop(k)[i] {
      HoldsAt(code, at, Nop(k), i);
    }
    assert At(code, at + 0) == Nop(k)[0];
    if k > 1 { assert At(code, at + 1) == Nop(k)[1]; }
    if k > 2 { assert At(code, at + 2) == Nop(k)[2]; }
    if k > 3 { assert At(code, at + 3) == Nop(k)[3]; }
    if k > 4 { assert At(code, at + 4) == Nop(k)[4]; }
  }

  /** Exactly n NOP instructions lie one after another from one position to another. */
  ghost predicate Slide(code: Code, at: nat, end: nat, n: nat)
    decreases n
  {
    if n == 0 then at == end
    else NopLength(code, at).Some? && Slide(code, at + NopLength(code, at).value, end, n - 1)
  }

  lemma {:induction false} SlideOn(code: Code, at: nat, mid: nat, n: nat)
    requires Slide(code, at, mid, n) && NopLength(code, mid).Some?
    ensures Slide(code, at, mid + NopLength(code, mid).value, n + 1)
    decreases n
  {
    hide NopLength;
    if n == 0 {
      assert Slide(code, mid + NopLength(code, mid).value, mid + NopLength(code, mid).value, 0);
    } else {
      SlideOn(code, at + NopLength(code, at).value, mid, n - 1);
    }
  }

  /** The bytes of a sequence of NOPs given by their lengths. */
  function Bytes(pieces: seq<size>): seq<byte> {
    if pieces == [] then [] else Bytes(pieces[..|pieces| - 1]) + Nop(pieces[|pieces| - 1])
  }

  function Total(pieces: seq<size>): nat {
    if pieces == [] then 0 else Total(pieces[..|pieces| - 1]) + pieces[|pieces| - 1]
  }

  lemma {:induction false} BytesTotal(pieces: seq<size>)
    ensures |Bytes(pieces)| == Total(pieces)
  {
    if pieces != [] {
      BytesTotal(pieces[..|pieces| - 1]);
    }
  }

  lemma Append(pieces: seq<size>, k: size)
    ensures Bytes(pieces + [k]) == Bytes(pieces) + Nop(k) && Total(pieces + [k]) == Total(pieces) + k
  {
    assert (pieces + [k])[..|pieces|] == pieces;
  }

  /** The bytes of the pieces are that many NOP instructions, and nothing else. */
  lemma {:induction false} PiecesSlide(code: Code, at: nat, pieces: seq<size>)
    requires Holds(code, at, Bytes(pieces))
    ensures Slide(code, at, at + Total(pieces), |pieces|)
  {
    hide Holds, NopLength, Nop;
    BytesTotal(pieces);
    if pieces != [] {
      var rest, k := pieces[..|pieces| - 1], pieces[|pieces| - 1];
      BytesTotal(rest);
      HoldsSplit(code, at, Bytes(rest), Nop(k));
      PiecesSlide(code, at, rest);
      NopIsOne(code, at + Total(rest), k);
      SlideOn(code, at, at + Total(rest), |rest|);
    }
  }

  /** The least number of NOPs that n bytes can be split into. */
  function Fewest(n: nat): nat { (n + 8) / 9 }

  /** No split into NOPs of up to nine bytes has fewer pieces. */
  lemma {:induction false} FewestIsLeast(pieces: seq<size>)
    ensures |pieces| >= Fewest(Total(pieces))
  {
    if pieces != [] {
      FewestIsLeast(pieces[..|pieces| - 1]);
    }
  }

  /** Writes one NOP. */
  method PutNop(buf: array<byte>, stream: nat, k: size)
    requires stream + k <= buf.Length
    modifies buf
    ensures buf[..] == Overlay(old(buf[..]), stream, Nop(k))
  {
    hide Nop, Overlay;
    var nopBytes := Nop(k);
    OverlayNone(buf[..], stream);
    for i := 0 to k
      invariant buf[..] == Overlay(old(buf[..]), stream, nopBytes[..i])
    {
      OverlayPush(old(buf[..]), stream, nopBytes[..i], nopBytes[i]);
      buf[stream + i] := nopBytes[i];
      assert nopBytes[..i + 1] == nopBytes[..i] + [nopBytes[i]];
    }
    assert nopBytes[..k] == nopBytes;
  }

  /** The state of the padding before the pass over NOPs of length k. */
  ghost predicate Pass(total: nat, left: nat, pieces: seq<size>, k: nat) {
    && left <= total && Total(pieces) == total - left
    && if k == 9 then 9 * |pieces| == total - left
       else (left == 0 && |pieces| == Fewest(total)) || (0 < left <= k && left == total % 9 && |pieces| == total / 9)
  }

  lemma PassPut(total: nat, left: nat, pieces: seq<size>, k: size)
    requires Pass(total, left, pieces, k) && left >= k
    ensures Pass(total, left - k, pieces + [k], k)
  {
    Append(pieces, k);
    if k < 9 {
      assert total == 9 * (total / 9) + total % 9;
    }
  }

  /** No NOP of length k fits any more. */
  lemma PassDown(total: nat, left: nat, pieces: seq<size>, k: size)
    requires Pass(total, left, pieces, k) && left < k
    ensures Pass(total, left, pieces, k - 1)
  {
    if k == 9 {
      var q := |pieces|;
      assert total == 9 * q + left;
      assert total / 9 == q && total % 9 == left;
    }
  }

  lemma PassStart(total: nat)
    ensures Pass(total, total, [], 9)
  {
  }

  lemma PassEnd(total: nat, left: nat, pieces: seq<size>)
    requires Pass(total, left, pieces, 0)
    ensures left == 0 && |pieces| == Fewest(total) && Total(pieces) == total
  {
  }

  /** EncoderBase::nops: fills exactly howMany bytes with the fewest possible NOPs. */
  method FillNops(buf: array<byte>, stream: nat, howMany: nat) returns (next: nat, ghost pieces: seq<size>)
    requires stream + howMany <= buf.Length
    modifies buf
    ensures next == stream + howMany == stream + Total(pieces)
    ensures |pieces| == Fewest(howMany)
    ensures |Bytes(pieces)| == howMany && buf[..] == Overlay(old(buf[..]), stream, Bytes(pieces))
    ensures Slide(buf[..], stream, next, Fewest(howMany))
  {
    hide Nop, Overlay, Pass, Total, Bytes, Fewest, Slide;
    PassStart(howMany);
    BytesTotal([]);
    var left, nopSize := howMany, 9;
    next, pieces := stream, [];
    ghost var code := buf[..];
    OverlayNone(code, stream);
    while nopSize != 0
      invariant 0 <= nopSize <= 9 && next == stream + howMany - left && Pass(howMany, left, pieces, nopSize)
      invariant |Bytes(pieces)| == howMany - left && buf[..] == Overlay(code, stream, Bytes(pieces))
    {
      while left >= nopSize
        invariant next == stream + howMany - left && Pass(howMany, left, pieces, nopSize)
        invariant |Bytes(pieces)| == howMany - left && buf[..] == Overlay(code, stream, Bytes(pieces))
      {
        PutNop(buf, next, nopSize);
        Append(pieces, nopSize);
        PassPut(howMany, left, pieces, nopSize);
        OverlayTwice(code, stream, Bytes(pieces), Nop(nopSize));
        pieces := pieces + [nopSize];
        next, left := next + nopSize, left - nopSize;
      }
      PassDown(howMany, left, pieces, nopSize);
      nopSize := nopSize - 1;
    }
    PassEnd(howMany, left, pieces);
    OverlayHolds(code, stream, Bytes(pieces));
    PiecesSlide(buf[..], stream, pieces);
  }
}
