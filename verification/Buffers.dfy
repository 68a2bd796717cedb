/** Blocks at byte positions of a buffer, read and written in place. */
module Buffers {
  import opened Blocks

  /** The block encoded at bytes at .. at + 16. */
  function BlockAt(bytes: seq<byte>, at: nat): Block
    requires at + BLOCK_BYTES <= |bytes|
  {
    FromBytes(bytes[at..at + BLOCK_BYTES])
  }

  /** `bytes` with `patch` written at `at`. */
  function Splice(bytes: seq<byte>, at: nat, patch: seq<byte>): (result: seq<byte>)
    requires at + |patch| <= |bytes|
    ensures |result| == |bytes|
  {
    bytes[..at] + patch + bytes[at + |patch|..]
  }

  lemma SpliceTwice(bytes: seq<byte>, at: nat, first: seq<byte>, second: seq<byte>)
    requires at + |first| + |second| <= |bytes|
    ensures Splice(Splice(bytes, at, first), at + |first|, second) == Splice(bytes, at, first + second)
  {}

  lemma SpliceMiddle(front: seq<byte>, middle: seq<byte>, back: seq<byte>, patch: seq<byte>)
    requires |patch| == |middle|
    ensures Splice(front + middle + back, |front|, patch) == front + patch + back
  {}

  lemma MiddleOf(front: seq<byte>, middle: seq<byte>, back: seq<byte>)
    ensures (front + middle + back)[|front|..|front| + |middle|] == middle
    ensures (front + middle + back)[|front|..] == middle + back
  {}

  method WriteBytes(text: array<byte>, at: nat, patch: seq<byte>)
    requires at + |patch| <= text.Length
    modifies text
    ensures text[..] == Splice(old(text[..]), at, patch)
  {
    ghost var before := text[..];
    forall k | 0 <= k < |patch| {
      text[at + k] := patch[k];
    }
    assert text[..] == Splice(before, at, patch);
  }

  /** Xors `x` into the slice from .. to, at most 16 bytes of it. */
  method XorSlice(text: array<byte>, from: nat, to: nat, x: Block)
    requires from <= to <= text.Length
    modifies text
    ensures text[..] == Splice(old(text[..]), from, XorInto(x, old(text[..])[from..to]))
  {
    hide ToBytes;
    ghost var before := text[..];
    ghost var goal := Splice(before, from, XorInto(x, before[from..to]));
    var source := ToBytes(x);
    var k := 0;
    while k < |source| && k < to - from
      invariant 0 <= k <= |source| && k <= to - from
      invariant forall p | 0 <= p < from + k :: text[p] == goal[p]
      invariant forall p | from + k <= p < text.Length :: text[p] == before[p]
    {
      text[from + k] := text[from + k] ^ source[k];
      k := k + 1;
    }
    assert forall p | from + k <= p < text.Length :: before[p] == goal[p];
    assert text[..] == goal;
  }
}
