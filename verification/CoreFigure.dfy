/** AEZ-core as Fig. 3 of AEZ v5 draws it: equations between the 16-byte blocks of the input and the output
    (crates/aez/src/aez_core.rs). */
module CoreFigure {
  import opened Blocks
  import opened Buffers
  import opened Formulas
  import opened Tbc
  import opened Directions
  import AezCore

  /** The values inside the figure: W_i, X_i, Y_i and Z_i, counting from 0, and S_x and S_y. */
  datatype Inside = Inside(w: seq<Block>, x: seq<Block>, y: seq<Block>, z: seq<Block>, sX: Block, sY: Block)

  /** Block k of a string. */
  function B(text: seq<byte>, at: nat): Block
    requires at + 16 <= |text|
  {
    FromBytes(text[at..at + 16])
  }

  // Pass 1: W = M + E^{1,i}(M'), X = M' + E^{0,0}(W).
  ghost predicate PassOne(keys: Subkeys, m: seq<byte>, w: seq<Block>, x: seq<Block>) {
    && |m| >= 32 && |w| == |x| == (|m| - 32) / 32
    && forall i | 0 <= i < |w| ::
         && w[i] == Xor(B(m, 32 * i), E(keys, 1, i + 1, B(m, 32 * i + 16)))
         && x[i] == Xor(B(m, 32 * i + 16), E(keys, 0, 0, w[i]))
  }

  // Pass 2: S'_i = E^{2,i}(S), Y = W + S'_i, Z = X + S'_i, C' = Y + E^{0,0}(Z), C = Z + E^{1,i}(C').
  ghost predicate PassTwo(keys: Subkeys, s: Block, t: Inside, c: seq<byte>) {
    && |c| >= 32 && |t.w| == |t.x| == |t.y| == |t.z| == (|c| - 32) / 32
    && forall i | 0 <= i < |t.w| ::
         && t.y[i] == Xor(t.w[i], E(keys, 2, i + 1, s))
         && t.z[i] == Xor(t.x[i], E(keys, 2, i + 1, s))
         && B(c, 32 * i + 16) == Xor(t.y[i], E(keys, 0, 0, t.z[i]))
         && B(c, 32 * i) == Xor(t.z[i], E(keys, 1, i + 1, B(c, 32 * i + 16)))
  }

  /** M_uv: what is left of a string between its pairs and its last two blocks. */
  function Residue(text: seq<byte>): (residue: seq<byte>)
    requires |text| >= 32
    ensures |residue| < 32
  {
    text[(|text| - 32) / 32 * 32..|text| - 32]
  }

  /** The digest of M_uv: nothing, E^{0,4}(M_u10*), or E^{0,4}(M_u) + E^{0,5}(M_v10*). */
  function Rho(keys: Subkeys, residue: seq<byte>): Block
    requires |residue| < 32
  {
    if |residue| == 0 then 0
    else if |residue| < 16 then E(keys, 0, 4, TenStar(residue))
    else Xor(E(keys, 0, 4, FromBytes(residue[..16])), E(keys, 0, 5, TenStar(residue[16..])))
  }

  /** Byte p of E^{-1,4}(S) E^{-1,5}(S). */
  function MaskByte(keys: Subkeys, s: Block, p: nat): byte
    requires p < 32
  {
    if p < 16 then ToBytes(EMinusOne(keys, 4, s))[p] else ToBytes(EMinusOne(keys, 5, s))[p - 16]
  }

  // C_uv = M_uv + E^{-1,4}(S) E^{-1,5}(S), as far as M_uv goes.
  ghost predicate Masked(keys: Subkeys, s: Block, m: seq<byte>, c: seq<byte>) {
    && |m| == |c| < 32
    && forall p | 0 <= p < |m| :: c[p] == m[p] ^ MaskByte(keys, s, p)
  }

  // The middle, with columns 1 and 2 for enciphering and 2 and 1 for deciphering:
  // S_x = M_x + Delta + X + E^{0,1+d}(M_y), S_y = M_y + E^{-1,1+d}(S_x),
  // C_y = S_x + E^{-1,2-d}(S_y), C_x = S_y + Delta + Y + E^{0,2-d}(C_y).
  ghost predicate MiddleStep(keys: Subkeys, delta: Block, direction: Direction, m: seq<byte>, c: seq<byte>, t: Inside) {
    && |m| == |c| >= 32
    && var n := |m|;
       var mX, mY, cX, cY := B(m, n - 32), B(m, n - 16), B(c, n - 32), B(c, n - 16);
       var sumX, sumY := Xor(XorAll(t.x), Rho(keys, Residue(m))), Xor(XorAll(t.y), Rho(keys, Residue(c)));
       var d := if direction == Encipher then 0 else 1;
       && t.sX == Xor(Xor(Xor(mX, delta), sumX), E(keys, 0, 1 + d, mY))
       && t.sY == Xor(mY, EMinusOne(keys, 1 + d, t.sX))
       && cY == Xor(t.sX, EMinusOne(keys, 2 - d, t.sY))
       && cX == Xor(Xor(Xor(t.sY, delta), sumY), E(keys, 0, 2 - d, cY))
  }

  // All of Fig. 3 between the string m and the string c.
  ghost predicate Figure(keys: Subkeys, delta: Block, direction: Direction, m: seq<byte>, c: seq<byte>, t: Inside) {
    && |m| == |c| >= 32
    && PassOne(keys, m, t.w, t.x)
    && PassTwo(keys, Xor(t.sX, t.sY), t, c)
    && Masked(keys, Xor(t.sX, t.sY), Residue(m), Residue(c))
    && MiddleStep(keys, delta, direction, m, c, t)
  }

  // -------------------------------------------------------------------------
  // The parts of the figure and of the scheme on layouts
  // -------------------------------------------------------------------------

  // `layout` is the layout of `text`.
  ghost predicate LaysOut(text: seq<byte>, layout: AezCore.Layout) {
    && |text| >= 32
    && |layout.pairs| == (|text| - 32) / 32
    && (forall i | 0 <= i < |layout.pairs| :: layout.pairs[i] == AezCore.Pair(B(text, 32 * i), B(text, 32 * i + 16)))
    && layout.residue == Residue(text)
    && layout.x == B(text, |text| - 32) && layout.y == B(text, |text| - 16)
  }

  lemma SplitLaysOut(text: seq<byte>)
    requires |text| >= 32
    ensures LaysOut(text, AezCore.Split(text))
  {
    hide FromBytes;
  }

  ghost predicate Zips(pairs: seq<AezCore.Pair>, left: seq<Block>, right: seq<Block>) {
    && |pairs| == |left| == |right|
    && forall i | 0 <= i < |pairs| :: pairs[i] == AezCore.Pair(left[i], right[i])
  }

  lemma {:induction false} SumRightIs(pairs: seq<AezCore.Pair>, left: seq<Block>, right: seq<Block>)
    requires Zips(pairs, left, right)
    ensures AezCore.SumRight(pairs) == XorAll(right) && AezCore.SumLeft(pairs) == XorAll(left)
  {
    hide Xor;
    if pairs != [] {
      var n := |pairs| - 1;
      SumRightIs(pairs[..n], left[..n], right[..n]);
      assert left == left[..n] + [left[n]] && right == right[..n] + [right[n]];
      XorAllSnoc(left[..n], left[n]);
      XorAllSnoc(right[..n], right[n]);
    }
  }

  lemma PassOneIs(keys: Subkeys, text: seq<byte>, m: AezCore.Layout, w: seq<Block>, x: seq<Block>)
    requires LaysOut(text, m)
    ensures PassOne(keys, text, w, x) <==> Zips(AezCore.MixAll(keys, m.pairs), w, x)
  {
    hide Xor, E, B;
    var mixed := AezCore.MixAll(keys, m.pairs);
    forall i | 0 <= i < |mixed|
      ensures mixed[i].left == Xor(B(text, 32 * i), E(keys, 1, i + 1, B(text, 32 * i + 16)))
      ensures mixed[i].right == Xor(B(text, 32 * i + 16), E(keys, 0, 0, mixed[i].left))
    {
    }
  }

  lemma PassTwoIs(keys: Subkeys, s: Block, t: Inside, text: seq<byte>, c: AezCore.Layout, mixed: seq<AezCore.Pair>)
    requires LaysOut(text, c) && Zips(mixed, t.w, t.x)
    ensures PassTwo(keys, s, t, text)
       <==> Zips(AezCore.SpreadAll(keys, s, mixed), t.y, t.z)
            && c.pairs == AezCore.FinishAll(keys, AezCore.SpreadAll(keys, s, mixed))
  {
    hide Xor, E, B;
    var spread := AezCore.SpreadAll(keys, s, mixed);
    var finished := AezCore.FinishAll(keys, spread);
    forall i | 0 <= i < |mixed|
      ensures spread[i].left == Xor(t.w[i], E(keys, 2, i + 1, s))
      ensures spread[i].right == Xor(t.x[i], E(keys, 2, i + 1, s))
      ensures finished[i].right == Xor(spread[i].left, E(keys, 0, 0, spread[i].right))
      ensures finished[i].left == Xor(spread[i].right, E(keys, 1, i + 1, finished[i].right))
    {
    }
  }

  lemma RhoIs(keys: Subkeys, residue: seq<byte>)
    requires |residue| < 32
    ensures AezCore.ResidueDigest(keys, residue) == Rho(keys, residue)
  {
    hide Xor, E, FromBytes, Padded, TenStar;
    if 0 < |residue| < 16 {
      PaddedIsTenStar(residue);
    } else if |residue| >= 16 {
      PaddedIsTenStar(residue[16..]);
    }
  }

  lemma XorIntoAt(x: Block, target: seq<byte>, p: nat)
    requires p < |target| <= 16
    ensures XorInto(x, target)[p] == target[p] ^ ToBytes(x)[p]
  {
    hide ToBytes;
  }

  lemma MaskAt(keys: Subkeys, s: Block, m: seq<byte>, p: nat)
    requires p < |m| < 32
    ensures AezCore.ResidueMask(keys, s, m)[p] == m[p] ^ MaskByte(keys, s, p)
  {
    hide EMinusOne, ToBytes, XorInto;
    var u, v := EMinusOne(keys, 4, s), EMinusOne(keys, 5, s);
    if |m| < 16 {
      XorIntoAt(u, m, p);
    } else if p < 16 {
      XorIntoAt(u, m[..16], p);
    } else {
      XorIntoAt(v, m[16..], p - 16);
    }
  }

  lemma MaskedIs(keys: Subkeys, s: Block, m: seq<byte>, c: seq<byte>)
    requires |m| < 32
    ensures Masked(keys, s, m, c) <==> c == AezCore.ResidueMask(keys, s, m)
  {
    hide MaskByte, AezCore.ResidueMask;
    var masked := AezCore.ResidueMask(keys, s, m);
    forall p | 0 <= p < |m|
      ensures masked[p] == m[p] ^ MaskByte(keys, s, p)
    {
      MaskAt(keys, s, m, p);
    }
    if Masked(keys, s, m, c) {
      assert c == masked;
    }
  }

  lemma MiddleIs(keys: Subkeys, delta: Block, direction: Direction, m: seq<byte>, c: seq<byte>, t: Inside,
                 lm: AezCore.Layout, lc: AezCore.Layout)
    requires |m| == |c| && LaysOut(m, lm) && LaysOut(c, lc)
    requires XorAll(t.x) == AezCore.SumRight(AezCore.MixAll(keys, lm.pairs))
    ensures MiddleStep(keys, delta, direction, m, c, t) <==>
              && t.sX == AezCore.SX(keys, delta, direction, lm) && t.sY == AezCore.SY(keys, direction, t.sX, lm.y)
              && lc.y == Xor(t.sX, EMinusOne(keys, direction.OuterColumn(), t.sY))
              && lc.x == AezCore.Whiten(keys, delta, Xor(XorAll(t.y), AezCore.ResidueDigest(keys, lc.residue)),
                                        direction.OuterColumn(), t.sY, lc.y)
  {
    hide Xor, E, EMinusOne, B, XorAll, Rho, Residue, AezCore.ResidueDigest, AezCore.MixAll, AezCore.SumRight;
    LastBlocks(m, lm);
    LastBlocks(c, lc);
    hide LaysOut;
    RhoIs(keys, lm.residue);
    RhoIs(keys, lc.residue);
  }

  lemma LastBlocks(text: seq<byte>, layout: AezCore.Layout)
    requires LaysOut(text, layout)
    ensures |text| >= 32 && layout.residue == Residue(text)
    ensures layout.x == B(text, |text| - 32) && layout.y == B(text, |text| - 16)
  {}

  // -------------------------------------------------------------------------
  // AEZ-core is the figure
  // -------------------------------------------------------------------------

  // The values inside the figure, from those of the scheme on layouts.
  function InsideOf(mixed: seq<AezCore.Pair>, spread: seq<AezCore.Pair>, sX: Block, sY: Block): Inside {
    Inside(Lefts(mixed), Rights(mixed), Lefts(spread), Rights(spread), sX, sY)
  }

  function Lefts(pairs: seq<AezCore.Pair>): seq<Block> {
    seq(|pairs|, k requires 0 <= k < |pairs| => pairs[k].left)
  }

  function Rights(pairs: seq<AezCore.Pair>): seq<Block> {
    seq(|pairs|, k requires 0 <= k < |pairs| => pairs[k].right)
  }

  // The values inside the figure are those of the scheme on layouts, and lead to the layout of the output.
  ghost predicate Parts(keys: Subkeys, delta: Block, direction: Direction, lm: AezCore.Layout, lc: AezCore.Layout,
                        t: Inside) {
    var mixed := AezCore.MixAll(keys, lm.pairs);
    var s := Xor(t.sX, t.sY);
    var spread := AezCore.SpreadAll(keys, s, mixed);
    && t.sX == AezCore.SX(keys, delta, direction, lm) && t.sY == AezCore.SY(keys, direction, t.sX, lm.y)
    && Zips(mixed, t.w, t.x) && Zips(spread, t.y, t.z)
    && lc == AezCore.Finish(keys, delta, direction, mixed, AezCore.ResidueMask(keys, s, lm.residue), t.sX, t.sY)
  }

  lemma FigureIsParts(keys: Subkeys, delta: Block, direction: Direction, m: seq<byte>, c: seq<byte>,
                      lm: AezCore.Layout, lc: AezCore.Layout, t: Inside)
    requires |m| == |c| && LaysOut(m, lm) && LaysOut(c, lc)
    ensures Figure(keys, delta, direction, m, c, t) <==> Parts(keys, delta, direction, lm, lc, t)
  {
    hide Xor, LaysOut, MiddleStep, PassOne, PassTwo, Masked, AezCore.SX, AezCore.SY, AezCore.Whiten, AezCore.ResidueDigest,
         AezCore.MixAll, AezCore.SpreadAll, AezCore.FinishAll, AezCore.ResidueMask, EMinusOne, Zips;
    var mixed := AezCore.MixAll(keys, lm.pairs);
    var s := Xor(t.sX, t.sY);
    var spread := AezCore.SpreadAll(keys, s, mixed);
    LastBlocks(m, lm);
    LastBlocks(c, lc);
    PassOneIs(keys, m, lm, t.w, t.x);
    if Zips(mixed, t.w, t.x) {
      SumRightIs(mixed, t.w, t.x);
      PassTwoIs(keys, s, t, c, lc, mixed);
      if Zips(spread, t.y, t.z) {
        SumRightIs(spread, t.y, t.z);
        MaskedIs(keys, s, Residue(m), Residue(c));
        MiddleIs(keys, delta, direction, m, c, t, lm, lc);
      }
    }
  }

  lemma PartsLead(keys: Subkeys, delta: Block, direction: Direction, lm: AezCore.Layout, lc: AezCore.Layout)
    ensures (exists t :: Parts(keys, delta, direction, lm, lc, t))
       <==> lc == AezCore.ApplyLayout(keys, delta, direction, lm)
  {
    hide Xor, AezCore.SX, AezCore.SY, AezCore.Finish, AezCore.MixAll, AezCore.SpreadAll, AezCore.ResidueMask, Zips, Lefts,
         Rights;
    var mixed := AezCore.MixAll(keys, lm.pairs);
    var sX := AezCore.SX(keys, delta, direction, lm);
    var sY := AezCore.SY(keys, direction, sX, lm.y);
    var spread := AezCore.SpreadAll(keys, Xor(sX, sY), mixed);
    ZipsItself(mixed);
    ZipsItself(spread);
    if lc == AezCore.ApplyLayout(keys, delta, direction, lm) {
      assert Parts(keys, delta, direction, lm, lc, InsideOf(mixed, spread, sX, sY));
    }
  }

  lemma FigureOfLayout(keys: Subkeys, delta: Block, direction: Direction, m: seq<byte>, c: seq<byte>,
                       lm: AezCore.Layout, lc: AezCore.Layout)
    requires |m| == |c| && LaysOut(m, lm) && LaysOut(c, lc)
    ensures (exists t :: Figure(keys, delta, direction, m, c, t))
       <==> lc == AezCore.ApplyLayout(keys, delta, direction, lm)
  {
    hide Figure, Parts, LaysOut, AezCore.ApplyLayout;
    forall t
      ensures Figure(keys, delta, direction, m, c, t) <==> Parts(keys, delta, direction, lm, lc, t)
    {
      FigureIsParts(keys, delta, direction, m, c, lm, lc, t);
    }
    PartsLead(keys, delta, direction, lm, lc);
  }

  lemma ZipsItself(pairs: seq<AezCore.Pair>)
    ensures Zips(pairs, Lefts(pairs), Rights(pairs))
  {}

  // The output of AEZ-core is what the figure gives, for every length from 32 on, and nothing else is.
  lemma CoreIsFigure(keys: Subkeys, delta: Block, direction: Direction, m: seq<byte>, c: seq<byte>)
    requires |m| >= 32
    ensures AezCore.CoreBytes(keys, delta, direction, m) == c
       <==> |c| == |m| && exists t :: Figure(keys, delta, direction, m, c, t)
  {
    hide Figure, AezCore.Split, AezCore.Join, LaysOut, AezCore.ApplyLayout;
    SplitLaysOut(m);
    var lm := AezCore.Split(m);
    var result := AezCore.ApplyLayout(keys, delta, direction, lm);
    AezCore.SplitOfJoin(result);
    if |c| == |m| {
      SplitLaysOut(c);
      AezCore.JoinOfSplit(c);
      FigureOfLayout(keys, delta, direction, m, c, lm, AezCore.Split(c));
    }
  }
}
