# A verified model of the Rings WebView gateway and its AEZ cipher

This project models, in Dafny, the parts of the repository whose correctness is hard to see from the code, and
proves what they are for. Verify it with `dafny verify dfyconfig.toml`.

**AEZ v5** (`crates/aez`). The wide-block cipher and authenticated encryption of section 3 of AEZ v5, complete:
GF(2^128), the tweakable blockcipher with its streamed offsets, AEZ-core, AEZ-tiny, AEZ-hash, AEZ-prf, `encrypt`
and `decrypt`. The AES round is an arbitrary function from two blocks to a block, a field of `Subkeys`, so every
law holds for all round functions. Each in-place operation is a method over a byte array, proved equal to a function
on byte strings; the laws are proved about the functions. Blocks are 128-bit vectors and bytes 8-bit vectors.

| file | content |
|---|---|
| `Blocks.dfy`, `Padding.dfy`, `Index.dfy` | block encoding, masks, 10* padding, integer strings |
| `Field.dfy` | doubling, powers of two, the scalar action |
| `Tbc.dfy` | subkeys, E^{j,i}, closed-form and streamed offsets |
| `Direction.dfy`, `Buffers.dfy` | the two directions; blocks at byte positions of a buffer |
| `AezCore.dfy` | the scheme for 32 bytes and more |
| `Nibbles.dfy`, `AezTiny.dfy` | half-strings that end inside a byte; the scheme for 1 to 31 bytes |
| `AezHash.dfy`, `Cipher.dfy`, `Aez.dfy` | tweak digest, dispatch by length, authenticated encryption |
| `Formulas.dfy`, `CoreFigure.dfy`, `TinyFigure.dfy`, `HashFormula.dfy`, `AezFigure.dfy` | the figures and formulas of AEZ v5 as equations on blocks, nibbles and bytes, and that the scheme computes exactly them |

**The front end** (`frontend`).

| file | content |
|---|---|
| `Limiter.dfy` | the first-in-first-out permit limiter: all runs of its events, and the object that takes the steps |
| `Chord.dfy` | identifiers modulo 2^160, the node list, the inferred finger links |
| `Decimal.dfy`, `RequestBody.dfy` | the bound on request bodies, declared and streamed |
| `Renderer.dfy` | the renderer lifecycle: the pure relation, its effect interpreter, the transfer of a document |
| `Splicing.dfy`, `SyntaxWalk.dfy`, `ClassicImports.dfy`, `Inlining.dfy`, `ImportMeta.dfy` | the worker-script transformer |

`Wrappers.dfy` holds the `Option` and `Result` datatypes, `Text.dfy` trimming and the comparison of numerals by digits.

Facts found in the code and stated exactly here:

- `offsets` is a 64-bit stream with a wrapping index, while `offset` takes a 32-bit column; the two agree at every
  position, also past the wrap, because 2^64 is a multiple of 8 (`Tbc.StreamIsClosedForm`).
- The `Truncated` reason of `decrypt` and the error of `encrypt` leave the buffer untouched, an inauthentic buffer
  becomes all zeros (`Aez.DecryptInPlace`).
- `materializeClassicImports` refuses by URL. It succeeds exactly when the dependency tree has a finite inlining and
  no dependency chain from the entry holds two different scripts of one URL (`ClassicImports.SucceedsIffUnfolds`). A
  response from the importer's own URL with another source is refused although its inlining is finite
  (`ClassicImports.SharedUrlRefused`).

## Model

| member | source | states |
|---|---|---|
| `Blocks.RoundTrip` | crates/aez/src/block.rs:49-57 | reading and writing the 16-byte encoding are inverse to each other, in both orders |
| `Blocks.ShiftIn` | crates/aez/src/block.rs:43-57 | the encoding is big-endian: shifting a byte in from the right drops the first byte and appends the new one |
| `Blocks.XorEncoding` | crates/aez/src/block.rs:153-160 | adding blocks is xoring their encodings byte by byte |
| `Blocks.XorIntoTwice` | crates/aez/src/block.rs:83-89 | xoring a block into a slice of any length twice restores the slice |
| `Nibbles.NibbleOfTruncated` | crates/aez/src/block.rs:117-122 | truncating to 4n bits keeps exactly the first n nibbles and clears the others |
| `Padding.PaddedBytes` | crates/aez/src/block.rs:75-81 | a string shorter than a block is followed by the byte 0x80 and zeros; of a longer one the first block is kept |
| `Padding.PaddedIsInjective` | crates/aez/src/block.rs:75-81 | distinct strings shorter than a block have distinct padded blocks |
| `Padding.NibbleOfPadded` | crates/aez/src/block.rs:124-137 | a half-string of n nibbles is followed by the nibble 1000 and zeros |
| `Padding.PadBitsIsInjective` | crates/aez/src/block.rs:124-128 | distinct half-strings have distinct padded blocks, also across lengths |
| `Index.IndexIsInjective` | crates/aez/src/block.rs:59-62 | distinct integers below 2^128 have distinct encodings |
| `Index.IndexBit` | crates/aez/src/block.rs:59-62 | bit k of the encoding, counted from the last, is bit k of the integer, for every k below 128 |
| `Buffers.XorSlice` | crates/aez/src/block.rs:83-89 | in place: the slice becomes its xor with the encoding, and the rest of the buffer is unchanged |
| `Buffers.WriteBytes` | crates/aez/src/aez_core.rs:162-163 | in place: the bytes at one position are overwritten, and the rest of the buffer is unchanged |
| `Field.DoubleIsLinear` | crates/aez/src/block.rs:13 | doubling distributes over xor |
| `Field.DoubleReduces` | crates/aez/src/block.rs:91-98 | doubling is a left shift, reduced by 0x87 exactly when the leading bit falls off |
| `Field.DoubleIsInjective` | crates/aez/src/block.rs:91-98 | doubling modulo x^128 + x^7 + x^2 + x + 1 is injective |
| `Field.PowerStep` | crates/aez/src/block.rs:112-115 | 2^(e+1).X is the double of 2^e.X, the doubling taken on the outside |
| `Field.PowerIsLinear` | crates/aez/src/block.rs:112-115 | multiplying by 2^e distributes over xor |
| `Field.PowerNonzero` | crates/aez/src/block.rs:112-115 | 2^e.X is zero only for X = 0, for every e |
| `Field.TimesIsSetBitSum` | crates/aez/src/block.rs:102-110 | the double-and-add fold is the xor of 2^b.X over the set bits b of k |
| `Field.TimesStep` | crates/aez/src/block.rs:9-11 | 0.X = 0, (2k).X = 2.(k.X), (2k+1).X = (2k).X + X |
| `Field.TimesIsLinear` | crates/aez/src/block.rs:13 | k.(X + Y) = k.X + k.Y |
| `Field.TimesIsLinearInTheScalar` | crates/aez/src/block.rs:9-11 | (k xor m).X = k.X + m.X |
| `Field.TimesCommutes` | crates/aez/src/block.rs:100-110 | k.(m.X) = m.(k.X) |
| `Field.TimesAgreesWithPower` | crates/aez/src/block.rs:100-115 | the two multiplications agree at powers of two, for every exponent |
| `Field.SmallMultipleNonzero` | crates/aez/src/tbc.rs:94-97 | for L other than zero, none of 1.L to 7.L is zero |
| `Field.SmallMultiplesDistinct` | crates/aez/src/tbc.rs:94-97 | for L other than zero the multiples 0.L to 7.L are pairwise distinct |
| `Tbc.KeyAccepted` | crates/aez/src/tbc.rs:48-76 | a key is accepted exactly when no third of it is zero, and split as I, J, L; a rejection names the first zero third |
| `Tbc.EIs` | crates/aez/src/tbc.rs:78-125 | E^{j,i}(X) is four rounds under J, I, L, 0 of X + j.J + 2^ceil(i/8).I + (i mod 8).L |
| `Tbc.EMinusOneIs` | crates/aez/src/tbc.rs:85-130 | E^{-1,i}(X) is ten rounds under I, J, L in cyclic order of X + i.L |
| `Tbc.StateInvariant` | crates/aez/src/tbc.rs:99-113 | the state of the stream at position i is (i mod 2^64, 2^ceil(i/8).I) |
| `Tbc.StreamIsClosedForm` | crates/aez/src/tbc.rs:94-115 | the k-th streamed offset is the closed form offset(j, k), for every row and every k from 1 on |
| `Tbc.PowerPartNonzero` | crates/aez/src/tbc.rs:48-97 | under an accepted key the power-of-two part of no offset is zero |
| `Tbc.OffsetsDistinctInGroup` | crates/aez/src/tbc.rs:48-97 | under an accepted key the eight offsets of a group 8g+1 .. 8g+8 of any row are pairwise distinct |
| `AezCore.MixOfFinish` | crates/aez/src/aez_core.rs:172-193 | pass 1 on one finished pair recovers (Z, Y) |
| `AezCore.FinishOfMix` | crates/aez/src/aez_core.rs:172-193 | finishing the exchanged halves of a mixed pair recovers the pair |
| `AezCore.MixAllOfFinish` | crates/aez/src/aez_core.rs:166-198 | pass 1 on the pairs that pass 2 produced recovers every (Z_i, Y_i), and its sum is the sum of the Y_i |
| `AezCore.PassesInvert` | crates/aez/src/aez_core.rs:166-198 | both passes on ciphertext pairs under the same S return the message pairs, and their sum Y is the sum X of the first run |
| `AezCore.MaskTwice` | crates/aez/src/aez_core.rs:120-133 | masking the residue is an involution for fixed S, in all three length cases |
| `AezCore.WhitenTwice` | crates/aez/src/aez_core.rs:152-160 | the mask of a last block by the tweak, the pair sum and the other last block cancels |
| `AezCore.MiddleIsExchanged` | crates/aez/src/aez_core.rs:152-160 | on the result, the run in the other direction computes the S_y of the first run as its S_x and the S_x as its S_y |
| `AezCore.ApplyInverts` | crates/aez/src/aez_core.rs:136-164 | on layouts, each direction undoes the other for every tweak digest and round function |
| `AezCore.SplitOfJoin` | crates/aez/src/aez_core.rs:69-85 | splitting a laid-out string returns its pairs, residue and last two blocks |
| `AezCore.JoinOfSplit` | crates/aez/src/aez_core.rs:69-85 | the layout of a string of at least 32 bytes loses nothing |
| `AezCore.CoreInverts` | crates/aez/src/aez_core.rs:136-164 | AEZ-core restores every byte, in both orders, for every length, tweak digest and round function |
| `AezCore.MixPairInPlace` | crates/aez/src/aez_core.rs:172-177 | pass 1 on one pair writes (W, X) over it by the E formulas and changes nothing else |
| `AezCore.FinishPairInPlace` | crates/aez/src/aez_core.rs:189-196 | pass 2 on one pair writes (C, C') over it by the E formulas and changes nothing else |
| `AezCore.FirstPass` | crates/aez/src/aez_core.rs:166-180 | with streamed offsets, every pair becomes what E^{1,i} and E^{0,0} give, the sum is that of the X_i, the rest of the buffer stays |
| `AezCore.SecondPass` | crates/aez/src/aez_core.rs:182-198 | with two streamed offsets, every pair becomes (C_i, C'_i), the sum is that of the Y_i, the rest of the buffer stays |
| `AezCore.MaskResidue` | crates/aez/src/aez_core.rs:120-133 | in place: the residue slice is masked and nothing else changes |
| `AezCore.MixInPlace` | crates/aez/src/aez_core.rs:149-157 | the buffer after pass 1 and the residue mask, with S_x and S_y computed from the original message |
| `AezCore.FinishInPlace` | crates/aez/src/aez_core.rs:158-163 | the buffer after pass 2 and the rewriting of the two last blocks |
| `AezCore.Apply` | crates/aez/src/aez_core.rs:136-164 | AEZ-core in place refines the function that `CoreInverts` is about; shorter buffers are unchanged |
| `CoreFigure.CoreIsFigure` | crates/aez/src/aez_core.rs:9-37 | a string is the output of AEZ-core exactly when values W_i, X_i, Y_i, Z_i, S_x, S_y satisfy all equations of Fig. 3 with the blocks of both strings, in each direction, for every length from 32 on |
| `Nibbles.NibbleOfSet` | crates/aez/src/aez_tiny.rs:122-135 | setting a nibble changes that nibble only, to the low nibble of the value |
| `Nibbles.NibblesOfByte` | crates/aez/src/aez_tiny.rs:122-144 | a byte is its nibble of even index followed by that of odd index; past the end nibbles are zero |
| `Nibbles.NibbleOfTaken` | crates/aez/src/aez_tiny.rs:146-158 | taken nibbles are left-aligned and followed by zeros |
| `Nibbles.NibbleOfPut` | crates/aez/src/aez_tiny.rs:160-165 | putting nibbles writes exactly the range start .. start + count |
| `Nibbles.TakeHasZeroTail` | crates/aez/src/aez_tiny.rs:146-158 | a taken half is zero beyond its nibbles |
| `Nibbles.TruncateHasZeroTail` | crates/aez/src/block.rs:117-122 | a block truncated to 4n bits is zero beyond its first n nibbles |
| `AezTiny.TakeOfPut` | crates/aez/src/aez_tiny.rs:146-165 | taking back two written halves is exact |
| `AezTiny.PutOfTake` | crates/aez/src/aez_tiny.rs:146-165 | writing two taken halves over any text of that length restores the text |
| `AezTiny.RoundOfSwap` | crates/aez/src/aez_tiny.rs:96-98 | a round after the half swap undoes the same round |
| `AezTiny.FoldOfSwap` | crates/aez/src/aez_tiny.rs:16-19 | the rounds with reversed indices undo the rounds after the half swap, for every list of indices |
| `AezTiny.FoldKeepsTails` | crates/aez/src/aez_tiny.rs:90-113 | both halves stay zero beyond their nibbles through all rounds |
| `AezTiny.RunInverts` | crates/aez/src/aez_tiny.rs:90-101 | a run with reversed indices undoes a run, odd lengths included |
| `AezTiny.CorrectTwice` | crates/aez/src/aez_tiny.rs:116-120 | the first-bit correction is an involution |
| `AezTiny.CorrectChangesFirstBit` | crates/aez/src/aez_tiny.rs:116-120 | the correction changes no bit but the first |
| `AezTiny.TinyInverts` | crates/aez/src/aez_tiny.rs:45-75 | AEZ-tiny restores every byte, in both orders, for every length from 1 to 31 |
| `AezTiny.Feistel.RunInPlace` | crates/aez/src/aez_tiny.rs:90-101 | the network in place refines the function that `RunInverts` is about |
| `AezTiny.SetNibbleInPlace` | crates/aez/src/aez_tiny.rs:129-135 | in place: the nibble is replaced; no change past the end |
| `AezTiny.TakeNibbles` | crates/aez/src/aez_tiny.rs:146-158 | the loop over a local array returns the half that `NibbleOfTaken` describes |
| `AezTiny.PutNibbles` | crates/aez/src/aez_tiny.rs:160-165 | the loop over the text writes what `NibbleOfPut` describes |
| `AezTiny.CorrectFirstBitInPlace` | crates/aez/src/aez_tiny.rs:116-120 | in place: the correction that `CorrectTwice` is about |
| `AezTiny.Apply` | crates/aez/src/aez_tiny.rs:45-75 | AEZ-tiny in place refines the function that `TinyInverts` is about |
| `TinyFigure.RoundIs` | crates/aez/src/aez_tiny.rs:96-113 | one round, nibble by nibble, is (R, L + the first n nibbles of E^{0,j}(Delta + R10* + [i])), for halves of n nibbles |
| `TinyFigure.FirstBitIs` | crates/aez/src/aez_tiny.rs:116-120 | the correction toggles the first bit by that of E^{0,3}(Delta + (C or 10*)) |
| `TinyFigure.TinyIsFigure` | crates/aez/src/aez_tiny.rs:3-19 | a string is the output of AEZ-tiny exactly when halves of 24, 16, 10 or 8 rounds satisfy the equations of Fig. 3 with the nibbles of both strings and the correction, in each direction, for every length from 1 to 31 |
| `AezHash.ComputeComponentDigest` | crates/aez/src/hash.rs:28-49 | with streamed offsets, the digest of a component is the xor of E^{j,l}(X_l) over its whole blocks, with E^{j,0} of the padded tail |
| `AezHash.ComputeHash` | crates/aez/src/hash.rs:15-26 | the tweak digest is the xor of the component digests, component i under row i + 2 |
| `HashFormula.ComponentIsH` | crates/aez/src/hash.rs:28-49 | H_j is the xor of E^{j,l}(X_l) over the whole blocks, with E^{j,0}(X10*) of the tail of a string that is empty or ends in a partial block |
| `HashFormula.HashIs` | crates/aez/src/hash.rs:15-26 | the digest is the xor of H_{i+2}(T_i) over the whole vector |
| `HashFormula.HashOfReplaced` | crates/aez/src/hash.rs:15-26 | replacing component i changes the digest by H_{i+2} of the old and of the new one |
| `HashFormula.HashOfAppended` | crates/aez/src/hash.rs:15-26 | the digest of no components is zero, and appending one xors in its H |
| `HashFormula.KeystreamIs` | crates/aez/src/hash.rs:51-66 | byte p is xored with byte p mod 16 of E^{-1,3}(Delta + [p / 16]) |
| `AezHash.XorPrfTwice` | crates/aez/src/hash.rs:51-66 | xoring the keystream is an involution on buffers of every length |
| `AezHash.XorPrfInPlace` | crates/aez/src/hash.rs:57-66 | the chunk loop xors byte p with byte p mod 16 of keystream block p / 16 |
| `Cipher.CipherInverts` | crates/aez/src/cipher.rs:1-10 | deciphering and enciphering undo each other, in both orders, on every length class |
| `Cipher.Apply` | crates/aez/src/cipher.rs:45-52 | the dispatch in place refines the function that `CipherInverts` is about |
| `Aez.TransformInverts` | crates/aez/src/lib.rs:147-165 | the shared body of encryption and decryption undoes itself on the keystream, tiny and core paths |
| `Aez.DecryptIsTidy` | crates/aez/src/lib.rs:80-132 | decryption returns M for C exactly when encryption of M, with any slot content, gives C |
| `Aez.DecryptInvertsEncrypt` | crates/aez/src/lib.rs:112 | decrypt(T, t, encrypt(T, t, M s)) = M for every tweak, expansion, message and slot content |
| `Aez.EncryptIsInjective` | crates/aez/src/lib.rs:80-108 | distinct messages have distinct ciphertexts under one key, tweak and expansion |
| `Aez.EncipherDecipher` | crates/aez/src/lib.rs:134-145 | decipher and encipher under one tweak are inverse to each other, in both orders |
| `Aez.NothingToAuthenticate` | crates/aez/src/lib.rs:134-145 | at expansion zero decryption never fails and is deciphering, and encryption is enciphering |
| `Aez.CarryUnwraps` | crates/aez/src/tests/laws.rs:152-175 | relays deciphering in path order undo the enciphering under each relay key, for every path |
| `Aez.OnionCarryComposes` | crates/aez/src/tests/laws.rs:152-175 | a value sealed for the consumer and enciphered once per relay reaches the consumer, who recovers it |
| `AezFigure.EncryptIs` | crates/aez/src/lib.rs:80-108 | the ciphertext of a message is exactly what the formulas give: the keystream for the empty message, otherwise the figures on the message and zeros, under the digest of the expansion in bits and the tweak |
| `AezFigure.FailuresAre` | crates/aez/src/lib.rs:89-131 | both operations refuse exactly the buffers shorter than the expansion, with its numbers; decryption is otherwise inauthentic exactly on what no message encrypts to |
| `Aez.TransformInPlace` | crates/aez/src/lib.rs:147-165 | in place: keystream when the buffer is all expansion, the cipher otherwise |
| `Aez.ZeroTail` | crates/aez/src/lib.rs:101-105 | in place: exactly the last bytes become zero |
| `Aez.EncryptInPlace` | crates/aez/src/lib.rs:80-108 | in place: the slot content is ignored, the buffer holds the ciphertext; a short buffer is untouched |
| `Aez.DecryptInPlace` | crates/aez/src/lib.rs:110-132 | in place: the message, whose length is returned, and a zero authenticator on success, untouched on truncation, all zeros when inauthentic |
| `Aez.TailIsZero` | crates/aez/src/lib.rs:184-188 | the union of the last bytes is zero exactly when each of them is |
| `Aez.EncipherInPlace` | crates/aez/src/lib.rs:134-138 | in place: the permutation that `EncipherDecipher` is about |
| `Aez.DecipherInPlace` | crates/aez/src/lib.rs:140-145 | in place: its inverse |
| `Limiter.ReleaseKeeps` | frontend/src/webview.rs:694-704 | a release puts back exactly one permit, past any number of dead waiters, and keeps the invariant |
| `Limiter.AcquireKeeps` | frontend/src/webview.rs:647-672 | an acquisition keeps the total and the invariant, whether admitted, queued or refused |
| `Limiter.StepKeeps` | frontend/src/webview.rs:623-715 | every event keeps the conservation of permits, the queue order, the bound, and the order of grants |
| `Limiter.RunKeeps` | frontend/src/webview.rs:623-715 | so does every run |
| `Limiter.PermitsAreConserved` | frontend/src/webview.rs:636-715 | in every run: available + held + granted-but-unresumed is the maximum, the queue is within its bound, and no permit idles while a live waiter waits |
| `Limiter.GrantsFollowArrivals` | frontend/src/webview.rs:694-704 | in every run permits are granted in strictly increasing arrival order and no live waiter is overtaken |
| `Limiter.SenderOutlivesReceiver` | frontend/src/webview.rs:678-684 | in every run a live waiter that left the queue was granted its permit, so its receiver does not fail |
| `Limiter.RefusedExactlyWhenFull` | frontend/src/webview.rs:651-656 | in every run an acquisition is refused, and changes nothing, exactly when every permit is held or granted and the queue is full |
| `Limiter.ReleaseIs` | frontend/src/webview.rs:694-704 | a release goes to the first live waiter, past the dead ones, who leave the queue; without one it goes back |
| `Limiter.GatewayRequestLimiter.constructor` | frontend/src/webview.rs:636-645 | the object starts in the initial state |
| `Limiter.GatewayRequestLimiter.Acquire` | frontend/src/webview.rs:647-672 | a permit exactly when one is available; a refusal, changing nothing, exactly when none is and the queue is full; otherwise a live, ungranted waiter at the end of the queue |
| `Limiter.GatewayRequestLimiter.Release` | frontend/src/webview.rs:694-704 | the popping loop hands the permit to the first live waiter, or makes it available |
| `Limiter.GatewayRequestLimiter.CancelWaiter` | frontend/src/webview.rs:687-692 | removes exactly the waiters of one owner and keeps the order |
| `Limiter.GatewayRequestLimiter.Resume` | frontend/src/webview.rs:678-683 | a resumed waiter disarms its guard and holds a permit |
| `Limiter.GatewayRequestLimiter.DropReceiver` | frontend/src/webview.rs:678 | a dropped future loses its receiver first; the guard is dropped in a later step |
| `Limiter.GatewayRequestLimiter.DropGuard` | frontend/src/webview.rs:623-634 | dropping an armed guard returns a granted permit or withdraws from the queue |
| `Limiter.GatewayRequestLimiter.DropPermit` | frontend/src/webview.rs:707-715 | dropping a permit releases it |
| `Chord.ChordAddPowerOfTwo` | frontend/src/topology.rs:515-535 | the carry loop yields (id + 2^e) mod 2^160 for every id and exponent, wrap and exponents from 160 on included |
| `Chord.LessIsNumeric` | frontend/src/topology.rs:508-513 | the lexicographic order of byte arrays is the numeric order |
| `Chord.CarryStep` | frontend/src/topology.rs:526-528 | storing the low byte and carrying the rest keeps the value plus the pending carry |
| `Chord.FirstSuccessorIndex` | frontend/src/topology.rs:508-513 | the scan finds the first node at or after the point, or index 0 |
| `Chord.SuccessorIsNearest` | frontend/src/topology.rs:508-513 | on a sorted node list that node minimises the clockwise distance modulo 2^160, and is the first that does |
| `Chord.InferredFingerLinks` | frontend/src/topology.rs:442-468 | the nested loops produce the links that the next members describe |
| `Chord.LinksFromSound` | frontend/src/topology.rs:452-466 | every link of a source goes to what its exponent resolves to, never to the source, and to distinct targets |
| `Chord.LinksFromComplete` | frontend/src/topology.rs:452-466 | every exponent resolves to the source or to a listed target |
| `Chord.LinksFromGreatest` | frontend/src/topology.rs:453-466 | of the exponents that resolve to one target the greatest carries the link |
| `Chord.FingerLinksExact` | frontend/src/topology.rs:442-468 | exactly which links are drawn: from four nodes on, those of the exponents 159 to 157, and 156 from eight nodes on, that resolve to another node than their source and are the greatest to do so |
| `Chord.FingerLinksNearest` | frontend/src/topology.rs:442-468 | the target of every link is nearest clockwise to the point its finger aims at, among all nodes |
| `Chord.FingerLinksOrdered` | frontend/src/topology.rs:452-466 | the links come source by source, those of one source from the greatest exponent down |
| `Chord.FingerTargetsDistinct` | frontend/src/topology.rs:453-464 | no two links of one source share a target |
| `Chord.DidIdentifier` | frontend/src/topology.rs:537-564 | a text is an identifier exactly when it is a nonempty hexadecimal numeral of even length after trimming and 0x; the bytes are those of its value |
| `Chord.IdentifierValue` | frontend/src/topology.rs:537-564 | the identifier of a text is the value of its whole numeral modulo 2^160 |
| `Chord.IdentifierIs` | frontend/src/topology.rs:537-564 | a text denotes an identifier exactly when it is an even number of hexadecimal digits, possibly after 0x and within white space, and the identifier is their value modulo 2^160 in 20 bytes |
| `Chord.HexNibbleIs` | frontend/src/topology.rs:558-559 | the sixteen digits in either case, and no other characters |
| `Chord.WhiteSpaceIs` | frontend/src/topology.rs:538 | the white space that trimming removes |
| `Text.TrimIs` | frontend/src/topology.rs:538 | trimming removes exactly the white space around a core |
| `Chord.HexTail` | frontend/src/topology.rs:546-553 | keeping the last 20 bytes of a numeral reduces its value modulo 2^160 |
| `Chord.DecodeHex` | frontend/src/topology.rs:554-563 | writing the pairs at the end of 20 zero bytes gives the value of the numeral |
| `Chord.CollectExact` | frontend/src/topology.rs:401-425 | one node for each distinct well-formed text, and no others; the local one comes first and is marked, the others follow in the order of the peers with the state of the first peer of their text |
| `Chord.SortIsStable` | frontend/src/topology.rs:426 | sorting orders by identifier, keeps the nodes, and keeps the order of equal identifiers |
| `Chord.ChordNodes` | frontend/src/topology.rs:401-428 | the loop yields the sorted collection of valid nodes |
| `Decimal.ValueOfNumeral` | frontend/assets/webview-worker-request.js:103 | the numeral of a number denotes it |
| `Decimal.NumeralStarts` | frontend/assets/webview-worker-request.js:103 | a numeral has no leading zero, but for that of zero |
| `Decimal.GreaterIsNumeric` | frontend/assets/webview-worker-request.js:104-107 | for numerals of one length, string order is numeric order |
| `RequestBody.DeclaredLengthExact` | frontend/assets/webview-worker-request.js:94-112 | a declared length is too large exactly when its value exceeds 8 MiB, for any number of digits and leading zeros; invalid exactly when it is not a digit string |
| `RequestBody.WhiteSpaceIs` | frontend/assets/webview-worker-request.js:98 | the white space that trimming removes |
| `RequestBody.BodyDecided` | frontend/assets/webview-worker-request.js:8-42 | only GET and HEAD go without a body; the declared length is decided before the stream, and an abort at the start gives the empty body |
| `RequestBody.StreamExact` | frontend/assets/webview-worker-request.js:44-69 | after any chunks, the next read decides: an abort gives the empty body, a failure is an error, the end gives the chunks, and one byte above 8 MiB is too much |
| `RequestBody.WholeStreamExact` | frontend/assets/webview-worker-request.js:44-69 | an unaborted stream yields the concatenation of its chunks exactly when the total is within the limit |
| `RequestBody.BodyExact` | frontend/assets/webview-worker-request.js:19-82 | the same for a whole request with an acceptable declared length |
| `RequestBody.BodyWithinLimit` | frontend/assets/webview-worker-request.js:60-68 | whatever the reads and aborts, no returned body exceeds the limit |
| `RequestBody.Assemble` | frontend/assets/webview-worker-request.js:75-81 | copying the chunks at running offsets gives their concatenation |
| `RequestBody.ReadGatewayRequestBody` | frontend/assets/webview-worker-request.js:19-82 | the read loop, with its total never past the limit, yields the specified outcome for every sequence of reads; it reads nothing after an end, abort or excess, always unlocks the reader, and cancels it exactly on an abort or an excess |
| `Renderer.NextKeeps` | frontend/extension-assets/webview_renderer_session.ts:145-207 | every event keeps the invariant: pending matches the awaited phase and capability, waits settle once and only for their own cause |
| `Renderer.RunKeeps` | frontend/extension-assets/webview_renderer_session.ts:140-208 | so does every run from creation |
| `Renderer.PendingIffAwaiting` | frontend/extension-assets/webview_renderer_session.ts:145-148 | in every run a promise is pending exactly when the state awaits the same phase and capability |
| `Renderer.WaitsSettleOnce` | frontend/extension-assets/webview_renderer_session.ts:149-207 | in every run each wait settles at most once, a render wait resolves only on its own capability, and no wait is lost |
| `Renderer.BeginIs` | frontend/extension-assets/webview_renderer_session.ts:112-122 | a wait for readiness begins exactly from the start, a wait for a document exactly once ready |
| `Renderer.PendingSettles` | frontend/extension-assets/webview_renderer_session.ts:171-206 | the pending wait is resolved by the acknowledgement of its phase and capability, rejected by its failure report, timer or release, and untouched by anything else |
| `Renderer.NothingPending` | frontend/extension-assets/webview_renderer_session.ts:171-206 | with nothing pending only a release has an effect |
| `Renderer.NextAdvances` | frontend/extension-assets/webview_renderer_session.ts:108-138 | a transition only moves forward in the lifecycle, and settlements are never revised |
| `Renderer.ReleasedIsTerminal` | frontend/extension-assets/webview_renderer_session.ts:198-206 | after release no events change anything |
| `Renderer.RendererLifecycle.constructor` | frontend/extension-assets/webview_renderer_session.ts:141-143 | a lifecycle starts created, with nothing pending |
| `Renderer.RendererLifecycle.Begin` | frontend/extension-assets/webview_renderer_session.ts:149-169 | starts a wait exactly when the transition is permitted, and otherwise changes nothing |
| `Renderer.RendererLifecycle.FailPending` | frontend/extension-assets/webview_renderer_session.ts:171-178 | a timeout fails only the wait that owns it |
| `Renderer.RendererLifecycle.Apply` | frontend/extension-assets/webview_renderer_session.ts:180-191 | an acknowledgement settles the pending wait exactly when it is accepted, and reports it |
| `Renderer.RendererLifecycle.Release` | frontend/extension-assets/webview_renderer_session.ts:198-206 | releases the lifecycle and rejects what is pending |
| `Renderer.RendererLifecycle.Take` | frontend/extension-assets/webview_renderer_session.ts:193-207 | the object takes the step of the model for every event |
| `Renderer.FailureSettles` | frontend/extension-assets/webview_renderer_session.ts:277-283 | whatever the lifecycle did during the transfer, reporting the failure leaves no wait behind; undisturbed, it rejects exactly the wait of this transfer |
| `Renderer.GatewayLease.Release` | frontend/extension-assets/webview_renderer_session.ts:242-251 | both ports are closed once, however often the lease is released |
| `Renderer.RenderDocument` | frontend/extension-assets/webview_renderer_session.ts:254-285 | success hands the ports over and leaves the lifecycle to its wait; any earlier failure closes both ports once and is reported, with any events in between |
| `Splicing.RightToLeft` | frontend/extension-assets/extension_webview_worker_modules.ts:533-548 | after splices from the right the text is untouched up to the last splice and substituted after it |
| `Splicing.RewriteIsSubstitution` | frontend/extension-assets/extension_webview_worker_modules.ts:533-548 | splicing disjoint spans from right to left is their simultaneous substitution |
| `Splicing.RewriteIgnoresOrder` | frontend/extension-assets/extension_webview_worker_modules.ts:538-542 | the order in which disjoint spans were collected does not matter |
| `SyntaxWalk.VisitTree` | frontend/extension-assets/extension_webview_worker_modules.ts:329-374 | the walk with an explicit stack terminates with the result that `ParsedCallsExact` describes |
| `SyntaxWalk.SitesExact` | frontend/extension-assets/extension_webview_worker_modules.ts:359-374 | from any stack, the walk meets exactly the calls at or below its entries, each with the path above it |
| `SyntaxWalk.OwnSitesAre` | frontend/extension-assets/extension_webview_worker_modules.ts:334-343 | a node has a call exactly when it calls importScripts, bare or on self or globalThis, in either member form and unshadowed; its specifiers are the values of its arguments in their order |
| `SyntaxWalk.ParsedCallsExact` | frontend/extension-assets/extension_webview_worker_modules.ts:329-346 | the walk succeeds exactly when every importScripts call of the tree has only string literals, and then collects exactly these calls |
| `SyntaxWalk.NothingBelowAccepted` | frontend/extension-assets/extension_webview_worker_modules.ts:334-343 | below an accepted call there is no further call |
| `SyntaxWalk.TreeApart` | frontend/extension-assets/extension_webview_worker_modules.ts:334-343 | the accepted calls of one subtree lie inside it and are pairwise disjoint |
| `SyntaxWalk.StackApart` | frontend/extension-assets/extension_webview_worker_modules.ts:359-373 | the accepted calls below sibling nodes are pairwise disjoint and each belongs to one sibling |
| `SyntaxWalk.CallsAreDisjoint` | frontend/extension-assets/extension_webview_worker_modules.ts:329-346 | the accepted spans are nonempty, inside the program, and pairwise disjoint |
| `ClassicImports.AssembleFails` | frontend/extension-assets/extension_webview_worker_modules.ts:301-326 | one script fails exactly when it does not parse, a dependency cannot be obtained, or one cannot be inlined |
| `ClassicImports.MaterializeFails` | frontend/extension-assets/extension_webview_worker_modules.ts:298-327 | one level: failure exactly on an ancestor's URL, a broken script, or a failing dependency |
| `ClassicImports.DeadEndFails` | frontend/extension-assets/extension_webview_worker_modules.ts:298-327 | a chain that repeats a URL or ends in a broken script makes the walk fail |
| `ClassicImports.FailureHasDeadEnd` | frontend/extension-assets/extension_webview_worker_modules.ts:298-327 | a failure exhibits such a chain |
| `ClassicImports.SucceedsIffNoDeadEnd` | frontend/extension-assets/extension_webview_worker_modules.ts:289-327 | the walk succeeds exactly when no chain from the entry repeats a URL or meets a broken script |
| `ClassicImports.SucceedsIffAcyclic` | frontend/extension-assets/extension_webview_worker_modules.ts:289-327 | when every fetch and parse along the chains succeeds: exactly when no chain from the entry repeats a URL |
| `ClassicImports.MaterializeUnfolds` | frontend/extension-assets/extension_webview_worker_modules.ts:302-326 | below any ancestors, a materialized script is the inlining of its dependency tree |
| `ClassicImports.EntryUnfolds` | frontend/extension-assets/extension_webview_worker_modules.ts:302-326 | the result is the recursive inlining of the dependency tree, which has no cycle check of its own |
| `ClassicImports.SuccessRepeatsNothing` | frontend/extension-assets/extension_webview_worker_modules.ts:298-300 | after a success no chain from the entry meets a URL twice |
| `ClassicImports.SucceedsIffUnfolds` | frontend/extension-assets/extension_webview_worker_modules.ts:289-327 | the walk succeeds exactly when the dependency tree has a finite inlining and no chain from the entry holds two different scripts of one URL |
| `ClassicImports.SharedUrlRefused` | frontend/extension-assets/extension_webview_worker_modules.ts:298-319 | the second condition is needed: the script importScripts("https://b/") at https://a/, answered by an empty script from https://a/, is refused though its inlining is finite |
| `ClassicImports.AssembleSubstitutes` | frontend/extension-assets/extension_webview_worker_modules.ts:301-326 | one script is its source with all its calls replaced at once by the texts of their dependencies |
| `ClassicImports.CallsAre` | frontend/extension-assets/extension_webview_worker_modules.ts:330-346 | the calls of a source are those of the walk, in its order, with their spans and specifiers |
| `Inlining.LineIs` | frontend/extension-assets/extension_webview_worker_modules.ts:305-320 | a specifier becomes one line that evaluates the quoted text of what it resolves to, with that URL as its source |
| `Inlining.EditIs` | frontend/extension-assets/extension_webview_worker_modules.ts:303-324 | a call is replaced by one line for each of its specifiers, in their order, with one newline between two |
| `Inlining.AssembledIs` | frontend/extension-assets/extension_webview_worker_modules.ts:301-326 | assembling gives exactly the text in which every call is so replaced |
| `Inlining.EntryIsInlining` | frontend/extension-assets/extension_webview_worker_modules.ts:289-327 | the walk returns a text exactly when it is the inlining of the entry, to any depth, and no chain from the entry holds two different scripts of one URL |
| `ImportMeta.FreshSuffix` | frontend/extension-assets/extension_webview_worker_modules.ts:579-587 | the chosen name is the first candidate that does not occur in the source, and there is one |
| `ImportMeta.ImportMetaBinding` | frontend/extension-assets/extension_webview_worker_modules.ts:579-587 | the loop terminates on every source, because candidates outgrow it, and returns that name |
| `ImportMeta.MetaEditsExact` | frontend/extension-assets/extension_webview_worker_modules.ts:567-574 | the spans replaced are exactly those of the import.meta locations |
| `ImportMeta.ImportMetaReplaced` | frontend/extension-assets/extension_webview_worker_modules.ts:565-593 | every import.meta is replaced at once by the first of the candidate names that the source does not contain, after the declaration of the metadata object, written out |

## Left out

- The internals of the AES round (FIPS 197), zeroization on drop, constant-time evaluation, and the cryptographic
  security of AEZ.
- Machine widths of lengths and indices: lengths, scalars, columns and expansions are unbounded naturals; only the
  integer strings (modulo 2^128) and the stream index (modulo 2^64) wrap in the model.
- Subkeys and Aez objects are values, since nothing changes them before they are dropped.
- AezTiny.TinyInverts: covers the 1 to 31 bytes the source promises; the empty string and longer ones go elsewhere.
- Limiter: the shared cells and one-shot channels are a map from arrival numbers to waits; the executor that polls
  futures is the choice of the next event. The numbering, the held permits and the list of grants are history.
- Limiter.SenderOutlivesReceiver: the second pass of the acquisition loop is unreachable by this lemma and has no event.
- Chord.ChordNodes: nodes do not carry the angle, a floating-point function of the identifier; the successor edges,
  SVG layout and view components are presentation.
- RequestBody.ReadGatewayRequestBody: reads come as a sequence, each with the state of the abort signal when it
  completes; a stream that has not ended yields `Pending`. The views that chunks are converted to are left out.
- Renderer.RenderDocument: the first effect that throws and the events that reach the lifecycle during the effects are
  parameters; best-effort closing of a port that itself throws counts as closed.
- Renderer: promises and timers are numbered waits, and error texts are dropped.
- SyntaxWalk: the tree has the node kinds the walk inspects, with the children in visiting order; whether a scope
  binds a name is an arbitrary function of the name and the ancestor path.
- SyntaxWalk.CallsAreDisjoint: takes from the parser that calls are nonempty, that children lie inside their parent, and
  that two children of one node do not overlap unless one of them is an identifier, as in a shorthand property. Other
  nodes may be empty, as in an empty program or between two interpolations of a template literal.
- ClassicImports: URL resolution, JSON quoting and the parser are arbitrary functions; responses are a finite map, so
  the fetch cache, promise scheduling and which of several errors is reported are not captured.
- ImportMeta.ImportMetaReplaced: takes from the lexer that import.meta locations are nonempty and disjoint.
- Strings are sequences of characters, not of UTF-16 code units.
- Rollup bundling, the module lexer, the service-worker, wallet and node bridges, and the binary codecs.
