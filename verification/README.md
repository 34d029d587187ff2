# A verified model of the MEGA65 IRC client's core

The client carries its own arithmetic, TLS 1.3 engine, disk filesystem and scrollback. This project models those
parts in Dafny, in the form the C has (arrays overwritten in place, contexts whose methods update their fields, loops
with their carries), and proves what they are for.

- `Words`, `Modular`, `Digits`, `Limbs`, `ByteStrings`, `Bits`: fixed-width integers as subset types, so that every
  assignment to a 16- or 32-bit variable is a proof that it does not overflow; congruences; numbers in limbs and bytes.
- `Montgomery`, `Montgomery32`, `Mp`, `MpExp`, `Pkcs1`: the multi-precision layer and RSA signature verification.
- `Curve`, `Points`, `Shamir`, `Ecdsa`: the Jacobian formulas, the point arithmetic in its shared scratch, the bit
  loops, and ECDSA verification on P-256 and P-384, generic in the number of limbs.
- `Base256`, `Field25519`, `ScalarL`: numbers in signed base-256 digits, GF(2^255-19), and arithmetic modulo the
  Ed25519 group order.
- `Poly1305`, `Aead`, `Sha256`, `Der`: the streaming crypto, and the splitting of a certificate chain. `Primes`,
  `ShaStandard` and `ShaExample` say what the hash's operations and constants are, apart from how it computes them, and
  follow the standard's example through all its rounds.
- `Tls`, `TlsPieces`, `TlsEngine`: the TLS engine as a machine on single bytes, its piecewise form, and the engine that
  works on pieces in place. `TlsMessages`: the handshake messages as RFC 8446 writes them, and what the engine takes
  from them.
- `TlsRuns`, `TlsKeySwitch`, `TlsHistory`, `TlsNumbers`, `TlsAnswer`, `TlsDelivery`: what holds of all its runs: the
  order of the handshake, when the read keys switch, what the hashes, the keys and the signature are over, under which
  keys and numbers records are sealed and opened, what the client answers, and what the caller is given.
- `Floppy`, `Bam`, `Files`, `Stray`, `Stopped`, `CbmDos`: half-sector storage, the free map, the disk's files, what
  happens to a file whose free map or name is taken away while it is written, what is left by an operation that stops
  at one of its writes, and the DOS operations.
- `Marks`, `FullDisk`: the bookmarks file over them, and a disk on which rewriting it loses it.
- `Scrollback`, `View`: the ring of rows behind 16-bit counters, and the screen redrawn by scrolling.

`dafny verify dfyconfig.toml` checks everything.

## Where the code says something else than expected

The model follows the code. Each of these is stated as a lemma or contract, with the exact condition under which the
code does what its comments or interface promise.

- `fe_mul`'s second fold loses a carry out of limb 15 (src/crypto/curve25519.c:146). The product is right exactly when
  there is no such carry; otherwise the true residue is in 38..379 and the result is 38 less
  (`Field25519.ReducedExactIff`, with an input in `Field25519.ProductThatDrops`).
- A plaintext alert cut in the middle is not seen (src/tls/tls.c:618): pieces may be cut anywhere but there
  (`TlsRuns.CutAnywhere`, `TlsRuns.CutAlertIsLost`).
- The read keys do not switch at the end of the record with the Finished in it when that record is in the clear:
  `record_end` returns before it looks at `rd_switch` (src/tls/tls.c:550), and a clear record that brings the
  ServerHello may go on to the Finished (src/tls/tls.c:605-626). Then the next record is opened under the handshake
  keys, and the switch comes at its end. `TlsKeySwitch.KeySwitchOfRecord` has the condition, `TlsKeySwitch.ClearFinished`
  the input.
- The signature that waits for `tls_verify` can be overwritten. A CertificateVerify of 525 to 528 bytes loses its last
  bytes to the Finished header that is read into the same buffer, and any other message that is buffered after it takes
  its place (src/tls/tls.c:497-519): `TlsHistory.SignatureIntact` and `TlsHistory.Overwritten` have the conditions,
  `TlsHistory.OtherMessage` an input.
- A ServerHello may name its key share in several extensions, which section 4.2 of RFC 8446 forbids: the group is that
  of the last one, the share that of the last that has one, and up to three bytes may follow the last extension
  (src/tls/tls.c:255-267). `TlsMessages.HelloGave` says what a hello that is taken was. One whose random begins with
  the first eight bytes of the retry's is taken for a retry (`TlsMessages.HelloSays` excludes it).
- The certificates of a message are counted in eight bits, and each that is numbered zero is taken for the leaf: with more
  than 256 the length kept is not the first one's (src/tls/tls.c:441-476, `TlsMessages.CertificateTaken`).
- An alert in an encrypted record without content is read from the record before it, and a record that began before the
  connection was complete gets no verdict and fails (src/tls/tls.c:547-603): `TlsDelivery.WholeRecord`.
- `p256_verify` compares coordinates with the prime in Montgomery form, where they are reduced already
  (src/crypto/p256.c:122): nothing is refused, and a key's coordinates count modulo the prime (`Ecdsa.Reduced`,
  `Ecdsa.LoadKey`). `Ecdsa.KeyTaken` says for which keys that matters, and `Ecdsa.UnreducedKey` is one.
- `mp_mont_exp` keeps its bit count in 16 bits: an exponent of 8192 bytes or more loses its top bytes, and is another
  number exactly when they are not all zero (`MpExp.ExponentWhole`; `Pkcs1.ExponentLost` is a signature that section
  8.2.2 of RFC 8017 accepts and the code does not). The chain check never gets there: it takes exponents of at most
  eight bytes (src/tls/chain.c:27, 94).
- `der_elem` computes offsets in 16 bits: a header that ends past byte 65,535 is taken for an element near offset 0, of a
  length from the buffer's old bytes, and everywhere else the element is inside and from the store alone
  (`Der.ElemExact`). This client keeps at most 5,888 bytes of certificates (src/bank/api.c:35), so only the C interface
  can be given such a store.
- `cbmdos_put` takes the next block as soon as one is full, so a file of N bytes takes N/254 + 1 blocks
  (`CbmDos.BlocksFor`, `CbmDos.Dos.WriteFile`).
- `cbmdos_delete`, `cbmdos_load` and the reader share the file name, the buffer and the map with a file that is being
  written (src/platform/m65_cbmdos.c:491-509, 604-605, 674). After a delete, even of a name that is not there, the file's
  blocks are free again in memory: the next one filled may be linked to itself (`CbmDos.Dos.SelfLinked`). The close then
  leaves a disk that is not well-formed, and it does so in exactly these cases: a delete came between, or the name was
  taken over by one that is on the disk (`CbmDos.ClosedAs`, `CbmDos.Dos.Close`). A load or a read leaves the file well-formed, its
  bytes its own if and only if the buffer still holds them (`CbmDos.JoggedSame`).
- A close or a delete that stops at one of its writes leaves every other file as it was, but from the directory's first
  write to the free map's the disk is not well-formed (`Stopped.GrowStopped`, `Stopped.EnterStopped`,
  `Stopped.DeleteStopped`).
- `marks_add` and `marks_remove` delete the old file before they write the new one: when the disk does not take it,
  there is no bookmarks file at all. `Marks.Room` is the condition, known before the call, and `FullDisk.Full` a disk
  that does not meet it.

## Model

| member | source | states |
|---|---|---|
| `Limbs.MacRow` | src/crypto/mp.c:84-93 | a row out = in + a p with its carry, over the integers; the 32-bit accumulator never overflows |
| `Limbs.CmpN` | src/crypto/mp.c:99-105 | the comparison of two limb numbers is that of their values |
| `Limbs.SubN` | src/crypto/mp.c:108-118 | difference and borrow over the integers, also in place |
| `Limbs.AddN` | src/crypto/mp.c:121-131 | sum and carry over the integers, also in place |
| `ByteStrings.FromBe` | src/crypto/mp.c:166-174 | the limbs hold the big-endian number, modulo what they can hold |
| `ByteStrings.ToBe` | src/crypto/mp.c:176-183 | the bytes are the number's low bytes, big-endian, and no other byte changes |
| `Montgomery.MontProductUnique` | src/crypto/mp.c:238-264 | for odd m there is only one r < m with r R = a b (mod m), so both multipliers return the same value |
| `Montgomery.TotalBound` | src/crypto/mp.c:246-262 | the running total stays below m + b |
| `Montgomery.Context.MontMul` | src/crypto/mp.c:238-264 | 16-bit CIOS: r < m and r R = a b (mod m) for any a and b < m, r on top of a or b included; no overflow |
| `Montgomery.Context.FromMont` | src/crypto/mp.c:268-289 | r < m and r R = a (mod m) for any a |
| `Montgomery32.Mul32` | src/crypto/mp.c:32-39 | two words from four 16-bit products are the whole product |
| `Montgomery32.Row32` | src/crypto/mp.c:40-50 | a row of 32-bit limbs with its carry, over the integers |
| `Montgomery32.Mont32` | src/crypto/mp.c:193-215 | 32-bit CIOS, for even n: the same Montgomery product, or with no b the reduction |
| `Mp.Add` | src/crypto/mp.c:155-159 | a + b mod m for reduced a and b, also in place |
| `Mp.Sub` | src/crypto/mp.c:161-164 | a - b, plus m when negative |
| `Mp.SubMod` | src/crypto/mp.c:161-164 | for reduced operands that is a - b mod m |
| `Mp.NewtonStep` | src/crypto/mp.c:303-312 | one Newton step squares the modulus of the inverse |
| `Mp.NegInverse16` | src/crypto/mp.c:304-307 | five steps: n0 m + 1 = 0 modulo 2^16 for any odd limb |
| `Mp.NegInverse32` | src/crypto/mp.c:309-312 | six wrapping steps: n0 m + 1 = 0 modulo 2^32 for any odd word |
| `Mp.Shares` | src/crypto/mp.c:328 | halving 16 n while above 256 leaves d 2^s = 16 n exactly, d at most 256 |
| `Mp.Doublings` | src/crypto/mp.c:329 | d modular doublings of R are R 2^d |
| `Mp.Squarings` | src/crypto/mp.c:330 | s Montgomery squarings bring R 2^d to R 2^(d 2^s) |
| `Mp.Init` | src/crypto/mp.c:294-331 | the whole context invariant for every odd modulus with its top bit set: both inverses, and rr = R^2 mod m |
| `Mp.FormProduct` | src/crypto/mp.h:42-45 | the Montgomery product of x R and y R is x y R |
| `MpExp.ToMont` | src/crypto/mp.c:292 | into Montgomery form, for any a of n limbs |
| `MpExp.ExpBits` | src/crypto/mp.c:335-344 | square and multiply from the top bit gives a^e for the e the bits spell |
| `MpExp.Exp` | src/crypto/mp.c:353-358 | a^e for the bytes of the exponent that the 16-bit bit count leaves |
| `MpExp.ExponentWhole` | src/crypto/mp.c:353-358 | what is used is the exponent given, as a number, if and only if the bytes dropped are all zero |
| `MpExp.Inv` | src/crypto/mp.c:363-375 | a^(m-2), its bits read off m with a smaller low limb |
| `MpExp.InverseByFermat` | src/crypto/mp.h:55-57 | where x^(m-1) = 1 that is the inverse |
| `Pkcs1.EncodedParts` | src/crypto/pkcs1.c:36-50 | the padding, DigestInfo and hash tests together describe exactly one string |
| `Pkcs1.DigestInfoIs` | src/crypto/pkcs1.c:6-14 | the nineteen bytes and a hash are the DER of a SEQUENCE of the algorithm, an object identifier and NULL, and an OCTET STRING with the hash |
| `Pkcs1.Scan` | src/crypto/pkcs1.c:36-51 | the scan accepts the one encoding of the hash and nothing else |
| `Pkcs1.Verify` | src/crypto/pkcs1.c:16-51 | accepts if and only if lengths and top bit fit, s < n, and s^e mod n is the one encoding; the same with modulus and signature laid on the multiplier's scratch |
| `Pkcs1.StandardExponent` | src/crypto/pkcs1.c:28-34 | for exponents whose dropped bytes are zero, all those under 8192 bytes among them, that is section 8.2.2 of RFC 8017 |
| `Pkcs1.ExponentLost` | src/crypto/mp.c:353-358 | for the exponent one in 8192 bytes, every hash and every modulus taken, a signature that the section accepts and the code refuses |
| `Curve.DblExact` | src/crypto/p256.c:52-67 | over the integers, dbl's formula on scaled coordinates is the tangent's, scaled |
| `Curve.AddExact` | src/crypto/p256.c:69-91 | over the integers, add's general formula is the chord's, scaled |
| `Curve.DblCorrect` | src/crypto/p256.c:54-67 | dbl gives Jacobian coordinates of P + P in every case, infinity and points of order two included |
| `Curve.AddCorrect` | src/crypto/p256.c:70-91 | add gives Jacobian coordinates of P + Q in every case: infinity, equal, opposite, general |
| `Curve.SumUnique` | src/crypto/p256.c:69-91 | the group's sum of two points is one point |
| `Curve.SumCommutes` | src/crypto/p256.c:69-91 | and the same either way round |
| `Points.PlaceIs` | src/crypto/p256.c:33-37 | slot k of the layout starts at limb k n: 31 slots are 496 limbs of 512, and 744 of 744 |
| `Points.SlotsApart` | src/crypto/p384.c:50-57 | two slots share no limb, for any number of limbs |
| `Points.Bench.Dbl` | src/crypto/p256.c:54-67 | the in-place sequence leaves exactly the formula's values in r, r on top of p included; outside r and the temporaries no slot changes |
| `Points.Bench.AddPoints` | src/crypto/p256.c:70-91 | add with all its branches, r on top of p or q included, its temporaries dead when it calls dbl; no live slot changes |
| `Points.ZeroForm` | src/crypto/p256.c:50 | a coordinate's limbs are zero exactly when the coordinate is zero in the field |
| `Shamir.BothStep` | src/crypto/p256.c:138-143 | doubling j G + k Q and adding one of four things gives the next two prefixes |
| `Shamir.LimbBitsValue` | src/crypto/p256.c:93 | the bits bit_of reads spell the scalar |
| `Shamir.ShamirLoop` | src/crypto/p256.c:130-145 | acc becomes u1 G + u2 Q for all scalars, and only G + Q's slots, acc's and the temporaries change |
| `Shamir.Mul` | src/crypto/p256.c:161-170 | acc becomes k P for every scalar |
| `Ecdsa.QuotientIs` | src/crypto/p256.c:113-115 | u1 and u2 are e / s and r / s modulo the order |
| `Ecdsa.ScalarsOn` | src/crypto/p256.c:102-115 | r and s in 1 .. n-1 or a refusal, and both scalars for any hash |
| `Ecdsa.Reduced` | src/crypto/p256.c:122 | the comparison of a coordinate's Montgomery form with the prime never refuses |
| `Ecdsa.LoadKey` | src/crypto/p256.c:118-127 | accepts if and only if the coordinates, modulo the prime, are on the curve |
| `Ecdsa.KeyTaken` | src/crypto/p256.c:122 | a key below the prime is taken if and only if it is a point; another if its residues are one |
| `Ecdsa.UnreducedKey` | src/crypto/p256.c:122 | a key of P-256 with the prime itself as x: not a point, and taken |
| `Ecdsa.XOut` | src/crypto/p256.c:150-152 | X / Z^2 by the exponent p - 2 is the point's x |
| `Ecdsa.Matches` | src/crypto/p256.c:147-154 | not infinity, and x reduced by at most one subtraction of the order is r |
| `Ecdsa.Verify` | src/crypto/p384.c:109-166 | the whole verification: accepted if and only if r and s are in range, the key is on the curve, and the signature equation holds |
| `Ecdsa.P256Field` | src/crypto/p256.c:6-27 | the prime is 2^256 - 2^224 + 2^192 + 2^96 - 1, and the order is within Hasse's bound of it |
| `Ecdsa.P384Field` | src/crypto/p384.c:11-40 | the prime is 2^384 - 2^128 - 2^96 + 2^32 - 1, and the order is within Hasse's bound of it |
| `Ecdsa.P256Constants` | src/crypto/p256.c:6-27 | the moduli are ones mp_init takes, and G satisfies the equation with the curve's b |
| `Ecdsa.P384Constants` | src/crypto/p384.c:11-40 | the same of P-384 |
| `Field25519.PowersOfTwo` | src/crypto/curve25519.c:54-67 | the prime is 2^255 - 19 |
| `Field25519.FeAdd` | src/crypto/curve25519.c:80-86 | a + b mod p, exactly |
| `Field25519.FeSub` | src/crypto/curve25519.c:88-99 | a - b mod p, exactly |
| `Field25519.Columns` | src/crypto/curve25519.c:123-136 | the columns hold the whole product, each far below 2^32 |
| `Field25519.CarryColumns` | src/crypto/curve25519.c:137-139 | carried into 32 limbs, nothing lost |
| `Field25519.SecondFold` | src/crypto/curve25519.c:145-146 | the second fold is an addition modulo 2^256: the carry out of limb 15 is lost |
| `Field25519.FeMul` | src/crypto/curve25519.c:110-150 | the value of the product after both folds and reductions, below p, o on top of a or b included |
| `Field25519.ReducedExactIff` | src/crypto/curve25519.c:142-150 | that value is a b mod p if and only if the second fold does not carry out; else a b mod p is in 38..379 and the value 38 less |
| `Field25519.ProductThatDrops` | src/crypto/curve25519.c:146 | two field elements whose product comes out 38 short |
| `Field25519.FeInv` | src/crypto/curve25519.c:185-196 | over exact products, x^(p-2) |
| `Field25519.FePow2523` | src/crypto/curve25519.c:198-209 | over exact products, x^(2^252-3) |
| `ScalarL.OrderIs` | src/crypto/curve25519.c:317-318 | the order is 2^252 + 27742317777372353535851937790883648493 |
| `ScalarL.FoldRow` | src/crypto/curve25519.c:326-335 | one row clears the top digit and keeps the residue; balanced digits stay in their range, so no int32 overflows |
| `ScalarL.QuotientBound` | src/crypto/curve25519.c:336-341 | the quotient from the top digit leaves a number between -L and L |
| `ScalarL.SubtractMultiple` | src/crypto/curve25519.c:336-341 | the subtraction carried down to bytes, its sign in the last carry |
| `ScalarL.ModL` | src/crypto/curve25519.c:322-347 | exactly x mod L for every 64 bytes, with one conditional add-back |
| `ScalarL.Reduce` | src/crypto/curve25519.c:356-362 | a 64-byte hash to its residue, in place |
| `ScalarL.SignatureScalar` | src/crypto/curve25519.c:414-419 | S = (r + h a) mod L, section 5.1.6 of RFC 8032 |
| `Poly1305.PrimeIs` | src/crypto/poly1305.c:87-97 | the prime is 2^130 - 5 |
| `Poly1305.Add1305` | src/crypto/poly1305.c:7-12 | addition of 17-byte numbers modulo 2^136 |
| `Poly1305.ClampedBits` | src/crypto/poly1305.c:19-21 | bit k of the multiplier is set if and only if it is in the key and in the mask 0x0ffffffc0ffffffc0ffffffc0fffffff |
| `Poly1305.Multiply` | src/crypto/poly1305.c:53-61 | the columns are h r modulo p, and stay below 2^32 |
| `Poly1305.ReduceProduct` | src/crypto/poly1305.c:63-68 | after the reduction h is below 5 2^128 again, its residue kept |
| `Poly1305.EvalIsPolynomial` | src/crypto/poly1305.c:35-69 | accumulating block by block is the polynomial in r |
| `Poly1305.SubtractP` | src/crypto/poly1305.c:94-97 | one masked subtraction of p reduces fully |
| `Poly1305.Context.Update` | src/crypto/poly1305.c:71-85 | any number of bytes: the context has absorbed the message with them behind it |
| `Poly1305.Context.Final` | src/crypto/poly1305.c:87-102 | the tag of section 2.5 of RFC 8439 |
| `Poly1305.TagOfPieces` | src/crypto/poly1305.c:71-102 | for every message and every way to cut it, the tag of the whole |
| `Aead.XorBitsAt` | src/crypto/aead.c:25-32 | bit k of an exclusive or is set if and only if it is set in exactly one of the two, for any number of bits |
| `Aead.CryptBits` | src/crypto/aead.c:25-32 | bit k of byte i of a ciphertext is that of the plaintext exclusive-or that of byte i mod 64 of block i / 64 + 1, for every payload |
| `Aead.Context.XorStream` | src/crypto/aead.c:25-32 | in place, each byte with its own byte of the key stream of key and nonce, from wherever the stream stands |
| `Aead.LengthsAre` | src/crypto/aead.c:48-57 | the sixteen bytes behind the data are the two lengths, low byte first, modulo 2^32 |
| `Aead.PaddingFills` | src/crypto/aead.c:5-9 | fewer than sixteen zeros bring a length to a multiple of sixteen |
| `Aead.EncryptPieces` | src/crypto/aead.c:34-57 | the ciphertext is the plaintext with the key stream, and its tag the one-shot one, for every cut of the plaintext |
| `Aead.DecryptPieces` | src/crypto/aead.c:41-64 | the plaintext comes back for every cut, by the same key stream, and the check is of the one-shot tag |
| `Aead.SealAndOpen` | src/crypto/aead.c:10-64 | sealed in any pieces and opened in any others, the record comes back and is accepted |
| `Sha256.Ror` | src/crypto/sha256.c:16-22 | rotation by bytes and then bits is rotation |
| `Sha256.Rolls` | src/crypto/sha256.c:33-37 | the sixteen words rolled in place are those of the 64-word schedule |
| `ShaStandard.BigSigmas` | src/crypto/sha256.c:38-40 | the big sigmas are exclusive ors of shifted words by the standard's amounts, for every word |
| `ShaStandard.SmallSigmas` | src/crypto/sha256.c:34-35 | and so are the small ones |
| `ShaStandard.MajIs` | src/crypto/sha256.c:41 | the majority of a word twice and another is the word, wherever the other stands |
| `ShaStandard.MajOr` | src/crypto/sha256.c:41 | the majority word is the or of the three pairs' ands, for all words |
| `ShaStandard.ChIs` | src/crypto/sha256.c:39 | the choice under all ones and under all zeros, and of a word and itself |
| `ShaStandard.ChBits` | src/crypto/sha256.c:39 | the choice takes each bit from f where e has it set and from g where not |
| `Primes.PrimesAre` | src/crypto/sha256.c:3-13 | the 64 numbers the constants come from are all the primes up to 311, in order |
| `ShaStandard.Roots` | src/crypto/sha256.c:3-13 | each of the 64 round constants is the first 32 bits of the fraction of the cube root of the prime with its index |
| `ShaStandard.InitialRoots` | src/crypto/sha256.c:49-56 | each initial word is that of the square root of the prime with its index |
| `ShaStandard.LengthIs` | src/crypto/sha256.c:74-90 | the last eight bytes of the padding are the length in bits, high byte first |
| `ShaStandard.BytesMake` | src/crypto/sha256.c:84-88 | the four bytes of a word, high byte first, make it again |
| `ShaStandard.BytesAre` | src/crypto/sha256.c:84-88 | the digest is the bytes of the eight words, in order |
| `ShaExample.Abc` | src/crypto/sha256.c:24-90 | the hash of "abc" is the standard's, through its padding, its 64 schedule words and its 64 rounds |
| `Sha256.Compress` | src/crypto/sha256.c:24-47 | the block function of section 6.2 of FIPS 180-4 |
| `Sha256.Context.Update` | src/crypto/sha256.c:58-72 | any number of bytes: the context has absorbed the message with them behind it |
| `Sha256.Context.Final` | src/crypto/sha256.c:74-90 | the one-shot hash of everything absorbed, for messages under 2^61 bytes |
| `Der.ElemInside` | src/tls/der.c:15-31 | where the header ends below 64 KB, an element lies inside its range and does not depend on the buffer's old bytes |
| `Der.ElemWraps` | src/tls/der.c:15-31 | where it does not, the element is not inside, and its length is that of the old bytes |
| `Der.ElemExact` | src/tls/der.c:15-31 | for every store below 64 KB and every place, der_elem is right whatever the buffer held if and only if the header ends below 64 KB |
| `Der.ReadBack` | src/tls/der.c:15-29 | every element encoded as section 8.1 of X.690 has it, with a length of one, two or three bytes, is read with its tag, place and length wherever it stands in a store |
| `Der.ReadIsEncoded` | src/tls/der.c:15-29 | and what is read without a wrap is such an encoding |
| `Der.WholeFound` | src/tls/der.c:15-29 | a certificate, as the encoding defines it, is found where it was stored |
| `Der.PartNotFound` | src/tls/der.c:15-29 | one that is cut short is not |
| `Der.ChainSplit` | src/tls/der.c:59-74 | on any prefix of certificates, as the encoding defines them, stored end to end: exactly those wholly inside it, up to max, at their offsets and lengths |
| `TlsPieces.BodyRun` | src/tls/tls.c:497-519 | a piece of a handshake body is its bytes one by one |
| `TlsPieces.DerRun` | src/tls/tls.c:441-476 | a piece of a certificate is its bytes one by one |
| `TlsPieces.CtRun` | src/tls/tls.c:580-597 | a piece of ciphertext is its bytes one by one, what is delivered included |
| `TlsPieces.EncryptedRun` | src/tls/tls.c:580-603 | a piece of an encrypted record, content and tag, is its bytes one by one |
| `TlsPieces.RunSplit` | src/tls/tls.c:605-626 | the bytes of two pieces are the bytes of one |
| `TlsEngine.Engine.CertStream` | src/tls/tls.c:441-476 | the certificate store and state after a piece are those after its bytes |
| `TlsEngine.Engine.HsFeed` | src/tls/tls.c:497-519 | the handshake's state after a piece is that after its bytes |
| `TlsEngine.Engine.OpenPiece` | src/tls/tls.c:584-592 | ciphertext decrypted in place, content and inner type told apart, the last two content bytes kept |
| `TlsEngine.Engine.EncFeed` | src/tls/tls.c:580-603 | an encrypted piece in place: the state after its bytes, and no byte outside the piece changes |
| `TlsEngine.Engine.TlsIn` | src/tls/tls.c:605-626 | one call is the machine run over its bytes, but for a call that begins inside a plaintext alert |
| `TlsEngine.OutConsumed` | src/tls/tls.c:184-190 | what is left of the out buffer is moved to its start |
| `TlsMessages.HelloIs` | src/tls/tls.c:62-104 | the hello's bytes, with all lengths added up by hand, are section 4.1.2 of RFC 8446's ClientHello with its five extensions |
| `TlsMessages.StartSends` | src/tls/tls.c:106-182 | a connection starts if and only if the out buffer has 200 bytes and the name's, which is room for its first record: that hello |
| `TlsMessages.HelloSays` | src/tls/tls.c:231-314 | for every ServerHello, defined by its parts and a list of extensions: keys come up from the key share heard if there is TLS 1.3 and a share this client takes, and if not the error that is due |
| `TlsMessages.HelloTaken` | src/tls/tls.c:255-314 | every ServerHello with TLS 1.3 and one key share that is taken, among whatever other extensions, brings up the keys of that group and share over the transcript |
| `TlsMessages.HelloGave` | src/tls/tls.c:231-314 | keys come up from nothing but a ServerHello that has the group and the share |
| `TlsMessages.RetrySays` | src/tls/tls.c:272-299 | the first HelloRetryRequest for P-256 without a cookie or key is answered with the second hello, over the restarted transcript, if there is room; any other is refused with the error that is due |
| `TlsMessages.ServerHelloTaken` | src/tls/tls.c:497-519 | the same of a whole message, byte by byte: the keys are over the transcript with the message |
| `TlsMessages.CertificateTaken` | src/tls/tls.c:441-476 | after a Certificate message of any number of entries the store is its certificates end to end, as far as it holds, and the length kept is the leaf's up to 256 of them |
| `TlsMessages.CertificateRefused` | src/tls/tls.c:441-476 | one with a context or without certificates is refused |
| `TlsMessages.ExtensionsTaken` | src/tls/tls.c:478-495 | EncryptedExtensions of any content change nothing but the transcript |
| `TlsMessages.RequestTaken` | src/tls/tls.c:478-495 | a CertificateRequest is taken, and its context kept, if and only if that has at most 32 bytes |
| `TlsMessages.VerifyTaken` | src/tls/tls.c:361-370 | a CertificateVerify is taken: its scheme kept, its signature in the buffer |
| `TlsMessages.VerifyIs` | src/tls/tls.c:361-370 | what is taken for one is a scheme and a signature of the length it names |
| `TlsMessages.MessageRefused` | src/tls/tls.c:424-438 | any message that may not come, or of a length that is not taken, is refused by its header |
| `TlsRuns.CutAnywhere` | src/tls/tls.c:605-626 | for every way to cut a stream, plaintext alerts aside: state, error, delivered bytes, verdicts, transcript and store are those of the whole |
| `TlsRuns.CutOnce` | src/tls/tls.c:605-626 | the engine given x then y is the engine given x y |
| `TlsRuns.CutAlertIsLost` | src/tls/tls.c:616-619 | a two-byte alert ends the connection whole, and does nothing cut in two |
| `TlsRuns.CallSteps` | src/tls/tls.c:605-626 | every call is a run of steps, so what holds of all step runs holds of all calls |
| `TlsRuns.Handshake` | src/tls/tls.c:372-438 | a connected run has passed, in order: keys up, first CertificateVerify over the transcript before it, a Finished equal to the kit's over the transcript before it, a verdict on that signature that is not wrong |
| `TlsRuns.Forward` | src/tls/tls.c:361-438 | the phase never goes back |
| `TlsRuns.FinishedOnce` | src/tls/tls.c:384-421 | a run has at most one accepted Finished |
| `TlsRuns.WriteQueues` | src/tls/tls.c:192-200 | tls_write queues one whole record behind what is there, or nothing; it acts if and only if connected, keyed and with room |
| `TlsRuns.OutFits` | src/tls/tls.c:24-55 | over every run the out buffer is never overrun |
| `TlsKeySwitch.KeySwitch` | src/tls/tls.c:547-573 | over every run, the read keys have switched if and only if an encrypted record has ended since a Finished was accepted |
| `TlsKeySwitch.KeySwitchOfRecord` | src/tls/tls.c:547-573 | at the end of the record that held the Finished they have switched if and only if that record was encrypted |
| `TlsKeySwitch.OnlyFinished` | src/tls/tls.c:384-421 | whenever they have switched, or are to, a Finished was accepted before |
| `TlsKeySwitch.ClearFinished` | src/tls/tls.c:605-626 | a Finished at the end of a clear record: verifying, the record over, and the read keys not switched |
| `TlsHistory.Transcript` | src/tls/tls.c:497-519 | over every run that has not ended, the handshake bytes are whole messages in order and the transcript is the hello (or its restart), these, and what has come of the next; the buffer holds the bodies as they overwrite each other |
| `TlsHistory.Hashes` | src/tls/tls.c:384-421 | once the Finished is accepted it is the last message and its value the one for the hash of all before it; the handshake keys come from the group and the share in the last ServerHello of the history and from the hash of the hellos, the application keys from all, and what is signed is everything before the first CertificateVerify |
| `TlsHistory.SignedOver` | src/tls/tls.c:372-382 | a connected client has checked, at some step, the signature over exactly that |
| `TlsHistory.VerifyDecides` | src/tls/tls.c:372-382 | over every run that is verifying, tls_verify completes the connection if and only if a CertificateVerify came and the kit does not find wrong its signature over exactly that; if not it fails with the error that is due |
| `TlsHistory.SignatureIntact` | src/tls/tls.c:497-519 | over every run, with no other body after the CertificateVerify, what is verified is what was received if and only if it is at most 524 bytes or its last bytes are the header's |
| `TlsHistory.Overwritten` | src/tls/tls.c:497-519 | with one other body after it, if and only if the two agree as far as both reach |
| `TlsHistory.OtherMessage` | src/tls/tls.c:424-438 | two bytes of EncryptedExtensions after the CertificateVerify are taken and overwrite its scheme |
| `TlsNumbers.StepSends` | src/tls/tls.c:24-55 | what each step puts behind the out buffer: the answer, the second hello, one record of what tls_write is given, a close_notify sealed once there are keys, and nothing else; with the key and number of each record |
| `TlsNumbers.Sent` | src/tls/tls.c:192-215 | over every run, all that was sent and the out buffer are the hello and such items; the sealed records are numbered from zero under the handshake key and again under the application key, and no key has the same number twice |
| `TlsNumbers.Openings` | src/tls/tls.c:531-573 | over every run, encrypted records are opened under the numbers from zero of the handshake key and, from the switch on, those from zero of the application key, and no key has the same number twice |
| `TlsAnswer.Answered` | src/tls/tls.c:384-421 | over every run, what is queued when the Finished is accepted is one record under the client's handshake key: its empty Certificate with the request's context, if one was asked for, and its own Finished over all messages and that Certificate |
| `TlsDelivery.Given` | src/tls/tls.c:547-603 | over every run the caller is given exactly the content and verdicts that the records' steps deliver, in order |
| `TlsDelivery.NothingBefore` | src/tls/tls.c:531-545 | whatever is given, the run was connected before |
| `TlsDelivery.FailureIsFinal` | src/tls/tls.c:605-626 | over every run from a failure on, the phase, the error and what was given stay, and the out buffer only empties |
| `TlsDelivery.WholeRecord` | src/tls/tls.c:547-603 | a whole record: its content delivered, kept if and only if tag and type are right, and then on, closed or failed; with the alert of an empty record read from the one before, and no verdict on a record begun before the connection |
| `TlsDelivery.HeaderDecides` | src/tls/tls.c:531-545 | which five header bytes begin a record, encrypted or not, and which are refused |
| `TlsDelivery.SealedRecord` | src/tls/tls.c:531-603 | a whole record with its header, given to a connected engine: as WholeRecord has it, opened under the read key and number of the time |
| `Scrollback.SlotsApart` | src/m65/log.c:21-24 | slots of all views lie apart in attic memory |
| `Scrollback.SlotAddress` | src/m65/log.c:21-24 | slot i of view v is at 0x8000000, a megabyte a view, 96 bytes a row |
| `Scrollback.PlaceFound` | src/m65/log.c:53-73 | the wrapped 16-bit counters find the right slot however many rows there were |
| `Scrollback.Log.Append` | src/m65/log.c:39-49 | a row joins its view's unbounded history, of which the ring holds the last 8,192 |
| `Scrollback.Log.Draw` | src/m65/log.c:53-73 | the rows drawn are the right ones of the history, blanks past its end |
| `View.View.constructor` | src/m65/view.c:44-51 | one view, listed, on a screen that shows it |
| `View.View.ScrollUp` | src/m65/view.c:94-102 | the block move is the chat area up one row |
| `View.View.LiveRow` | src/m65/view.c:94-102 | scroll and append leaves what a full redraw would |
| `View.View.Redraw` | src/m65/view.c:120-131 | the chat area shows the view's rows at its scroll position |
| `View.View.Line` | src/m65/view.c:104-118 | the line's rows join the history, wrapped, and a showing view that is not scrolled back stays as a redraw would show it; the list of views and every scroll position stay |
| `View.View.Show` | src/m65/view.c:133-140 | a view of the list is shown where it was scrolled to; any other number changes nothing |
| `View.ScrolledIs` | src/m65/view.c:142-152 | the clamped position is back + n between zero and what the history has over the screen, while that fits 16 bits |
| `View.View.Scroll` | src/m65/view.c:142-152 | scrolled within the history in 16-bit arithmetic, and redrawn |
| `View.View.Open` | src/m65/view.c:53-67 | the first free slot with an empty history, on the next key; refused only when all are used |
| `View.View.Close` | src/m65/view.c:69-78 | exactly that view leaves the list, in order; the first one stays, and is shown where it was scrolled to if the closed one was shown |
| `View.ListOpen` | src/m65/view.c:53-67 | the order then lists the used views once each, the new one last |
| `View.ListClose` | src/m65/view.c:69-78 | and after a close, the remaining ones once each in their order |
| `View.AreaAppend` | src/m65/view.c:94-131 | a row more moves a redrawn area up by one, also when the oldest row leaves the ring |
| `View.View.MakeRow` | src/m65/view.c:104-118 | one row of a wrapped line: two spaces from the second row on, the codes, spaces to the end |
| `View.WrapKeepsText` | src/m65/view.c:104-118 | wrapping loses no character: the rows' text is the line's screen codes, one by one, and trailing spaces |
| `Floppy.BlockPlaced` | src/platform/m65_f011.c:139-144 | block (t, s) of an image is bytes 256 (40 (t - 1) + s) and on of the sectors end to end; of a real disk that place with the track's sides exchanged |
| `Floppy.BlockReplaced` | src/platform/m65_f011.c:340-362 | and a block written is those bytes replaced, all others as before |
| `Floppy.SectorApart` | src/platform/m65_f011.c:320-338 | two blocks share a sector only as its two halves |
| `Floppy.Floppy.ReadBlock` | src/platform/m65_f011.c:320-338 | a block of the disk is its bytes of the sectors laid end to end, and its half of its sector |
| `Floppy.Floppy.WriteBlock` | src/platform/m65_f011.c:340-362 | those bytes change and no others; every other block, its sector's other half included, stays |
| `Bam.Layout` | src/platform/m65_cbmdos.c:91-108 | a track's count is at byte 16 + 6 ((t - 1) mod 40) of its half of the map, and block s is free if and only if bit s mod 8 of byte s / 8 behind it is set |
| `Bam.Scan` | src/platform/m65_cbmdos.c:91-108 | the first free sector of a track, if there is one |
| `Bam.Find` | src/platform/m65_cbmdos.c:114-129 | the free block nearest to the directory track and never on it; none if and only if no data block is free |
| `Bam.AllocCounted` | src/platform/m65_cbmdos.c:156-168 | taking a free block keeps every track's count equal to its set bits |
| `Bam.FreeCounted` | src/platform/m65_cbmdos.c:135-146 | so does giving back a taken one |
| `Bam.FreeUndoesAlloc` | src/platform/m65_cbmdos.c:135-168 | bam_free undoes bam_alloc, bit and count |
| `Files.WriteOutside` | src/platform/m65_cbmdos.c:286-320 | a write to a block that no file or directory owns changes none of them |
| `Files.AllWritten` | src/platform/m65_cbmdos.c:396-409 | when the last block is written the disk is still the old one: nothing but free blocks was touched |
| `Files.Entered` | src/platform/m65_cbmdos.c:411-443 | with the entry made the file is the disk's, all but its free map |
| `Files.Saved` | src/platform/m65_cbmdos.c:79-86 | with the map saved the disk is well-formed: counts, owners, chains and map agree |
| `Files.Freed` | src/platform/m65_cbmdos.c:491-593 | a chain freed and its entry cleared leave the disk without exactly that file |
| `Stray.StraySpoils` | src/platform/m65_cbmdos.c:388-452 | an entry whose first block is free in the map, or that counts more blocks than are linked, is of no well-formed disk, whatever files one takes it to hold |
| `Stray.TwiceSpoils` | src/platform/m65_cbmdos.c:388-452 | nor are two entries of one name |
| `Stopped.MapDecides` | src/platform/m65_cbmdos.c:79-86 | all files of one image own the same blocks, so with its directory and chains in order it is well-formed if and only if its map has exactly the others free |
| `Stopped.GrowStopped` | src/platform/m65_cbmdos.c:344-381 | a directory growing, stopped at any write: every file still loads, and the disk is well-formed if and only if nothing was written |
| `Stopped.EnterStopped` | src/platform/m65_cbmdos.c:411-452 | a close, stopped at any write of entry and map: every other file still loads; not well-formed from the entry on until the part of the map that has the file's blocks is saved |
| `Stopped.DeleteStopped` | src/platform/m65_cbmdos.c:561-593 | the same of a delete |
| `CbmDos.Dos.Lookup` | src/platform/m65_cbmdos.c:175-220 | an entry of the name if there is one, over the whole directory chain |
| `CbmDos.Dos.Create` | src/platform/m65_cbmdos.c:227-284 | every error exactly when it is due; if not, an empty file of one block, the first free one, in memory only, whatever was open forgotten |
| `CbmDos.Dos.FoldName` | src/platform/m65_cbmdos.c:227-240 | a name cut to sixteen characters and folded to upper case |
| `CbmDos.Dos.PadName` | src/platform/m65_cbmdos.c:175-190 | and padded to sixteen as the directory has it |
| `CbmDos.Dos.Put` | src/platform/m65_cbmdos.c:286-320 | one byte more; full exactly when a filled block has no successor; at a filled block the next free one taken and linked; the disk's directory and map untouched, the map in memory loaded again in between or not |
| `CbmDos.Dos.FindSlot` | src/platform/m65_cbmdos.c:324-386 | an empty entry, the directory grown by a block of its track if need be; refused only when neither is there |
| `CbmDos.Dos.Close` | src/platform/m65_cbmdos.c:388-452 | a file sound until then enters an empty slot with all its bytes, its chain and count, and the disk is well-formed; a file whose map was loaded again, or whose name is on the disk, leaves one that no files fit; or, with no room in the directory, the files are as before |
| `CbmDos.ClosedAs` | src/platform/m65_cbmdos.c:388-452 | entry and map written: well-formed if and only if the file is whole and its name new |
| `CbmDos.Dos.WriteFile` | src/platform/m65_cbmdos.c:227-452 | create, N puts and close succeed if and only if the name is new, N/254 + 1 data blocks are free and the directory has room; the count is the chain's length |
| `CbmDos.BlocksFor` | src/platform/m65_cbmdos.c:286-320 | N bytes take N/254 + 1 blocks |
| `CbmDos.Dos.Delete` | src/platform/m65_cbmdos.c:491-593 | the named file goes, everything else stays, and the free blocks are more by its chain; a file being written has lost the blocks taken for it in memory, found or not, and its name |
| `CbmDos.DeletedBlocks` | src/platform/m65_cbmdos.c:491-593 | free afterwards are the blocks free before and exactly those of the deleted chain |
| `CbmDos.Dos.SelfLinked` | src/platform/m65_cbmdos.c:491-593 | create, a delete of an absent name, 254 bytes: the file's block is linked to itself |
| `CbmDos.Dos.Load` | src/platform/m65_cbmdos.c:595-638 | the file's bytes, or nothing if they are more than the caller allows; a file being written goes on with the buffer's bytes for its own |
| `CbmDos.JoggedSame` | src/platform/m65_cbmdos.c:595-687 | and that is the same file if and only if the buffer still holds its bytes |
| `CbmDos.Dos.OpenRead` | src/platform/m65_cbmdos.c:644-663 | the reader stands at the start of the named file; a file being written takes the name |
| `CbmDos.Dos.ReadNext` | src/platform/m65_cbmdos.c:665-687 | the next bytes and what is still to come make what was to come; nothing only at the end; an error and the end for a link off the disk |
| `CbmDos.Dos.RoundTrip` | src/platform/m65_cbmdos.c:227-687 | what was written is what is loaded and what the reader gives |
| `Marks.Bookmarks.Get` | src/m65/marks.c:67-79 | entry i's five fields, each cut to its buffer, for exactly the entries counted |
| `Marks.FieldIs` | src/m65/marks.c:67-79 | for fields within their buffers these are the fields that were added |
| `Marks.Bookmarks.CountEntries` | src/m65/marks.c:45-54 | the entries of any text, lines counted in eight bits, at most eight |
| `Marks.EntriesExact` | src/m65/marks.c:45-54 | a list of up to eight entries is counted right |
| `Marks.Bookmarks.WriteOut` | src/m65/marks.c:81-89 | the text is the file's if and only if the disk has room for it, the old file's blocks included; if not there is no file |
| `Marks.RoomWith` | src/m65/marks.c:81-89 | the disk has room if and only if its free blocks and the old file's are n/254 + 1 or more |
| `FullDisk.Full` | src/m65/marks.c:81-89 | a full disk that holds a bookmarks file of one block: well-formed, and with room for another if and only if it is under 254 bytes |
| `Marks.Bookmarks.Add` | src/m65/marks.c:102-112 | the entry appended and written if and only if there is a place, room in the text and room on the disk; the list as it was if not, and the file lost exactly when it was the disk |
| `Marks.RoomForEight` | src/m65/marks.c:92-112 | eight entries within their caps always fit the text |
| `Marks.ListWith` | src/m65/marks.c:102-112 | as a list, adding appends |
| `Marks.Bookmarks.Remove` | src/m65/marks.c:114-127 | the entry's lines taken out of the text in place, and the file written if and only if the disk has room |
| `Marks.ListWithout` | src/m65/marks.c:114-127 | as a list, removing takes out exactly entry i |
| `Marks.Bookmarks.Load` | src/m65/marks.c:56-65 | the lines of the file with their count; nothing for a missing, oversized or foreign one |
| `Marks.Bookmarks.AddAndReload` | src/m65/marks.c:56-112 | what was added is what a fresh load through the filesystem gives back |
| `Marks.Bookmarks.RemoveAndReload` | src/m65/marks.c:56-127 | after a remove, a fresh load gives back the list without exactly that entry |

## Left out

- The assembly and the `__mos__` branches (`mp_asm_m`, the machine's multiplier, DMA, bank switching): the portable C is modelled.
- Primality of the moduli and associativity of the curve group are hypotheses (`Ecdsa.Sound`, `Curve.Field`), as is Fermat's theorem where an inverse is claimed.
- Pkcs1.Verify: for odd moduli, as mp.h asks of its callers; of an even one, which the function does not refuse, nothing is said.
- Ecdsa.Verify: the constants and inputs are separate byte arrays that no step writes; `crypto_yield` and the self-test's step counter have no part in it.
- Shamir.Mul: `p256_keygen` and `p256_ecdh` around it are not modelled; their checks and the affine x are those of `Ecdsa.LoadKey` and `Ecdsa.XCoordinate`.
- Field25519.FeMul: the static limb buffers are fresh arrays; that they are shared between calls is not modelled.
- Field25519.FeInv: stated for chains in which no product drops a carry.
- ChaCha20, SHA-512, SHA-384, HKDF and the key schedule: `Aead` takes the block function as a parameter.
- The X25519 ladder, Ed25519 point arithmetic and verification, and `rsa.c`'s PSS.
- The TLS kit (key exchange, hashes, keys, opening, sealing, certificate checks) is a record of functions without meaning of their own; decryption is a function of key, bytes before and byte, which is what makes it independent of pieces.
- TlsEngine.Engine.HsFeed: the handshake's message handlers (server_hello, server_finished, msg_end) are functions on the state's value that the engine assigns, not separate in-place methods.
- TlsMessages.HelloIs: names under 65,024 bytes; a longer one would overflow the lengths of the hello.
- TlsMessages.CertificateTaken: entries without a certificate, which section 4.4.2 of RFC 8446 does not allow.
- TlsRuns.WriteQueues: `tls_write_here`, and the 16-bit wrap of the out length for server names of tens of thousands of bytes, are not modelled.
- The engine's diagnostics (the line number and record index of a failure).
- TlsRuns.CutAnywhere: no call may begin inside a plaintext alert record, which is where the code depends on the cut.
- Der: `der_tbs`, the field selection and OID comparison.
- View: colours, the status bar, name lookup and what `view_bar` draws; the screen is its characters.
- Scrollback: attic memory is rows by address, not a byte array behind DMA.
- Floppy.Floppy.ReadBlock: motor, retries, register waits and failing sectors; a block outside the disk is the only error.
- Floppy.Floppy.WriteBlock: the same, and write protection.
- CbmDos.Dos.Put: write protection and write errors; the writer's block and the free map are values in the class's fields.
- CbmDos.Dos.FindSlot: read and write errors; what a growth of the directory leaves that stops is `Stopped.GrowStopped`.
- CbmDos.Dos.Close: write errors; what is left is `Stopped.EnterStopped`. Of an unsound file with 65,536 blocks or more, whose count wraps, nothing is said.
- CbmDos.Dos.Delete: read and write errors; what the writes leave is `Stopped.DeleteStopped`.
- CbmDos: directory listing and the free-block display.
- Marks.Bookmarks.Load: a file whose lines are 96 bytes or longer, or whose last line has no newline, is loaded but nothing is said of its entries.
- Network, keyboard, session loop, commands, clock, base64, policy and roots.
