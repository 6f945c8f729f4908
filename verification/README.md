# Verification of the GOST TLS stack

A Dafny model of the self-written GOST TLS 1.2 client (cipher suite 0xFF85) and of the text codecs of its
HTTP bridge, with proofs. `dafny verify dfyconfig.toml` checks everything.

The model follows the program from the bottom up, one module per component:

| file | module | what it models |
|---|---|---|
| `bytes.dfy` | `Bytes` | machine words, byte order, exclusive or, constant-time comparison |
| `gost28147.dfy`, `cnt.dfy`, `imit.dfy` | `Gost28147`, `CntMode`, `ImitMode` | the block cipher (RFC 5830), the keystream and the authentication code with key meshing (RFC 4357 section 2.3.2) |
| `record.dfy`, `lockstep.dfy` | `RecordProtection`, `LockStep` | record protection (RFC 9189 section 4.3.2) and two connected ends as a state machine |
| `numbertheory.dfy`, `curve.dfy`, `scalar.dfy`, `vko.dfy` | `NumberTheory`, `EllipticCurve`, `ScalarMultiplication`, `Vko` | Fermat inversion, the point law, double-and-add, the key agreement (RFC 7836 section 4.3.1) |
| `keywrap.dfy`, `der.dfy`, `keytransport.dfy` | `KeyWrap`, `Der`, `KeyTransport` | key wrap (RFC 4357 section 6), the DER blob and the walker that reads it |
| `prf.dfy`, `messages.dfy`, `tls.dfy`, `handshake.dfy`, `login.dfy` | `Prf`, `HandshakeMessages`, `Tls`, `ClientSide`, `Login` | key derivation, received message bodies, records and reassembly, the client object, the login driver (RFC 5246) |
| `certificate.dfy` | `CertificateWalk` | the search for the public key in a certificate (RFC 5280 section 4.1) |
| `appstream.dfy`, `agreement.dfy` | `ApplicationStream`, `LoginAgreement` | the application byte stream, and the end-to-end agreement with a server |
| `witness.dfy` | `Witness` | the hypotheses of the agreement theorems can be met |
| `text.dfy`, `urls.dfy`, `multipart.dfy`, `chunked.dfy` | `Text`, `UrlRewriting`, `Multipart`, `Chunked` | URL rewriting and routing, form bodies, the chunked coding (RFC 9112 section 7.1) |

Mutable objects of the program are classes with the same fields; their methods are proved against values
(`View`, `Position`, `Absorbed`), and the theorems are about those values. The main results:

* Two ends of a connection stay in step in every interleaving (`LockStep.FullDuplexLockStep`).
* The whole login succeeds exactly on the server's true verify data and leaves both ends in step
  (`LoginAgreement.LoginAgrees`); the server's private key suffices to follow it
  (`LoginAgreement.ServerKeyRecoversPremaster`), and the session then carries data both ways
  (`LoginAgreement.SessionDelivers`).
* Streaming keystream and authentication code equal their whole-message definitions under every chunking.
* Point addition is closed and commutative over every prime field, down to Fermat's little theorem.
* What an operation computes is also stated in terms other than its own definition: the round function nibble by nibble
  (`Gost28147.RoundFunctionByNibble`), the sum of two points by chord and squared slope
  (`EllipticCurve.ChordSumExactly`), seeds and keystream by what they decrypt to (`CntMode.GammaDecrypts`), what a
  record's code covers (`LockStep.RecordEntersCode`), derived keys by hash blocks (`Prf.KeysAreBlocks`), every message
  by the place and value of its fields.
* Every codec is undone by its decoder, with the exact condition where it is not for all inputs.

Some promises hold only under a condition, which the theorems state exactly:

* `recv_all_application_data` is documented to yield the complete response. It takes any end of the stream for its
  end, so it yields the complete payload exactly when the stream was not cut
  (`ApplicationStream.CompleteExactlyWhenUncut`).
* `decode_chunked` is documented to tolerate a body that stops early. A chunk size close to the machine word
  overflows the sum with its position, and the program stops at an impossible slice. Decoding completes exactly when
  no size line reached does that (`Chunked.CompletesExactly`, with the inputs `OversizedAborts` and
  `BeginningMayDecode`).
* A rewritten address such as `https://x.nalog.ru?q` is not routed back to its host, because the router looks for
  the next slash only (`UrlRewriting.RouteUndoesRewrite`).
* `parse_multipart_fields` undoes `build_multipart_form` exactly for the names and values described by
  `Multipart.RoundTripExactly`; the boundary may be empty.
* Lengths cut to their fields: which inputs survive is said exactly by `Tls.RecordRoundTripExactly` and
  `Login.SniRoundTripExactly` (16 bits), `Tls.FrameRoundTripExactly`,
  `HandshakeMessages.CertificateRoundTripExactly` and `HandshakeMessages.LeafIsFoundExactly` (24 bits),
  and `Der.PeekEncoded` (32 bits).

Parameters: the Streebog hash is an arbitrary function with a 32-byte result, the token an arbitrary signing function,
entropy, randoms and the list of known curves are inputs (the program's list is `KeyTransport.KnownCurves`), the socket
is the sequence of bytes still to be read and the bytes written. Integers are unbounded; where a machine word of the
program can wrap around or be cut, the model writes it out, for the arithmetic of a release build.

## Model

| member | source | states |
|---|---|---|
| `Gost28147.RoundFunction` | src/gost28147.rs:46-56 | the loop over eight nibbles is the substitution of every nibble of `a + k` mod 2^32, rotated left by 11 |
| `Gost28147.RoundFunctionByNibble` | src/gost28147.rs:46-56 | rotated back by 11 bits, nibble i of the round function is S-box row i at nibble i of `a + k` mod 2^32, for every i |
| `Gost28147.RoundFunctionSamples` | src/gost28147.rs:24-56 | the round function takes two inputs of RFC 8891 appendix A.2 to the outputs given there |
| `Gost28147.ComputeSchedule` | src/gost28147.rs:61-70 | the filled array is words 0-7 three times and then words 7-0 |
| `Gost28147.ScheduleAt` | src/gost28147.rs:61-70 | which key word each of the 32 rounds uses |
| `Gost28147.SubkeyBytes` | src/gost28147.rs:61-104 | byte j of subkey i is the key byte at 4w + j, where w counts 0-7 three times and then 7-0 |
| `Gost28147.FeistelNetwork` | src/gost28147.rs:74-83 | 31 swapping rounds and a last one without swap are 32 swapping rounds followed by one swap |
| `Gost28147.FirstRounds` | src/gost28147.rs:147-155 | the MAC step is the first 16 swapping rounds |
| `Gost28147.RoundsUndo` | src/gost28147.rs:74-83 | for any list of subkeys, the reversed list over swapped halves undoes the rounds |
| `Gost28147.BlockCipherInverse` | src/gost28147.rs:111-132 | block encryption and decryption undo each other in both orders, for every schedule |
| `Gost28147.BlockFollowsTrace` | src/gost28147.rs:111-119 | an encrypted block holds the last two terms of the recurrence `x[i+2] = x[i] xor g(k[i], x[i+1])` that starts with the words of the block |
| `Gost28147.NextMeshKey` | src/gost28147.rs:235-253 | the next key of the meshing chain is the block-wise decryption of the fixed constant |
| `Gost28147.MeshedKeyEncrypts` | src/gost28147.rs:235-253 | the next key of the chain, enciphered block by block under the key before it, is the fixed constant |
| `CntMode.Counter1Step` | src/gost28147.rs:211-231 | one addition mod 2^32 takes the closed form `s + k * 0x01010101` from k to k + 1 |
| `CntMode.Counter2Step` | src/gost28147.rs:211-231 | the end-around-carry addition takes the closed form from k to k + 1 and never gives zero |
| `CntMode.Counter2Characterised` | src/gost28147.rs:211-231 | after k >= 1 steps the second counter is the only value of 1 .. 2^32-1 congruent to `s + k * 0x01010104` modulo 2^32-1 |
| `CntMode.CounterLaws` | src/gost28147.rs:211-231 | in literals: counter 1 after k steps is `s + k * 0x01010101` mod 2^32, counter 2 is the representative of `s + k * 0x01010104` in 1 .. 2^32-1 |
| `CntMode.FirstSeedDecrypts` | src/gost28147.rs:192-208 | the first two counters decrypt under the key to the initial vector |
| `CntMode.MeshedSeedDecrypts` | src/gost28147.rs:235-253 | epoch e runs under the e-times meshed key, and its first counters decrypt under it to the last counters of epoch e - 1 |
| `CntMode.GammaDecrypts` | src/gost28147.rs:211-231 | keystream block k decrypts, under the key of epoch k / 128, to the counters advanced by k mod 128 + 1 steps |
| `CntMode.CntKeystream.constructor` | src/gost28147.rs:192-208 | a new generator stands at position 0 of the stream of its key and initial vector |
| `CntMode.CntKeystream.NextBlock` | src/gost28147.rs:211-231 | the next block is block number `blocks` of the one keystream, across the delayed meshing |
| `CntMode.CntKeystream.Mesh` | src/gost28147.rs:235-253 | meshing takes key and counters to the seeds of the next epoch |
| `CntMode.CntKeystream.Apply` | src/gost28147.rs:257-266 | data of any length is combined in place with the next bytes of the keystream, across buffer and epoch edges |
| `CntMode.MaskedChunking` | src/gost28147.rs:257-266 | every chunking of the data is masked with one and the same keystream |
| `CntMode.MaskedTwice` | src/gost28147.rs:257-266 | the same stretch of keystream restores the data |
| `CntMode.MaskedByte` | src/gost28147.rs:257-266 | bit by bit, masked data differs from the data exactly where the keystream byte at its place has a one |
| `ImitMode.Imit` | src/gost28147.rs:272-304 | the one-shot code is the fold over the zero-padded message without meshing |
| `ImitMode.FoldPrefix` | src/gost28147.rs:345-397 | data appended later leaves the state on whole blocks as it was |
| `ImitMode.TagByStates` | src/gost28147.rs:272-304 | given the states of the message, each 16 terms of the recurrence after mixing in a block, the code is the low word of the last one, lowest byte first |
| `ImitMode.BlockByte` | src/gost28147.rs:272-304 | byte j of block k is byte 8k + j of the message and zero behind its end |
| `ImitMode.ImitContext.AbsorbBlock` | src/gost28147.rs:345-355 | one more whole block is folded, under a key meshed before block k exactly when k > 0 is a multiple of 128 |
| `ImitMode.ImitContext.Update` | src/gost28147.rs:370-397 | what is absorbed grows by the data, whatever is in the partial tail |
| `ImitMode.ImitContext.Finalize` | src/gost28147.rs:401-422 | the code is that of everything absorbed, pending meshing included, and the context is not changed |
| `RecordProtection.DirectionState.Authenticate` | src/gost_record.rs:55-70 | the header with the length cut to 16 bits and the fragment join the running code, which is never reset |
| `RecordProtection.MacedLayout` | src/gost_record.rs:55-70 | field by field, the code of a record covers its 64-bit number, type, version, the low 16 bits of the length and the fragment |
| `RecordProtection.RecordCrypto.Protect` | src/gost_record.rs:97-118 | protecting seals the fragment and advances only the writing direction |
| `RecordProtection.SealedContent` | src/gost_record.rs:97-118 | under the keystream from the writer's position a sealed record hides the fragment and the code of everything so far, this record included |
| `RecordProtection.RecordCrypto.Unprotect` | src/gost_record.rs:122-149 | opening returns fragment, short or bad code; after a bad code the streams have advanced and the sequence number has not |
| `RecordProtection.RefusedRecord` | src/gost_record.rs:122-149 | a payload is short exactly below four bytes and then changes nothing; after a bad code, which differs from the true one, keystream and running code have advanced and the sequence number has not |
| `RecordProtection.OpenAfterSeal` | src/gost_record.rs:97-149 | a reader in the writer's state recovers the fragment and lands in the writer's new state |
| `RecordProtection.AcceptedExactlyWhenSealed` | src/gost_record.rs:122-149 | a payload is accepted as a fragment if and only if a writer in the reader's state would have produced it |
| `Bytes.ConstantTimeEq` | src/gost_record.rs:153-162 | the accumulating comparison is equality |
| `LockStep.FullDuplexLockStep` | src/gost_record.rs:97-149 | in every interleaving of sends and receipts on two connected ends, every receipt opens to exactly the next fragment sent, and each reader's state is the writer's state as of that record |
| `LockStep.DrainedEndsAgree` | src/gost_record.rs:97-149 | with empty channels both ends hold the same two states and everything sent has arrived |
| `LockStep.SealAllCounts` | src/gost_record.rs:97-118 | the sequence number is the number of records sealed modulo 2^64, and the keystream position is the sum of their lengths |
| `LockStep.RecordEntersCode` | src/gost_record.rs:55-118 | of any list of records, record i enters the running code behind all before it with number (start + i) mod 2^64, and later records leave it there |
| `NumberTheory.EuclidsLemma` | src/gost_ec.rs:66-69 | a prime dividing a product divides a factor; what field inversion rests on |
| `NumberTheory.Fermat` | src/gost_ec.rs:66-69 | a^p is congruent to a modulo every prime p |
| `NumberTheory.ModInvInverts` | src/gost_ec.rs:66-69 | the power p - 2 inverts every non-zero residue modulo a prime |
| `EllipticCurve.OnCurveIsEquation` | src/gost_ec.rs:95-106 | the reduced comparison is the curve equation over the integers modulo p |
| `EllipticCurve.ChordSlope` | src/gost_ec.rs:128-147 | the quotient computed for two distinct abscissas is the slope of the chord |
| `EllipticCurve.TangentSlope` | src/gost_ec.rs:109-125 | the quotient computed when doubling is the slope of the tangent |
| `EllipticCurve.DoubleClosed` | src/gost_ec.rs:109-125 | doubling maps reduced curve points to reduced curve points, for every prime p > 3 |
| `EllipticCurve.AddClosed` | src/gost_ec.rs:128-147 | addition maps reduced curve points to reduced curve points, for every prime p > 3 |
| `EllipticCurve.AddCommutes` | src/gost_ec.rs:128-171 | addition is commutative, although the two formulas anchor at different points |
| `EllipticCurve.AddIsInfinityExactlyOnOpposites` | src/gost_ec.rs:128-147 | a sum is infinity if and only if the points are opposite |
| `EllipticCurve.ChordSumExactly` | src/gost_ec.rs:128-171 | a reduced point is the sum of two points with distinct abscissas if and only if its opposite lies on their chord and the three abscissas add up to the squared slope |
| `EllipticCurve.TangentSumExactly` | src/gost_ec.rs:109-125 | a reduced point is the double of a point with non-zero ordinate if and only if its opposite lies on the tangent and the abscissas add up to the squared slope |
| `ScalarMultiplication.ScalarMul` | src/gost_ec.rs:174-188 | the loop over the bits from the top is double-and-add |
| `ScalarMultiplication.DoubleAndAddIsTimes` | src/gost_ec.rs:174-188 | double-and-add is the k-fold sum, given associativity |
| `ScalarMultiplication.TimesTimes` | src/gost_ec.rs:174-188 | a multiple of a multiple is the multiple by the product |
| `ScalarMultiplication.KilledExactlyByMultiples` | src/gost_ec.rs:174-188 | for a point of prime order q other than infinity, k times the point is infinity if and only if q divides k |
| `ScalarMultiplication.DecodeAfterEncode` | src/gost_ec.rs:191-222 | every finite reduced curve point is decoded from its encoding |
| `ScalarMultiplication.EncodeAfterDecode` | src/gost_ec.rs:191-222 | every accepted string, canonical or not, is the encoding of its point |
| `ScalarMultiplication.PointLayout` | src/gost_ec.rs:191-207 | the first half of an encoded point has the value of the abscissa, the second that of the ordinate, lowest byte first; infinity has no encoding |
| `ScalarMultiplication.FieldBytesLeast` | src/gost_ec.rs:191-195 | a coordinate takes the least number of bytes that holds the field prime |
| `KeyTransport.GeneratorsOnCurves` | src/gost_ec.rs:248-285 | the generators of the three parameter sets are reduced points of their curves |
| `KeyTransport.KnownFieldBytes` | src/gost_ec.rs:191-285 | on each of the three curves a coordinate takes 32 bytes |
| `Vko.VkoPointIsMultiple` | src/gost_vko.rs:23-32 | the agreement point is the multiple by ukm, own and peer scalar, the reduction modulo q notwithstanding |
| `Vko.Vko256Hashes` | src/gost_vko.rs:23-32 | the key is the hash of whichever string of twice the field length holds the two coordinates of the agreement point |
| `Vko.VkoSymmetric` | src/gost_vko.rs:23-37 | both sides of the agreement compute the same point |
| `Vko.VkoFiniteExactly` | src/gost_vko.rs:23-32 | the agreement ends at infinity if and only if the ukm or one of the private keys is zero modulo q |
| `Vko.EphemeralIsUsable` | src/gost_vko.rs:51-65 | whatever the entropy, the private key is its big-endian residue modulo q, one in place of zero, and the public point is that multiple of the generator, finite and on the curve |
| `KeyWrap.EncryptEcbLe` | src/gost_keywrap.rs:26-33 | the appending loop is block-wise encryption |
| `KeyWrap.EncryptCfbLe` | src/gost_keywrap.rs:47-60 | the loop with the feedback variable is cipher feedback |
| `KeyWrap.EcbInverse` | src/gost_keywrap.rs:26-43 | block-wise encryption and decryption undo each other on whole blocks |
| `KeyWrap.CfbFeedsBack` | src/gost_keywrap.rs:47-60 | each ciphertext block is its data block masked by the encryption of the ciphertext block before it, the first by that of the initial vector |
| `KeyWrap.KekDiversify` | src/gost_keywrap.rs:64-90 | the nested loops are eight diversification steps, each with the sums selected by one byte of the ukm |
| `KeyWrap.DiversifyStepIs` | src/gost_keywrap.rs:64-90 | with the sums mod 2^32 of the key words at the set and at the clear bits of the byte as low and high word of the initial vector, each block of the new key is the old block masked by the encryption of the block before |
| `KeyWrap.DiversifyByBytes` | src/gost_keywrap.rs:64-90 | the bytes of the ukm act one after the other, the first one on the key itself |
| `KeyWrap.GostKeyWrap` | src/gost_keywrap.rs:130-144 | wrapping encrypts and authenticates under the diversified key |
| `KeyWrap.WrapHolds` | src/gost_keywrap.rs:130-144 | under the diversified key, the wrapped form holds the ukm, the enciphered key and the code of the bare key without meshing from the ukm as initial state |
| `KeyWrap.GostKeyUnwrap` | src/gost_keywrap.rs:148-160 | unwrapping decrypts and compares the code |
| `KeyWrap.UnwrapExactlyWrapped` | src/gost_keywrap.rs:130-160 | unwrapping gives a key if and only if wrapping that key gives the wrapped form |
| `KeyWrap.ToBytes` | src/gost_keywrap.rs:101-107 | the 44-byte array is ukm, encrypted key and code |
| `KeyWrap.FromBytesExactly` | src/gost_keywrap.rs:99-126 | parsing accepts exactly the serialised forms |
| `Der.EncodeLength` | src/gost_keytransport.rs:78-92 | the loop on a shrinking number and the reversal give the minimal definite-form length |
| `Der.LengthForm` | src/gost_keytransport.rs:78-92 | one byte below 128, otherwise a count with the high bit set and as many bytes of the value, without a leading zero |
| `Der.EncodeOidArc` | src/gost_keytransport.rs:109-119 | the loop and the reversal give the base-128 digits with continuation bits |
| `Der.EncodeOid` | src/gost_keytransport.rs:122-132 | the appended arcs form one object identifier element |
| `Der.ArcsReadBack` | src/gost_keytransport.rs:109-132 | an independent reader of seven bits a byte, going on while the high bit is set, gets back any list of arcs |
| `KeyTransport.ParamZBytes` | src/gost_keytransport.rs:122-132 | 1.2.643.7.1.2.5.1.1 is 06 09 2A 85 03 07 01 02 05 01 01 |
| `Der.PeekTlv` | src/gost_login.rs:657-690 | the accumulating loop reads the big-endian length |
| `Der.PeekEncoded` | src/gost_login.rs:657-690 | the walker reads an encoded element back if and only if its length is below 2^32 |
| `Der.PeekIsLocal` | src/gost_login.rs:657-690 | what is read of an element does not depend on the bytes after it |
| `KeyTransport.DetectCurveAndPoint` | src/gost_vko.rs:150-162 | the loop returns the first known curve the point decodes on |
| `KeyTransport.DetectFirst` | src/gost_vko.rs:150-162 | no curve is detected exactly when the point lies on none of them, otherwise the first on which it lies |
| `KeyTransport.PrepareKeyTransport` | src/gost_vko.rs:117-147 | ephemeral key, agreement and the public key info content, with both error cases |
| `KeyTransport.WriteTransportParameters` | src/gost_keytransport.rs:157-173 | the appended elements: identifier, optional ephemeral key, ukm |
| `KeyTransport.WriteClientKeyExchange` | src/gost_keytransport.rs:59-75 | the message is the wrapped premaster in the doubly nested blob |
| `KeyTransport.KeyExchangeLayout` | src/gost_keytransport.rs:39-196 | the message byte by byte: two sequences around session key and parameters, wrapped with the first eight bytes of the hash of client random and server random |
| `KeyTransport.WalkEncoded` | src/gost_keytransport.rs:143-196 | walking the encoded blob returns every field put into it |
| `KeyTransport.PointOfSpkiContent` | src/gost_login.rs:588-614 | the point put behind any complete algorithm element is extracted again |
| `KeyTransport.BothSidesAgree` | src/gost_vko.rs:23-65 | ephemeral and server key lead both sides to the same secret |
| `KeyTransport.ServerRecoversPremaster` | src/gost_keytransport.rs:59-75 | a server that walks the message, decodes the ephemeral point, agrees and unwraps recovers exactly the client's premaster |
| `Prf.HmacStreebog256` | src/gost_prf.rs:42-73 | the padded arrays and two hashes are the keyed hash, keys longer than a block hashed first |
| `Prf.HmacInputs` | src/gost_prf.rs:42-73 | the two hash inputs byte by byte: 64 key bytes under 0x36 before the data, 64 under 0x5c before the inner hash |
| `Prf.PHash` | src/gost_prf.rs:77-95 | the filled buffer is the beginning of the one infinite stream |
| `Prf.PrefixStable` | src/gost_prf.rs:77-95 | fewer bytes are a prefix of more bytes, for all lengths |
| `Prf.StreamIsBlocks` | src/gost_prf.rs:77-95 | the stream is the sequence of whole keyed-hash blocks over the chain, cut to length |
| `Prf.MasterSecretIs` | src/gost_prf.rs:124-136 | for the chain of the label, client random and server random, the master secret is the first keyed-hash block and half of the second |
| `Prf.SplitKeyBlock` | src/gost_prf.rs:154-186 | the advancing offset cuts the material into the six keys |
| `Prf.KeysCoverMaterial` | src/gost_prf.rs:154-186 | the six slices put together are the 144 bytes, without gap or overlap |
| `Prf.KeysAreBlocks` | src/gost_prf.rs:154-186 | for the chain of the label, server random and client random, the four long keys are the first four blocks and the initial vectors the two quarters of the fifth that come first |
| `Prf.FinishedIs` | src/gost_prf.rs:200-209 | the verify data is twelve bytes of the keyed hash over the chain entry, the label and the hash of the transcript |
| `Prf.FinishedLabels` | src/gost_prf.rs:191-194 | the bytes of the two labels, in numbers |
| `Tls.RecordRoundTripExactly` | src/tls.rs:234-242 | a record is read back as written, with the rest of the wire intact, if and only if its payload is shorter than 2^16 |
| `Tls.RecordLayout` | src/tls.rs:234-242 | a record field by field: type code, version, the low 16 bits of the length, payload |
| `Tls.TlsTransport.RecvRecord` | src/tls.rs:627-645 | two exact reads: the wire was the encoding of the record returned followed by what is left; there is none exactly for a short header, an unknown type or a short payload |
| `Tls.ReadIsEncoded` | src/tls.rs:627-645 | whatever is read as a record stands on the wire as its encoding |
| `Tls.TlsTransport.RecvHandshakeMessage` | src/tls.rs:588-624 | the receive loop is the reassembly function on buffer and wire, with its error cases |
| `Tls.TlsTransport.DrainHandshakeMessages` | src/tls.rs:711-732 | the drain loop takes off and decodes complete messages up to the first that does not decode |
| `Tls.DrainTypedExactly` | src/tls.rs:711-732 | draining succeeds if and only if every complete message decodes, and then returns them all and keeps the remainder |
| `Tls.DecodeAllExactly` | src/tls.rs:370-397 | a buffer decodes if and only if it drains without remainder and every message decodes |
| `Tls.FrameRoundTripExactly` | src/gost_handshake.rs:17-24 | a framed message is found whole in front of anything if and only if its body fits the 24-bit length |
| `Tls.FrameLayout` | src/gost_handshake.rs:17-24 | a framed message field by field: type, the low 24 bits of the length, body |
| `Tls.RecvConsumed` | src/tls.rs:588-624 | conversely, the records consumed by a receipt carry exactly the frame returned and what is buffered beyond it |
| `Tls.RecvFirst` | src/tls.rs:588-624 | for every cutting into records, the first message is returned and buffer and wire hold the rest |
| `Tls.Reassembly` | src/tls.rs:588-624 | for every list of messages and every cutting of their frames into records of any versions, repeated receipt returns exactly the list and keeps the unread suffix |
| `Tls.RecordIsReceived` | src/tls.rs:588-624 | what one record does to a receipt that waits for more: content is appended, an alert is reported with level and description, other types are errors |
| `Tls.DrainReframes` | src/tls.rs:711-732 | re-framing what was drained and appending the remainder rebuilds the buffer |
| `Tls.DrainSplitsLikeRecv` | src/tls.rs:711-732 | the first n receipts return the first n messages drained, touch nothing on the wire and leave a buffer that drains to the others |
| `Tls.DrainFrames` | src/tls.rs:711-732 | framed messages followed by an incomplete one drain to the list and leave that one |
| `ClientSide.WriteClientHello` | src/gost_handshake.rs:84-113 | the pushed bytes are version, random, session id, suites, compression and extensions with their lengths |
| `ClientSide.ClientHelloLayout` | src/gost_handshake.rs:84-113 | the value of every field and length field of a client hello at its place |
| `ClientSide.SuiteBytes` | src/gost_handshake.rs:97-101 | suite i has its value in bytes 2i and 2i + 1 of the list |
| `ClientSide.EncodeCertificates` | src/gost_client.rs:118-133 | the loop writes each certificate behind a 24-bit length and the list behind its own |
| `HandshakeMessages.CertificateAt` | src/gost_client.rs:118-133 | certificate j stands, behind the low 24 bits of its length, after three bytes and the content of each certificate before it |
| `HandshakeMessages.Reader.Take` | src/tls.rs:186-196 | the cursor moves over exactly the bytes returned, or not at all |
| `HandshakeMessages.Reader.Vector` | src/tls.rs:213-221 | the next vector behind its length, and the cursor after it |
| `HandshakeMessages.ParseCertificateMessage` | src/tls.rs:292-301 | the cursor loop is the recursive list parser |
| `HandshakeMessages.ParseServerHelloMessage` | src/tls.rs:257-281 | the cursor reads version, random, session id, suite, compression and optional extensions, with every rejection |
| `HandshakeMessages.HelloFields` | src/tls.rs:257-281 | in closed form over byte positions: when a hello is accepted and where each of its fields stands |
| `HandshakeMessages.ServerHelloRoundTripExactly` | src/tls.rs:257-281 | a hello is read back from its wire form if and only if session id and extensions fit their lengths |
| `HandshakeMessages.DecodeHandshakeMessages` | src/tls.rs:370-397 | the cursor loop is the recursive decoder of a buffer |
| `HandshakeMessages.CertificateRoundTripExactly` | src/gost_client.rs:118-133 | the list parser undoes the encoder if and only if the list fits its 24-bit length |
| `HandshakeMessages.LeafIsFoundExactly` | src/gost_login.rs:539-555 | the leaf is extracted from the encoded chain if and only if it fits its own length and what the list length leaves of the list |
| `ClientSide.ClientHandshake.KeyExchange` | src/gost_client.rs:141-175 | the message joins the transcript and all secrets and record states are set, or the missing server random is reported and nothing changes |
| `ClientSide.ClientHandshake.ClientFinished` | src/gost_client.rs:198-207 | the verify data covers the transcript before Finished, which then joins it |
| `ClientSide.ClientHandshake.VerifyServerFinished` | src/gost_client.rs:211-224 | accepted exactly for the verify data of the present transcript; the object is not changed |
| `ClientSide.VerdictTellsTranscripts` | src/gost_client.rs:211-224 | there are a hash and two transcripts for which the same verify data is accepted over one and refused over the other |
| `Login.SniRoundTripExactly` | src/gost_login.rs:516-534 | the host is read back through all three lengths if and only if it fits them |
| `Login.HelloBodyIs` | src/gost_login.rs:205-224 | the client's first message: TLS 1.2, its random, no session, its suites, null compression, the server name as only extension |
| `Login.FirstFlightIs` | src/gost_login.rs:216-226 | the hello goes out as message type 1 in a handshake record of its own, and the transcript starts with everything behind the record header |
| `Login.AlgorithmIsElement` | src/gost_login.rs:621-646 | what is extracted as the algorithm identifier is one complete element |
| `Login.ReadServerFlight` | src/gost_login.rs:228-268 | the receive loop up to ServerHelloDone, with all its rejections, as a function of buffer and wire |
| `Login.SendIdentity` | src/gost_login.rs:298-342 | Certificate, ClientKeyExchange and CertificateVerify in this order, the token signing the transcript in between |
| `Login.IdentityIs` | src/gost_login.rs:298-342 | the token signs the hash of the transcript up to and including the key exchange, the transcript grows by exactly the three messages sent, and the record keys are assigned by direction |
| `Login.FinishIs` | src/gost_login.rs:344-361 | the record 14 03 03 00 01 01, then the sealed Finished with the client's verify data over the transcript before it |
| `Login.FinishServer` | src/gost_login.rs:363-409 | ChangeCipherSpec, the protected Finished and its verdict, with every error case |
| `Login.RunLogin` | src/gost_login.rs:205-409 | the whole run on a transport: result, final state, bytes sent and bytes left |
| `LoginAgreement.FlightIsRead` | src/gost_login.rs:228-268 | an acceptable flight is read to its end under every cutting into records, empty ones included as long as none follows the end, and nothing beyond it is touched |
| `LoginAgreement.AcceptedFlightIsFolded` | src/gost_login.rs:228-268 | conversely every accepted flight is such a message list: the records consumed carry exactly its frames up to what is still buffered, and the transcript has grown by the same bytes |
| `LoginAgreement.ServerAcceptsClient` | src/gost_login.rs:350-361 | a server with the same secrets and bytes accepts the client's Finished over an equal transcript |
| `LoginAgreement.ClientAcceptsServerExactly` | src/gost_login.rs:363-409 | of the answers a server sends, the client accepts exactly the one with the verify data of the common transcript |
| `LoginAgreement.FinishLoginExactly` | src/gost_login.rs:363-409 | on every wire the client completes the login if and only if the wire starts with a ChangeCipherSpec record and a record sealed in its reading state whose Finished carries the verify data of its transcript |
| `LoginAgreement.ServerFollows` | src/gost_login.rs:205-409 | a server reading all the client sent holds equal transcripts at both Finished messages and the crossed record states |
| `LoginAgreement.LoginAgrees` | src/gost_login.rs:205-409 | for every acceptable flight and cutting, a server answer completes the login exactly when it carries the true verify data, and both ends are then pairwise in step at sequence 1 |
| `LoginAgreement.LoginSucceedsExactly` | src/gost_login.rs:205-409 | whatever follows the flight on the wire, the login succeeds if and only if it is an answer sealed in the server's state over the server's transcript; the client then reads in the state the server is left in |
| `LoginAgreement.ServerKeyRecoversPremaster` | src/gost_login.rs:275-296 | the server need not share the premaster: the certificate's private key recovers it from the key exchange it reads |
| `LoginAgreement.SessionDelivers` | src/gost_login.rs:112-193 | after such a login, whatever either end sends is what the other end's drain loop returns |
| `ApplicationStream.ChunksPartition` | src/gost_login.rs:112-131 | the chunks lose nothing, keep to 16384 bytes, are empty only for an empty payload, and are as few as possible |
| `ApplicationStream.LoginSession.SendApplicationData` | src/gost_login.rs:112-131 | the loop sends exactly the protected chunks and advances the writer, or reports missing record protection |
| `ApplicationStream.LoginSession.RecvApplicationData` | src/gost_login.rs:134-152 | one record is received and opened, with every error case |
| `ApplicationStream.LoginSession.RecvAllApplicationData` | src/gost_login.rs:159-193 | the drain loop is the collecting function on wire and reader |
| `ApplicationStream.StreamDelivered` | src/gost_login.rs:112-193 | for any payloads sent one after the other the drain returns their concatenation and ends in the writer's state |
| `ApplicationStream.CompleteExactlyWhenUncut` | src/gost_login.rs:159-193 | the drain succeeds on a stream cut anywhere, and its result is the payload if and only if nothing was cut off or the payload is empty |
| `CertificateWalk.CertificateIsRead` | src/gost_login.rs:565-646 | whatever five or six elements precede the public key info and whatever follows it, the point and the algorithm identifier put into a certificate are extracted from it |
| `Witness.HypothesesHold` | src/gost_ec.rs:128-188 | associativity, the domain conditions and a prime order, assumed by the agreement theorems, hold together on a curve |
| `Witness.AcceptableLogin` | src/gost_login.rs:205-409 | for every list of curves with a usable first one, a concrete certificate, flight and client are acceptable |
| `Witness.KnownLogin` | src/gost_vko.rs:150-162 | there is an acceptable login over the curves of the program |
| `Witness.EverythingHolds` | src/gost_login.rs:205-409 | all hypotheses of the agreement theorems hold together of one login, whose premaster the server recovers |
| `Text.FindSubslice` | src/gost_bridge.rs:249-254 | the first occurrence, or none exactly when there is none |
| `UrlRewriting.RewriteNalogAbsUrls` | src/gost_bridge.rs:262-306 | the search loop is the character-by-character rewriting |
| `UrlRewriting.AddressInText` | src/gost_bridge.rs:262-306 | the first address of a text is replaced by a bridge path, port dropped, exactly when its host is the domain or below it; what precedes is kept and rewriting goes on behind |
| `UrlRewriting.OtherAddressesKept` | src/gost_bridge.rs:262-306 | a text without an address of the domain is kept as it is |
| `UrlRewriting.IdempotentExactlyOutside` | src/gost_bridge.rs:262-306 | rewriting twice is rewriting once on all texts if and only if the bridge origin lies outside the domain |
| `UrlRewriting.RouteUndoesRewrite` | src/lib.rs:4344-4357 | a rewritten address is routed to its host if and only if the host is followed by a slash or by nothing |
| `UrlRewriting.PageIsRoutedBack` | src/lib.rs:4344-4357 | an address with no further "http" in its path is routed back to exactly its host and path |
| `UrlRewriting.TargetsAreRouted` | src/lib.rs:4344-4357 | a bridge path goes to the host it names with the path behind it or the root, any other target to the default host as it is |
| `UrlRewriting.RewriteRootRelativeUrls` | src/gost_bridge.rs:316-338 | the index scan is the character-by-character pinning |
| `UrlRewriting.ReferenceInText` | src/gost_bridge.rs:316-338 | the first reference of a text gets the path of the host between delimiter and slash; what precedes is kept and pinning goes on behind |
| `UrlRewriting.NoReferenceKept` | src/gost_bridge.rs:316-338 | a text without references is kept as it is |
| `UrlRewriting.PinningIdempotentExactly` | src/gost_bridge.rs:316-338 | pinning twice is pinning once on all texts if and only if no reference begins inside the host; a host without delimiters is such |
| `Multipart.BuildMultipartForm` | src/gost_bridge.rs:568-580 | the appended bytes are the form |
| `Multipart.FramedText` | src/gost_bridge.rs:568-580 | one field written out in literals |
| `Multipart.ParseMultipartFields` | src/gost_bridge.rs:600-635 | the position loop terminates and is the recursive parser |
| `Multipart.FieldReadBackExactly` | src/gost_bridge.rs:600-635 | a framed field parses to itself if and only if its name has no semicolon, no blank line and no quote at either end; the value may be anything |
| `Multipart.ParsedAreFree` | src/gost_bridge.rs:600-635 | no parsed name or value ever contains the delimiter, on any input |
| `Multipart.RoundTripWhenFramed` | src/gost_bridge.rs:568-635 | with no delimiter inside a framed field, parsing the form gives the fields back if and only if the names fit |
| `Multipart.RoundTripExactly` | src/gost_bridge.rs:568-635 | for a boundary without quote or line end, parsing gives the fields back if and only if all names fit and no name or value contains the delimiter |
| `Chunked.DecodeChunked` | src/gost_bridge.rs:531-563 | the loop in machine words terminates and is the recursive decoder, whose outcome is a body or the stop at a slice that ends before it starts |
| `Chunked.CompletesExactly` | src/gost_bridge.rs:546-556 | decoding completes if and only if every size line reached fits a machine word together with its position |
| `Chunked.OversizedAborts` | src/gost_bridge.rs:546-556 | a size line of sixteen f stops the program instead of counting as a truncated chunk |
| `Chunked.BeginningMayDecode` | src/gost_bridge.rs:531-563 | a beginning may decode although the whole body stops the program |
| `Chunked.DecodeNeverGrows` | src/gost_bridge.rs:531-563 | on every input that decodes, the output is not longer than the input |
| `Chunked.TruncationIsPrefix` | src/gost_bridge.rs:531-563 | if a whole body decodes then so does every beginning of it, to a beginning of the result |
| `Chunked.SizeLinesOfPrefix` | src/gost_bridge.rs:531-563 | on every input, the size lines reached in a beginning are the first ones reached in the whole |
| `Chunked.DecodeEncoded` | src/gost_bridge.rs:531-563 | any well-formed chunked body, with extensions and trailers, decodes to its payload |
| `Chunked.SizeReadBackExactly` | src/gost_bridge.rs:537-544 | a printed size, bare or with an extension, is read back if and only if it is below 2^64 |
| `Chunked.SizeSamples` | src/gost_bridge.rs:537-544 | sizes with extension, plus sign, upper and lower case and white space, and two that are refused |
| `Chunked.PrintedRoundTrip` | src/gost_bridge.rs:531-563 | non-empty pieces printed as chunks decode to their concatenation |

## Left out

- ScalarMultiplication.DoubleAndAddIsTimes: associativity of the point law is a hypothesis (`Associative`), as is primality of p and q; closure, commutativity, inverses and inversion are proved.
- KeyTransport.ServerRecoversPremaster: assumes the server point is detected on the server's own curve and the shared ukm is not zero modulo q; otherwise the agreement ends at infinity and the program stops.
- KeyTransport.PrepareKeyTransport: does not model a failing entropy source.
- LoginAgreement.LoginAgrees: assumes that all ServerHello messages of the flight carry one random, that every message of the client fits one record, and that no empty handshake record follows ServerHelloDone (the client would read it where it expects ChangeCipherSpec).
- RecordProtection.RecordCrypto.Protect: the sequence number wraps at 2^64, as in a release build; the overflow check of a debug build is not modelled.
- Text of error messages, alert names, diagnostics, artifact dumps, probing and socket timeouts.
- Streebog, the big-integer library, certificate construction and the platform TLS: library code.
- The big-endian cipher entry points, and the generic TLS client hello and opening handshake of `src/tls.rs`, which the GOST login does not use.
- HTTP headers, cookies and response rewriting around the codecs: field-by-field plumbing.
- Character encodings: text is a sequence of characters standing for bytes; lossy decoding and non-ASCII white space are not modelled.
- Cryptographic strength: nothing is claimed about forgery, distinguishability or recovery after a failed record.
- Devices, tokens, listener loops and the browser side.
