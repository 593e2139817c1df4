# Verified models of a 4G module's DTLS, CoAP and LwM2M code

The repository is the firmware of a 4G communication module: a DTLS stack with its own
elliptic-curve, AES, CCM and SHA-256 code, a CoAP codec, an LwM2M client, and an RS485 driver.
This project models the algorithms and state machines of that code in Dafny and proves what they
are for. Code that works in place on arrays is modelled by methods on arrays with loops, each proved
against a specification function or a standard; what the standard or the protocol promises is then
proved about those functions, for all inputs and over all runs.

## What is modelled

- `Limbs`, `ModArith`, `P256Field`, `P256Order`, `P256Inverse`, `P256Curve`, `P256Ecdsa`: the P-256
  arithmetic of `ecc.c`, from carry-propagating additions on 32-bit words up to signatures.
  Every "correct once after the carry" step is followed with the carry it may lose, so the reductions
  come with exact conditions.
- `Bytes`, `AesSpec`, `Aes`, `AesKeys`, `Ccm`: AES-128 with lookup tables against FIPS 197, and CCM in
  place against RFC 3610, over any block cipher.
- `Sha256`, `Hmac`, `Prf`: the buffered streaming hash with its in-place schedule against FIPS 180-4,
  HMAC against RFC 2104, and the expansion loop against RFC 5246.
- `Octets`, `CoapOptions`, `CoapMessage`, `CoapWriter`, `CoapParser`, `CoapRoundTrip`: the CoAP option
  serializer and parser, and when the one undoes the other (section 3.1 of RFC 7252, section 2.2 of
  RFC 7959).
- `List`, `Servers`, `Bootstrap`, `Registration`, `Block1`: the sorted linked list of the LwM2M client,
  server discovery and refresh, the bootstrap and client state machines, the registration payload with
  its size calculation, and block-wise reassembly.
- `Json`, `Rs485`: JSON string escaping, and the two-level receive ring of the RS485 driver.
- `P256Chord`, `AesStandard`, `CcmFormat`, `Sha256Standard`, `HmacLaws`, `CoapRules`, `RegistrationText`,
  `ServersMeaning`, `BootstrapOutcomes`, `JsonStandard`: what the specification functions of the modules
  above mean, said without them: by the geometry of the curve, by roots of primes and single bits, by the
  matrices and field layouts of the standards, by the receiver's reading, by lists of option numbers, and
  by the events of a run. `ByteNumbers` and `ByteValues` hold the reading of bytes as numbers.

## Where the code does not do what one would expect

Each of these is kept as the code has it and stated by a lemma.

- `fieldModP` (`ecc.c`) can drop a carry even on the product of two reduced field elements
  (`P256Field.ReducedProductFails`). `P256Field.ModPCorrectIff` says exactly when it is right,
  `P256Field.ModPExactWhen` gives a condition on four words.
- `fieldModO` (`ecc.c`) is right on sixteen words exactly below a bound (`P256Order.BarrettExactIff`).
  With length 8 it returns n itself unreduced (`P256Order.AsIsReducedIff`), and above n it reads a ninth
  word, so it is right exactly when that word is zero (`P256Order.BarrettEightIff`).
- `fieldInv` (`ecc.c`) ends for an odd modulus exactly when the argument is coprime to it
  (`P256Inverse.InversionEndsIff`); verification does not return for an s that is a multiple of n
  (`P256Ecdsa.MultipleNeverInverted`).
- Signature verification compares the abscissa with r unreduced, so a good signature is refused when
  the abscissa of its nonce point is above n (`P256Ecdsa.SignatureAcceptedIff`,
  `P256Ecdsa.HighKeyRefused`).
- A CoAP list option whose bit is set while its list is empty shifts the numbers of the options after
  it (`CoapRoundTrip.EmptyListMisread`, `CoapRoundTrip.RoundTripIff`).
- Zero in a number option, and If-None-Match, take one byte, where section 3.2 of RFC 7252 asks for none
  (`CoapRoundTrip.ZeroTakesOneByte`); every other number takes as few bytes as it can
  (`CoapOptions.IntBytesShortestIff`).
- The CoAP parser sets a bit for every option number it reaches in a map of five bytes, before it looks
  whether it knows the number; from 40 on the bit lies outside the map
  (`CoapRoundTrip.DatagramOutsideMapIff`, `CoapRoundTrip.ElectiveOptionOutsideMap`).
- Bytes that section 3.1 of RFC 7252 reserves are accepted: any byte from 0xF0 on starts the payload, and
  15 as a length means 15 (`CoapRules.ReservedTaken`). Token lengths above 8, reserved by section 3, are
  taken as 8 (`CoapRules.HeaderFields`), and the block size exponent 7, reserved by section 2.2 of
  RFC 7959, as 2048 bytes (`CoapRules.BlockFields`).
- A command that overtakes the lost acknowledgement of a bootstrap request keeps an expired deadline,
  so the next step fails the server the command was meant to keep (`Bootstrap.LostAckExpires`,
  `Bootstrap.LostAckRun`). Which servers a command keeps pending is said by
  `Bootstrap.CommandKeepsPendingIff`, and for whole runs by `Bootstrap.CommandInRunIff`.
- The comment on `bootstrap_getStatus` says it returns failed if all servers failed; it also does when
  none has started, or there is none (`Bootstrap.FailedWithoutFailure`). `Bootstrap.JointFailedIff` says
  exactly when it does, `Bootstrap.FailedMeansAllFailedIff` when that means what the comment says.
- The registration payload size leaves out an OSCORE object that the writer writes
  (`Registration.SizeFitsIff`).
- `json_unescapeString` rejects a long escape at the very end (`Json.EscapeRoundTripIff`).
- The RS485 ring loses everything when a 99th segment arrives unread (`Rs485.FullRingEmpties`), and the
  oldest chunk when a ninth full read arrives with none handed on (`Rs485.NinthReadOverwrites`).
  `Rs485.ReceiveAppendsIff` says exactly when a read loses nothing.

## Model

| member | source | states |
|---|---|---|
| `Limbs.Add` | 4G/Source/dtls/ecc.c:11-28 | for every length and offset, and with the result aliasing an operand, the result and the returned carry (0 or 1) stand for the exact sum; words outside the window keep their values |
| `Limbs.Sub` | 4G/Source/dtls/ecc.c:30-45 | the result and the returned borrow stand for the exact difference; words outside the window keep their values |
| `Limbs.RShiftBy` | 4G/Source/dtls/ecc.c:47-59 | the output is the input divided by a power of 2^32, cut or zero-filled to the output size |
| `Limbs.IsSame` | 4G/Source/dtls/ecc.c:130-135 | true exactly when the two numbers are equal |
| `Limbs.IsGreater` | 4G/Source/dtls/ecc.c:138-151 | 1, -1 or 0 as the first number is greater, less or equal |
| `Limbs.FieldMult` | 4G/Source/dtls/ecc.c:188-212 | schoolbook multiplication is exact: the double-length result is the product, for every length the scratch array has room for, up to nine words |
| `P256Field.FieldAdd` | 4G/Source/dtls/ecc.c:154-167 | the sum, corrected once by adding 2^256 mod m when the top word carries |
| `P256Field.FieldSub` | 4G/Source/dtls/ecc.c:169-182 | the difference, corrected once by the modulus when the top word borrows |
| `P256Field.FAddExact` | 4G/Source/dtls/ecc.c:154-167 | the single correction of a sum leaves it unchanged modulo p, less 2^256 when a second carry is lost; the lemma says exactly when that is |
| `P256Field.FSubExact` | 4G/Source/dtls/ecc.c:169-182 | the single correction of a difference leaves it unchanged modulo p, plus 2^256 when a second borrow is lost; the lemma says exactly when that is |
| `P256Field.NistIdentity` | 4G/Source/dtls/ecc.c:218-292 | the identity of section D.2.3 of FIPS 186-4 behind the nine terms, as an equation between integers |
| `P256Field.CombinationCongruent` | 4G/Source/dtls/ecc.c:218-292 | T + 2 S1 + 2 S2 + S3 + S4 - D1 - D2 - D3 - D4 is congruent to the 512-bit input |
| `P256Field.AddAllExact` | 4G/Source/dtls/ecc.c:218-262 | a run of field additions is the sum of its terms less 2^256 for every carry that got lost |
| `P256Field.SubAllExact` | 4G/Source/dtls/ecc.c:262-292 | a run of field subtractions is the difference plus 2^256 for every borrow that got lost |
| `P256Field.FieldModP` | 4G/Source/dtls/ecc.c:218-292 | the nine-term reduction computes the specification function ModP of the sixteen words |
| `P256Field.ModPValue` | 4G/Source/dtls/ecc.c:218-292 | the reduction always ends below p, and is congruent to the input less 2^256 for each carry lost on balance |
| `P256Field.ModPCorrectIff` | 4G/Source/dtls/ecc.c:218-292 | the reduction is the input mod p if and only if the lost carries and lost borrows balance |
| `P256Field.ModPExactWhen` | 4G/Source/dtls/ecc.c:218-292 | no word 8, 10, 11, 15 equal to 0xffffffff suffices for the reduction to be exact |
| `P256Field.ReducedProductFails` | 4G/Source/dtls/ecc.c:218-292 | a product of two reduced elements whose reduction is wrong: that the factors are below p does not suffice |
| `P256Order.MuIsFloor` | 4G/Source/dtls/ecc.c:93-98 | the stored constant is floor(2^512 / n) |
| `P256Order.EstimateClose` | 4G/Source/dtls/ecc.c:311-344 | the quotient estimate is at most two too small and never too large |
| `P256Order.FieldModO` | 4G/Source/dtls/ecc.c:311-344 | Barrett reduction of 8 to 16 words, in place or not: the remainder, and how many times the final loop subtracted; eight words not above n are copied and no ninth word is touched |
| `P256Order.BarrettExactIff` | 4G/Source/dtls/ecc.c:311-344 | for sixteen words the result is a mod n if and only if a is below an explicit bound not less than n * 2^256; then the loop subtracts at most twice |
| `P256Order.BarrettNineWords` | 4G/Source/dtls/ecc.c:311-344 | nine words are always reduced exactly, with at most two subtractions |
| `P256Order.BarrettEightWords` | 4G/Source/dtls/ecc.c:311-344 | eight words above n are reduced together with whatever the ninth word holds |
| `P256Order.BarrettEightIff` | 4G/Source/dtls/ecc.c:311-344 | so eight words above n are reduced right if and only if the ninth word in memory is zero |
| `P256Order.AsIsReducedIff` | 4G/Source/dtls/ecc.c:321-326 | eight words not above n are returned as they are, which is right if and only if they are not n itself |
| `P256Inverse.RShift` | 4G/Source/dtls/ecc.c:369-379 | halves the number in place |
| `P256Inverse.FieldAddAndDivide` | 4G/Source/dtls/ecc.c:381-401 | (x + m) / 2 with the carry of the sum kept as the top bit |
| `P256Inverse.WitnessHalved` | 4G/Source/dtls/ecc.c:406-477 | halving u halves its witness modulo an odd m |
| `P256Inverse.WitnessDifference` | 4G/Source/dtls/ecc.c:406-477 | subtracting the numbers subtracts their witnesses modulo m |
| `P256Inverse.InversionRound` | 4G/Source/dtls/ecc.c:428-468 | one round of the outer loop keeps A x1 = u and A x2 = v modulo m and takes u and v to their round on values, coprime or not |
| `P256Inverse.FieldInv` | 4G/Source/dtls/ecc.c:406-477 | for an odd modulus and a coprime argument the loop ends with the inverse, below the modulus |
| `P256Inverse.RoundKeeps` | 4G/Source/dtls/ecc.c:428-468 | a round of coprime numbers, not both even and neither one, leaves two such positive numbers with a smaller sum |
| `P256Inverse.InversionEndsIff` | 4G/Source/dtls/ecc.c:406-477 | for an odd modulus the rounds reach the exit, however many it takes, if and only if the argument is coprime to it |
| `P256Inverse.CommonFactorNeverExits` | 4G/Source/dtls/ecc.c:406-477 | with a common factor no number of rounds reaches the exit |
| `P256Curve.InverseUnique` | 4G/Source/dtls/ecc.c:406-477 | an inverse below the modulus is the inverse |
| `P256Curve.MulPExact` | 4G/Source/dtls/ecc.c:188-292 | a field product is the product mod p exactly when no carry is lost |
| `P256Curve.EcDoubleWords` | 4G/Source/dtls/ecc.c:479-518 | doubling, from input arrays into others, computes the tangent formulas, (0, 0) included |
| `P256Curve.EcAddWords` | 4G/Source/dtls/ecc.c:520-575 | adding, from input arrays into others, computes the chord formulas with all the special cases |
| `P256Curve.ThirdMeetsCurve` | 4G/Source/dtls/ecc.c:479-575 | a line through two points of the curve meets it a third time where the formulas say |
| `P256Curve.EcDoubleOnCurve` | 4G/Source/dtls/ecc.c:479-518 | doubling a point of the curve gives a point of the curve |
| `P256Curve.EcAddOnCurve` | 4G/Source/dtls/ecc.c:520-575 | adding two points of the curve gives a point of the curve |
| `P256Chord.ChordLaw` | 4G/Source/dtls/ecc.c:520-575 | two points of different abscissas add to the reflected third point of their chord: its reflection is on the chord, and the three abscissas add up to the squared slope, all modulo p; both coordinates are below p |
| `P256Chord.TangentLaw` | 4G/Source/dtls/ecc.c:479-518 | doubling gives the reflected third point of the tangent, with slope (3x^2 - 3) / 2y |
| `P256Chord.SumIff` | 4G/Source/dtls/ecc.c:520-575 | a reduced point is the sum of two points of different abscissas if and only if it is the reflected third point of their chord |
| `P256Chord.SpecialSums` | 4G/Source/dtls/ecc.c:520-575 | infinity is neutral on both sides, opposite points add to it, equal ones are doubled |
| `P256Chord.BasePointOnCurve` | 4G/Source/dtls/ecc.c:102-111 | the base point lies on the curve with the coefficient b of section D.1.2.3 of FIPS 186-4 |
| `P256Ecdsa.TimesMul` | 4G/Source/dtls/ecc.c:577-606 | [b][a]P = [a b]P for any associative operation with an identity |
| `P256Ecdsa.TimesCong` | 4G/Source/dtls/ecc.c:577-606 | multiples that are congruent modulo the order are equal |
| `P256Ecdsa.DoubleAndAdd` | 4G/Source/dtls/ecc.c:577-606 | one bit: doubling and adding moves [s >> (i+1)]P to [s >> i]P where the point routines compute the group operation |
| `P256Ecdsa.EcMult` | 4G/Source/dtls/ecc.c:577-606 | double-and-add over all 256 bits computes [secret]P of any group that the point routines compute at the points met on the way |
| `P256Ecdsa.EcMultOnCurve` | 4G/Source/dtls/ecc.c:577-606 | multiplying a point of the curve gives a point of the curve, if no product on the way loses a carry |
| `P256Ecdsa.SharedSecret` | 4G/Source/dtls/ecc.c:608-615 | both sides of a key exchange reach the same point |
| `P256Ecdsa.EcdsaSign` | 4G/Source/dtls/ecc.c:636-680 | the signature words and the two conditions under which another nonce is asked for |
| `P256Ecdsa.MultipleNonceGivenUp` | 4G/Source/dtls/ecc.c:636-656 | a nonce that is a multiple of n, zero or not, is given up before its inversion |
| `P256Ecdsa.EcdsaValidate` | 4G/Source/dtls/ecc.c:699-739 | accepts exactly when the abscissa of u1 G + u2 Q equals r, compared without reduction |
| `P256Ecdsa.MultipleNeverInverted` | 4G/Source/dtls/ecc.c:716-717 | an s that is a multiple of n, zero or not, is never inverted, so its verification does not return |
| `P256Ecdsa.SignatureEquation` | 4G/Source/dtls/ecc.c:636-739 | u1 + u2 d is congruent to the nonce |
| `P256Ecdsa.SignatureAcceptedIff` | 4G/Source/dtls/ecc.c:636-739 | a signature made with the matching key is accepted if and only if the nonce point has an abscissa of at most n |
| `P256Ecdsa.HighKeyRefused` | 4G/Source/dtls/ecc.c:699-739 | in every group, a public key with an abscissa above n that is coprime to n when reduced has a signature that is refused: the check arrives at the key itself |
| `P256Ecdsa.SigningIsPossible` | 4G/Source/dtls/ecc.c:636-739 | a group of order n with one signature that is accepted and one that is refused, both as SignatureAcceptedIff asks |
| `AesSpec.InvMixPlus` | 4G/Source/dtls/aes.c:834-857 | InvMixColumns is linear |
| `AesSpec.InvMixMix` | 4G/Source/dtls/aes.c:834-857 | InvMixColumns undoes MixColumns on every column |
| `AesSpec.InvRoundsMeet` | 4G/Source/dtls/aes.c:1048-1229 | working backwards meets the forward state of the matching round |
| `AesSpec.InvCipherUndoes` | 4G/Source/dtls/aes.c:863-1229 | the inverse cipher of FIPS 197 undoes the cipher, for any S-box with an inverse and any number of rounds |
| `AesSpec.EquivalentInverse` | 4G/Source/dtls/aes.c:819-1229 | the equivalent inverse cipher of section 5.3.5 of FIPS 197 under the turned and unmixed keys is the inverse cipher |
| `Aes.RoundLookups` | 4G/Source/dtls/aes.c:37-42 | four table lookups and a key word per column are SubBytes, ShiftRows, MixColumns and AddRoundKey |
| `Aes.InvRoundLookups` | 4G/Source/dtls/aes.c:43-47 | the same for a round of the equivalent inverse cipher |
| `Aes.LastLookups` | 4G/Source/dtls/aes.c:1012-1043 | the masked lookups of the last round are SubBytes, ShiftRows and AddRoundKey |
| `Aes.Encrypt` | 4G/Source/dtls/aes.c:863-1044 | the two-rounds-per-turn loop enciphers a block as FIPS 197 says, for any tables that meet the documented equations; the block may be overwritten in place |
| `Aes.Decrypt` | 4G/Source/dtls/aes.c:1048-1229 | the decryption loop computes the equivalent inverse cipher of FIPS 197 |
| `AesKeys.RconTable` | 4G/Source/dtls/aes.c:716-720 | the round constants are the powers of x |
| `AesKeys.KeySetupEnc` | 4G/Source/dtls/aes.c:730-757 | the schedule of a 128-bit key is the key expansion of section 5.2 of FIPS 197 |
| `AesKeys.TurnKeys` | 4G/Source/dtls/aes.c:827-833 | the swapping loop puts the round keys in the opposite order |
| `AesKeys.KeySetupDec` | 4G/Source/dtls/aes.c:819-859 | the decryption schedule is that of the equivalent inverse cipher |
| `AesKeys.AesRoundTrip` | 4G/Source/dtls/aes.c:863-1229 | deciphering gives back the block that was enciphered, for every key |
| `AesKeys.Context.SetKey` | 4G/Source/dtls/aes.c:1253-1267 | both schedules belong to the key |
| `AesKeys.Context.EncryptBlock` | 4G/Source/dtls/aes.c:1277-1280 | a block under the context is AES-128 of it |
| `AesKeys.Context.DecryptBlock` | 4G/Source/dtls/aes.c:1270-1273 | a block under the context is the inverse of AES-128 of it |
| `AesStandard.RowsOfBlock` | 4G/Source/dtls/aes.c:863-880 | section 3.4 of FIPS 197: a block fills the state column by column |
| `AesStandard.ShiftedRow` | 4G/Source/dtls/aes.c:863-1229 | ShiftRows turns row r to the left by r places, its inverse to the right |
| `AesStandard.XtimeReduces` | 4G/Source/dtls/aes.c:37-47 | section 4.2.1 of FIPS 197: a shift, reduced by the polynomial 0x11b when a ninth bit comes out |
| `AesStandard.MixMatrix` | 4G/Source/dtls/aes.c:37-42 | MixColumns is the matrix of section 5.1.3 of FIPS 197, with products as sums of shifted multiples |
| `AesStandard.UnmixMatrix` | 4G/Source/dtls/aes.c:43-47 | InvMixColumns is the matrix of section 5.3.3 |
| `AesStandard.TablesAreShares` | 4G/Source/dtls/aes.c:37-42 | each table entry is the share of one byte in its mixed column, by the place it is looked up for |
| `AesStandard.InverseTablesAreShares` | 4G/Source/dtls/aes.c:43-47 | the same for the inverse tables |
| `AesStandard.KeyWordBytes` | 4G/Source/dtls/aes.c:730-757 | section 5.2 of FIPS 197 byte by byte: which byte of the word before is substituted into which byte of a word |
| `AesStandard.FirstKeyWords` | 4G/Source/dtls/aes.c:730-745 | the first four words of the schedule are the key, four bytes each |
| `Ccm.SetCounter` | 4G/Source/dtls/ccm.c:14-23 | the counter field holds the masked counter, most significant byte first |
| `Ccm.Block0` | 4G/Source/dtls/ccm.c:25-44 | the first block of section 2.2 of RFC 3610 |
| `Ccm.AddAuthData` | 4G/Source/dtls/ccm.c:60-119 | the CBC-MAC over the encoded and padded additional data, for all three length encodings |
| `Ccm.Encrypt` | 4G/Source/dtls/ccm.c:121-135 | one block or the rest of one is xored with the key stream block of its counter |
| `Ccm.Mac` | 4G/Source/dtls/ccm.c:137-150 | one block or the rest of one enters the CBC-MAC |
| `Ccm.CcmEncryptMessage` | 4G/Source/dtls/ccm.c:152-220 | in place, the message becomes exactly the sealed message of sections 2.2 to 2.4 of RFC 3610; the rest of the buffer is kept |
| `Ccm.CcmDecryptMessage` | 4G/Source/dtls/ccm.c:222-300 | in place, the message is decrypted; the length is returned exactly when the recomputed tag matches, -1 otherwise |
| `Ccm.CtrXorTwice` | 4G/Source/dtls/ccm.c:121-135 | the key stream applied twice gives the message back |
| `Ccm.OpenSealed` | 4G/Source/dtls/ccm.c:152-300 | what was sealed opens to the message and is accepted |
| `Ccm.AcceptedIffSealed` | 4G/Source/dtls/ccm.c:222-300 | a string is accepted if and only if it is the sealing of what it opens to |
| `Ccm.DecryptUndoesEncrypt` | 4G/Source/dtls/ccm.c:152-300 | decrypting a buffer with a sealed message returns its length and restores it |
| `CcmFormat.FlagsRead` | 4G/Source/dtls/ccm.c:12-34 | section 2.2 of RFC 3610, read back: bits 0 to 2 plus one are L, twice bits 3 to 5 plus two is M, bit 6 is set if and only if there is additional data, bit 7 is clear |
| `CcmFormat.FirstBlockReads` | 4G/Source/dtls/ccm.c:25-44 | behind the flags the first block has the nonce, and its last L bytes are the length of the message, most significant byte first |
| `CcmFormat.CounterBlockReads` | 4G/Source/dtls/ccm.c:14-23 | section 2.3 of RFC 3610: a counter block reads back as L - 1, nonce and counter |
| `CcmFormat.EncodedLengthReads` | 4G/Source/dtls/ccm.c:60-100 | a receiver that tells two, six and ten bytes apart by their marks reads every length below 2^64 back, whatever follows |
| `CcmFormat.BlocksDetermineAll` | 4G/Source/dtls/ccm.c:25-119 | equal authentication blocks come from equal parameters, additional data and messages |
| `CcmFormat.AuthValueIs` | 4G/Source/dtls/ccm.c:60-150 | the authentication value starts with the cipher of the first block and runs over the padded additional data and message |
| `CcmFormat.CbcNext` | 4G/Source/dtls/ccm.c:137-150 | section 2.2 of RFC 3610: each further value is the cipher of the one before xor the next block |
| `CcmFormat.KeyStreamAt` | 4G/Source/dtls/ccm.c:121-135 | byte j under a key stream is xored with byte j % 16 of the cipher of counter block i + j / 16 |
| `CcmFormat.SealAt` | 4G/Source/dtls/ccm.c:152-220 | a sealed message byte by byte: message bytes under counters from 1 on, tag bytes under counter 0 |
| `Sha256.WindowStep` | 4G/Source/dtls/sha2.c:172-195 | overwriting the oldest of sixteen words is one step of the 64-word schedule |
| `Sha256.FirstRounds` | 4G/Source/dtls/sha2.c:146-170 | the first sixteen rounds, while the block is copied in machine order, even over itself |
| `Sha256.ExpandedRounds` | 4G/Source/dtls/sha2.c:172-195 | the other rounds with the schedule in place are those of the full schedule |
| `Sha256.Transform` | 4G/Source/dtls/sha2.c:127-209 | the compression function of section 6.2.2 of FIPS 180-4, the block aliasing the buffer or not |
| `Sha256.AbsorbSplit` | 4G/Source/dtls/sha2.c:211-266 | absorbing whole blocks of a concatenation is absorbing one part after the other |
| `Sha256.Context.Init` | 4G/Source/dtls/sha2.c:116-125 | an empty message under the initial hash value |
| `Sha256.Context.Update` | 4G/Source/dtls/sha2.c:211-266 | appends to the message, however it is cut into calls |
| `Sha256.Context.Final` | 4G/Source/dtls/sha2.c:268-341 | writes the digest of the padded message and clears the context |
| `Sha256.FinalOneBlock` | 4G/Source/dtls/sha2.c:268-318 | the closing block is the padding of section 5.1.1 of FIPS 180-4 when the length fits |
| `Sha256.FinalTwoBlocks` | 4G/Source/dtls/sha2.c:268-318 | the two closing blocks are that padding when it does not |
| `Sha256Standard.ConstantsAreCubeRoots` | 4G/Source/dtls/sha2.c:83-101 | section 4.2.2 of FIPS 180-4: constant t is the first 32 bits of the fraction of the cube root of entry t of a list of primes |
| `Sha256Standard.PrimesAscend` | 4G/Source/dtls/sha2.c:83-101 | that list holds 64 primes in ascending order |
| `Sha256Standard.InitialHashIsSquareRoots` | 4G/Source/dtls/sha2.c:104-114 | section 5.3.3: the same for the initial hash value and square roots |
| `Sha256Standard.ChChooses` | 4G/Source/dtls/sha2.c:73-73 | Ch agrees with the second word where the first has ones, with the third elsewhere |
| `Sha256Standard.MajDecides` | 4G/Source/dtls/sha2.c:74-74 | Maj agrees with two words where they agree, with the third where they do not |
| `Sha256Standard.SigmasRotate` | 4G/Source/dtls/sha2.c:77-80 | the sigma functions are sums of rotations by the distances of section 4.1.2, the small ones with a shift |
| `Sha256Standard.PaddingIs` | 4G/Source/dtls/sha2.c:268-318 | section 5.1.1: the message, a one bit, the fewest zeros that fill whole blocks, and the bit length, which reads back |
| `Sha256Standard.PaddingInjective` | 4G/Source/dtls/sha2.c:268-318 | different messages are padded differently |
| `Sha256Standard.WordsReadBigEndian` | 4G/Source/dtls/sha2.c:146-170 | a word is read with its first byte as the most significant one |
| `Sha256Standard.DigestWords` | 4G/Source/dtls/sha2.c:268-341 | the digest is the hash value word by word, each with its most significant byte first |
| `Sha256Standard.ScheduleRecurrence` | 4G/Source/dtls/sha2.c:172-195 | the schedule of section 6.2.2: sixteen words of the block, and the recurrence for the others |
| `Sha256Standard.RoundsAreSeries` | 4G/Source/dtls/sha2.c:146-195 | all 64 rounds move the registers along two series of words, each given by a recurrence |
| `Sha256Standard.CompressAddsSeries` | 4G/Source/dtls/sha2.c:196-209 | a block adds the last four words of each series to the hash value |
| `Hmac.HmacContext.LoadKey` | 4G/Source/dtls/hmac.c:53-70 | a short key is zero-filled, a long one hashed |
| `Hmac.HmacContext.Init` | 4G/Source/dtls/hmac.c:53-86 | starts an empty text under a key of any length |
| `Hmac.HmacContext.Update` | 4G/Source/dtls/hmac.c:28-39 | appends to the text |
| `Hmac.PadSwitch` | 4G/Source/dtls/hmac.c:94-115 | xoring with 0x6a turns the inner pad into the outer one |
| `Hmac.HmacContext.Finalize` | 4G/Source/dtls/hmac.c:94-115 | writes HMAC of section 2 of RFC 2104 |
| `Prf.EnoughBlocks` | 4G/Source/dtls/crypto.c:118-188 | any number of blocks that covers n bytes gives the same n bytes |
| `Prf.ShorterIsPrefix` | 4G/Source/dtls/crypto.c:118-188 | shorter outputs are prefixes of longer ones |
| `Prf.DtlsPHash` | 4G/Source/dtls/crypto.c:118-188 | writes exactly the first buflen bytes of P_hash of section 5 of RFC 5246, for every buflen |
| `Prf.DtlsPrf` | 4G/Source/dtls/crypto.c:190-210 | the cleared buffer is filled with P_hash |
| `HmacLaws.ZeroPaddedKey` | 4G/Source/dtls/hmac.c:53-70 | zeros behind a key that fit its block change nothing |
| `HmacLaws.LongKeyHashed` | 4G/Source/dtls/hmac.c:53-70 | a key of more than 64 bytes acts as its digest |
| `HmacLaws.BlockKeyFormula` | 4G/Source/dtls/hmac.c:53-115 | under a 64-byte key, the digest of the outer pad and the digest of the inner pad and the text, byte for byte as in RFC 2104 |
| `HmacLaws.PHashAt` | 4G/Source/dtls/crypto.c:118-188 | byte j of P_hash is byte j % 32 of the keyed digest of A(j / 32 + 1) and the seed |
| `HmacLaws.FirstBlock` | 4G/Source/dtls/crypto.c:118-188 | the first block, with label, first and second random in this order in the seed |
| `CoapOptions.IntRoundTrip` | 4G/Source/coap/er-coap.c:86-98 | a number option reads back as the number |
| `CoapOptions.HeaderReadsBack` | 4G/Source/coap/er-coap.c:100-151 | an option header reads back as its delta and length, whatever follows |
| `CoapRoundTrip.ParseGroup` | 4G/Source/coap/er-coap.c:253-269 | the options of one number parse back, in order, whatever follows |
| `CoapRoundTrip.ParseGroups` | 4G/Source/coap/er-coap.c:568-657 | all options parse back, in order, with the number of the last |
| `CoapRoundTrip.BlockRoundTrip` | 4G/Source/coap/er-coap.h:401-412 | a block option that fits comes back with number, flag and size, and the offset they give |
| `CoapRoundTrip.DatagramConsistent` | 4G/Source/coap/er-coap.c:659-954 | every datagram parsed to a status fills a packet whose lists, Accept options and blocks are consistent and whose bits lie in the five-byte map |
| `CoapRoundTrip.ParsedConsistent` | 4G/Source/coap/er-coap.c:719-950 | what one option after the other fills in stays consistent, as long as their numbers are in the map |
| `CoapRoundTrip.OutsideMapIff` | 4G/Source/coap/er-coap.c:719-762 | the parser sets a bit outside the map if and only if it reaches an option number from 40 on before an error or the payload marker |
| `CoapRoundTrip.DatagramOutsideMapIff` | 4G/Source/coap/er-coap.c:659-762 | the same for a whole datagram, its header and the duplicate check included |
| `CoapRoundTrip.ElectiveOptionOutsideMap` | 4G/Source/coap/er-coap.c:762-762 | a datagram of six bytes with one elective option does so |
| `CoapRoundTrip.DecodeWire` | 4G/Source/coap/er-coap.c:568-716 | the header and the token of a serialized packet read back |
| `CoapRoundTrip.RoundTripIff` | 4G/Source/coap/er-coap.c:568-954 | for every packet whose datagram has a 16-bit length, parsing undoes serializing if and only if every set list, Accept and block option has something to send that fits |
| `CoapRoundTrip.EmptyListMisread` | 4G/Source/coap/er-coap.c:568-954 | a packet with an empty list whose bit is set: what follows it is read as another option |
| `CoapRoundTrip.SecondCopyIgnored` | 4G/Source/coap/er-coap.c:705-714 | a message parsed twice in a row is ignored the second time |
| `CoapOptions.IntBytesShortestIff` | 4G/Source/coap/er-coap.c:153-207 | a number option takes the fewest bytes its number can be read from if and only if the number is not zero |
| `CoapRoundTrip.ZeroTakesOneByte` | 4G/Source/coap/er-coap.c:153-207 | zero in a number option, and with it If-None-Match, takes one byte |
| `CoapWriter.SetOptionHeader` | 4G/Source/coap/er-coap.c:118-151 | puts the option header in place |
| `CoapWriter.SerializeArrayOption` | 4G/Source/coap/er-coap.c:209-251 | puts a byte-string option in place |
| `CoapWriter.SerializeIntOption` | 4G/Source/coap/er-coap.c:153-207 | puts a number option in place, leading zero bytes left out |
| `CoapWriter.SerializeMultiOption` | 4G/Source/coap/er-coap.c:253-269 | puts a list in place, the first segment with the delta, the others with zero |
| `CoapWriter.SerializeAcceptOption` | 4G/Source/coap/er-coap.h:391-400 | puts the Accept options in place |
| `CoapWriter.CoapLog2` | 4G/Source/coap/er-coap.c:72-84 | the logarithm rounded down, zero for zero |
| `CoapWriter.Packet.Serialize` | 4G/Source/coap/er-coap.c:568-657 | writes the wire form of the packet and nothing else, and gives up the lists |
| `CoapParser.ParseIntOption` | 4G/Source/coap/er-coap.c:86-98 | the number of an option, modulo 2^32 |
| `CoapParser.ParseHead` | 4G/Source/coap/er-coap.c:729-758 | delta and length with their extensions |
| `CoapParser.StoreOption` | 4G/Source/coap/er-coap.c:762-944 | for an option number in the map: the bit, the field that changes and the status |
| `CoapParser.Parser.Parse` | 4G/Source/coap/er-coap.c:659-954 | for a datagram that ends between options and reaches no number outside the map: the outcome, the packet as filled, and what is remembered of it |
| `CoapRules.UnknownOption` | 4G/Source/coap/er-coap.c:934-947 | section 5.4.1 of RFC 7252, with the known numbers written out: an unknown critical option ends parsing with 4.02, an unknown elective one is passed over |
| `CoapRules.ProxyUriRefused` | 4G/Source/coap/er-coap.c:877-887 | Proxy-Uri is kept and refused with 5.05 |
| `CoapRules.KnownOption` | 4G/Source/coap/er-coap.c:762-947 | an option with a known number sets its bit and the field of that number, and parsing goes on behind it; for values within the limits of the field |
| `CoapRules.StatusByNumbers` | 4G/Source/coap/er-coap.c:718-950 | a parse is good if and only if it reaches no number that is refused, and 5.05 if and only if it reaches Proxy-Uri |
| `CoapRules.DatagramStatus` | 4G/Source/coap/er-coap.c:659-954 | the same for a whole datagram |
| `CoapRules.CriticalDatagram` | 4G/Source/coap/er-coap.c:659-954 | a datagram that starts its options with an unknown critical one gets 4.02 |
| `CoapRules.OtherVersionRefused` | 4G/Source/coap/er-coap.c:682-686 | a datagram of another version gets 4.00 |
| `CoapRules.HeaderFields` | 4G/Source/coap/er-coap.c:675-680 | section 3 of RFC 7252: the fixed header is read field by field; tokens longer than 8 are cut |
| `CoapRules.HeaderWritten` | 4G/Source/coap/er-coap.c:568-600 | section 3 of RFC 7252: the fixed header and the token as they are written |
| `CoapRules.PayloadWritten` | 4G/Source/coap/er-coap.c:568-657 | the payload comes last, behind the byte 0xFF; without one there is no such byte |
| `CoapRules.BareDatagram` | 4G/Source/coap/er-coap.c:659-954 | a header and a token alone are a packet without options |
| `CoapRules.HeaderCoded` | 4G/Source/coap/er-coap.c:100-151 | an option header is coded as section 3.1 says: 13 and 14 in the nibble for one and two more bytes |
| `CoapRules.IntOfFront` | 4G/Source/coap/er-coap.c:86-98 | numbers of up to four bytes have their most significant byte first |
| `CoapRules.BlockFields` | 4G/Source/coap/er-coap.c:895-916 | section 2.2 of RFC 7959: block number, more flag and size exponent, and the offset they give |
| `CoapRules.BlockWritten` | 4G/Source/coap/er-coap.h:401-412 | section 2.2 of RFC 7959: how a block option is written |
| `CoapRules.ReservedTaken` | 4G/Source/coap/er-coap.c:718-758 | what happens to the bytes section 3.1 reserves: any byte from 0xF0 on is a payload marker, a length nibble of 15 is the length 15 |
| `CoapRules.IgnoredIff` | 4G/Source/coap/er-coap.c:705-714 | a datagram after another with a token of the same length is ignored if and only if message id and token are the same |
| `CoapRules.LogBounds` | 4G/Source/coap/er-coap.c:72-84 | the logarithm is the exponent of the largest power of two not above |
| `List.Add` | 4G/Source/lwm2m/list.c:21-44 | one node goes in at its place; the chain stays finite and in order |
| `List.Find` | 4G/Source/lwm2m/list.c:47-58 | the node with the id, or null exactly when there is none |
| `List.Remove` | 4G/Source/lwm2m/list.c:61-96 | exactly the node with the id is taken out, or nothing |
| `List.NewId` | 4G/Source/lwm2m/list.c:98-113 | the least id not in use while fewer than 65536 are; 0 when all are |
| `List.AddPlaceOrder` | 4G/Source/lwm2m/list.c:21-44 | a node goes behind all smaller ids and before all others, but behind a head of its own id |
| `List.FindIsLookup` | 4G/Source/lwm2m/list.c:47-58 | on the map from ids to nodes, finding is lookup |
| `List.AddIsUpdate` | 4G/Source/lwm2m/list.c:21-44 | adding a new id is updating the map |
| `List.RemoveIsDelete` | 4G/Source/lwm2m/list.c:61-96 | removing is deleting from the map |
| `Block1.Server.Handle` | 4G/Source/lwm2m/block1.c:48-136 | the transfer and the answer after one block |
| `Block1.BufferIsAccepted` | 4G/Source/lwm2m/block1.c:48-136 | over every run the buffer is the payloads taken since the last block 0, one after the other |
| `Block1.RefusedLeavesNoTrace` | 4G/Source/lwm2m/block1.c:48-136 | a run without one of its refused messages - a 4.08, a 4.13, a later block that comes again - ends with the same transfer |
| `Block1.LargeIsOneBlock` | 4G/Source/lwm2m/block1.c:48-136 | over every run, once a later block was taken less than 4096 bytes are held; more can only be the payload of a single block 0 |
| `Block1.OutputIsBody` | 4G/Source/lwm2m/block1.c:48-136 | blocks of one body in any order and number, ids naming blocks: whatever is handed out is the body |
| `Block1.InOrderCompletes` | 4G/Source/lwm2m/block1.c:48-136 | the blocks of a body below 4096 bytes, in order, complete it |
| `Block1.AnswersIff` | 4G/Source/lwm2m/block1.c:48-136 | 4.08, 4.13, continue and done, each if and only if, by block number, message id, offset and length |
| `Rs485.Ring.constructor` | 4G/Source/App/uart.c:56-70 | an empty ring |
| `Rs485.Ring.Receive` | 4G/Source/App/uart.c:97-128 | the buffer, the slots and the counter after a read |
| `Rs485.Ring.Detect` | 4G/Source/App/uart.c:131-144 | hands on the oldest segment, if any |
| `Rs485.ShapeKept` | 4G/Source/App/uart.c:97-144 | the next read window stays inside the buffer, and both slot indexes below 99 |
| `Rs485.ReceiveAppends` | 4G/Source/App/uart.c:97-128 | with fewer than 98 segments unread and the window clear of them, a read appends its chunk to the queue |
| `Rs485.ReceiveAppendsIff` | 4G/Source/App/uart.c:97-128 | a read of n bytes, none included, appends them to the queue, whatever they are, if and only if fewer than 98 segments are unread and, for n above 0, the window is clear of them |
| `Rs485.NinthReadOverwrites` | 4G/Source/App/uart.c:97-128 | after eight full reads the ninth writes over the oldest unread chunk |
| `Rs485.FullRingEmpties` | 4G/Source/App/uart.c:97-128 | with 98 segments unread one more read makes the ring look empty |
| `Rs485.DetectTakes` | 4G/Source/App/uart.c:131-144 | detection removes the head of the queue |
| `Rs485.NothingLost` | 4G/Source/App/uart.c:97-144 | over every run with room for its reads, chunks handed on and pending are the chunks read, in order and unchanged |
| `Rs485.DriverHandsOn` | 4G/Source/App/app.c:121-131 | the driver loop has that room, and hands on every chunk |
| `Json.EscapeString` | 4G/Source/lwm2m/json_common.c:421-490 | the escaped string when it fits, 0 when it does not |
| `Json.UnescapeString` | 4G/Source/lwm2m/json_common.c:352-411 | the unescaped string, or 0 for a malformed one |
| `Json.EscapedGrowth` | 4G/Source/lwm2m/json_common.c:421-490 | escaping makes a string at most six times as long |
| `Json.UnescapeShrinks` | 4G/Source/lwm2m/json_common.c:352-411 | unescaping never makes one longer |
| `Json.HexReadsBack` | 4G/Source/lwm2m/json_common.c:344-419 | hexadecimal digits read back |
| `Json.EscapeRoundTripIff` | 4G/Source/lwm2m/json_common.c:352-490 | unescaping undoes escaping if and only if the last byte does not take the long form |
| `JsonStandard.PlainIff` | 4G/Source/lwm2m/json_common.c:421-490 | section 7 of RFC 8259: quotation mark, backslash and control characters are escaped, and nothing else |
| `JsonStandard.ShortEscapes` | 4G/Source/lwm2m/json_common.c:421-490 | the two-character escapes as text |
| `JsonStandard.LongEscape` | 4G/Source/lwm2m/json_common.c:414-490 | every other control character becomes a backslash, a u and four digits of its code |
| `JsonStandard.HexDigitValues` | 4G/Source/lwm2m/json_common.c:344-350 | digits of either case have their values |
| `JsonStandard.ShortMeanings` | 4G/Source/lwm2m/json_common.c:352-411 | the eight letters that are read behind a backslash, what they stand for, and that there is no other |
| `JsonStandard.ReadsEscape` | 4G/Source/lwm2m/json_common.c:352-411 | one short escape in front of a text: its byte and the rest, or a failure |
| `JsonStandard.ReadsLong` | 4G/Source/lwm2m/json_common.c:352-411 | one long escape below 0x100 with something behind it |
| `JsonStandard.EscapedHasNoControls` | 4G/Source/lwm2m/json_common.c:421-490 | an escaped text has no control characters |
| `Registration.IntToText` | 4G/Source/lwm2m/utils.c:216-270 | the decimal text at the front, or 0 when it does not fit |
| `Registration.StringCopy` | 4G/Source/lwm2m/utils.c:579-595 | the text with a terminator, or -1 when they do not fit |
| `Registration.GetTemplate` | 4G/Source/lwm2m/objects.c:487-509 | an object template, or failure when the rest of its link cannot fit |
| `Registration.GetRegisterPayload` | 4G/Source/lwm2m/objects.c:584-667 | the link list without its last comma, or 0 exactly when the buffer has no room for the list and a terminator |
| `Registration.GetRegisterPayloadBufferLength` | 4G/Source/lwm2m/objects.c:511-582 | the size the counted objects need |
| `Registration.SizeFitsIff` | 4G/Source/lwm2m/objects.c:511-667 | the calculated size has room for the list if and only if there is no OSCORE object |
| `Registration.RegisterWithCalculatedSize` | 4G/Source/lwm2m/objects.c:511-667 | with the calculated size the writer returns that size less 2, or fails if an OSCORE object is there |
| `RegistrationText.DecimalReads` | 4G/Source/lwm2m/utils.c:216-270 | the digits written for a number are decimal, read back as it, and have no zero in front |
| `RegistrationText.EveryInstanceLinked` | 4G/Source/lwm2m/objects.c:584-667 | every instance of every object but Security has its link in the list |
| `RegistrationText.ObjectAfter` | 4G/Source/lwm2m/objects.c:584-667 | what one more object adds at the end: nothing, its own link, or one for each instance |
| `RegistrationText.ExamplePayload` | 4G/Source/lwm2m/objects.c:584-667 | the payload of a client with Security, two Server instances and Device, as text |
| `RegistrationText.ExamplePath` | 4G/Source/lwm2m/objects.c:584-612 | an alternate path takes the place of the slash |
| `RegistrationText.LeftOutIff` | 4G/Source/lwm2m/objects.c:511-582 | the objects the size calculation leaves out are those numbered 21 |
| `Servers.FindServerInstance` | 4G/Source/lwm2m/objects.c:669-705 | the first Server instance with the short id; none once one cannot be read |
| `Servers.FindsIffHas` | 4G/Source/lwm2m/list.c:47-58 | on a sorted list the walk that stops at the first larger id finds exactly what is there |
| `Servers.Context.GetServers` | 4G/Source/lwm2m/objects.c:754-919 | the answer and the lists after discovery, dry or real, for sorted lists |
| `Servers.Context.RefreshServerList` | 4G/Source/lwm2m/liblwm2m.c:208-250 | the answer and the lists after the dirty servers were dropped and discovery ran |
| `Servers.DryRunAgrees` | 4G/Source/lwm2m/objects.c:754-919 | a dry run changes nothing and answers as the real run does, repeated ids included |
| `Servers.DiscoverCompletes` | 4G/Source/lwm2m/objects.c:754-919 | success adds exactly what the new instances yield; sorted and disjoint lists stay so even on failure |
| `Servers.RebuiltSorted` | 4G/Source/lwm2m/liblwm2m.c:213-247 | rebuilding a list drops exactly the dirty servers and keeps the order |
| `Servers.RefreshSettles` | 4G/Source/lwm2m/liblwm2m.c:208-250 | after a refresh nothing is dirty, the lists are sorted and disjoint, and every wanted instance is in exactly one |
| `ServersMeaning.FindInstanceIff` | 4G/Source/lwm2m/objects.c:669-705 | an instance is found if and only if it is the first with the short id and all before it can be read |
| `ServersMeaning.BootstrapIff` | 4G/Source/lwm2m/objects.c:754-830 | which Security instances yield a bootstrap server, and its whole record |
| `ServersMeaning.RegularIff` | 4G/Source/lwm2m/objects.c:707-890 | which Security instances yield a server, and its whole record, lifetime and binding read from the Server instance of its short id |
| `ServersMeaning.SkippedIff` | 4G/Source/lwm2m/objects.c:754-890 | which Security instances are passed over |
| `ServersMeaning.DiscoveredIff` | 4G/Source/lwm2m/objects.c:754-919 | after a successful run: a record is in a list if and only if it was or is the one its instance yields |
| `ServersMeaning.SucceedsIff` | 4G/Source/lwm2m/objects.c:754-919 | a run succeeds if and only if every new instance has what discovery reads of it, or is passed over |
| `ServersMeaning.RebuiltIff` | 4G/Source/lwm2m/liblwm2m.c:213-247 | which records a refresh keeps, those of bootstrap servers put back to their start |
| `Bootstrap.Machine.BootstrapStart` | 4G/Source/lwm2m/bootstrap.c:236-251 | every server starts over, with a session if it can be had |
| `Bootstrap.Machine.BootstrapStep` | 4G/Source/lwm2m/bootstrap.c:128-203 | every server after a step, and the timeout |
| `Bootstrap.Machine.GetStatus` | 4G/Source/lwm2m/bootstrap.c:258-295 | pending if one is in progress, else finished if one finished, else failed |
| `Bootstrap.JointFailedIff` | 4G/Source/lwm2m/bootstrap.c:253-295 | failed if and only if no server is in progress and none finished |
| `Bootstrap.FailedMeansAllFailedIff` | 4G/Source/lwm2m/bootstrap.c:253-295 | failed means that there are servers and all failed if and only if there are some and none was left unstarted or outside the bootstrap states |
| `Bootstrap.FailedWithoutFailure` | 4G/Source/lwm2m/bootstrap.c:253-295 | no server at all gives failed, and so does one that has not started |
| `Bootstrap.Machine.HandleReply` | 4G/Source/lwm2m/bootstrap.c:29-66 | only an initiated server moves on |
| `Bootstrap.Machine.HandleFinish` | 4G/Source/lwm2m/bootstrap.c:205-228 | a pending server moves on exactly when a dry discovery run succeeds |
| `Bootstrap.Machine.HandleCommand` | 4G/Source/lwm2m/bootstrap.c:297-511 | the client after a command: the status of its server, the servers it leaves to be dropped in both lists, and the state |
| `Bootstrap.Machine.ClientStep` | 4G/Source/lwm2m/liblwm2m.c:387-489 | one client step through all the states it passes at once; the chain ends |
| `Bootstrap.TimeoutMeetsDeadlines` | 4G/Source/lwm2m/bootstrap.c:128-203 | a step never raises the timeout, and no waiting server has a deadline ahead that is nearer |
| `Bootstrap.RunMovesOn` | 4G/Source/lwm2m/bootstrap.c:29-570 | between restarts no server moves back, and one that finished or failed keeps status and session |
| `Bootstrap.RunSettles` | 4G/Source/lwm2m/bootstrap.c:29-570 | over every run of events in the bootstrap list, restarts included, a server that finished or failed holds no session |
| `Bootstrap.ClientRunSound` | 4G/Source/lwm2m/liblwm2m.c:208-489 | over every run of the client - steps, replies, commands, finishing, restarts, refreshes that succeed or fail - the lists stay sorted, no server is in both, and a bootstrap server that finished or failed holds no session |
| `Bootstrap.RefreshRestarts` | 4G/Source/lwm2m/liblwm2m.c:208-250 | a refresh starts every bootstrap server over, even when it fails |
| `Bootstrap.CommandKeepsPendingIff` | 4G/Source/lwm2m/bootstrap.c:128-330 | which servers are pending one step after a command, by status and deadlines, if and only if |
| `Bootstrap.CommandInRunIff` | 4G/Source/lwm2m/bootstrap.c:128-330 | the same after any run in time order, where a server that awaits its acknowledgement never is |
| `Bootstrap.LostAckExpires` | 4G/Source/lwm2m/bootstrap.c:297-330 | after any run in time order, a command that comes while the acknowledgement is awaited keeps an expired deadline, and the next step fails the server |
| `Bootstrap.LostAckRun` | 4G/Source/lwm2m/bootstrap.c:128-330 | a start, two steps, a command and a step on which this happens |
| `Bootstrap.HoldOffRespected` | 4G/Source/lwm2m/bootstrap.c:128-251 | no run that keeps within the hold-off time of a started server, whatever else it brings, ends with its bootstrap request sent |
| `Bootstrap.StepRests` | 4G/Source/lwm2m/liblwm2m.c:387-489 | a step that succeeds rests in bootstrapping, registering or ready |
| `Bootstrap.BootstrapLeadsOn` | 4G/Source/lwm2m/liblwm2m.c:387-489 | once a bootstrap finished with usable servers, one step settles the lists and registers |
| `BootstrapOutcomes.SucceededInRunIff` | 4G/Source/lwm2m/bootstrap.c:128-228 | over every run without restart a server is finishing or finished if and only if it was, or at some moment its finish message came while it was pending and the first with its session, and the servers left could be used |
| `BootstrapOutcomes.GaveUpInRunIff` | 4G/Source/lwm2m/bootstrap.c:29-203 | over every run without restart a server is failing or failed if and only if it was, or at some moment its request was refused, could not be sent, or its deadline was over |
| `BootstrapOutcomes.FinishedAfterStepIff` | 4G/Source/lwm2m/bootstrap.c:128-228 | one step after such a run a server that had not ended before it is finished if and only if its finish message came in it |
| `BootstrapOutcomes.PendingHasReason` | 4G/Source/lwm2m/bootstrap.c:29-511 | over every run, restarts included, a server that became pending was acknowledged or sent a command that was taken |
| `BootstrapOutcomes.AwaitedWasAsked` | 4G/Source/lwm2m/bootstrap.c:69-203 | a server whose acknowledgement is awaited was sent its request at the end of its hold-off time |
| `BootstrapOutcomes.SucceedsIff` | 4G/Source/lwm2m/bootstrap.c:128-228 | which event but a restart makes a server finishing or finished |
| `BootstrapOutcomes.GivesUpIff` | 4G/Source/lwm2m/bootstrap.c:29-203 | which event but a restart makes it failing or failed |
| `BootstrapOutcomes.AsksIff` | 4G/Source/lwm2m/bootstrap.c:69-203 | which event makes it wait for its acknowledgement |
| `BootstrapOutcomes.PendsIff` | 4G/Source/lwm2m/bootstrap.c:29-570 | which event makes it pending |
| `BootstrapOutcomes.StepEnds` | 4G/Source/lwm2m/bootstrap.c:128-203 | after a step success is finished and giving up is failed, and their sessions are closed |
| `BootstrapOutcomes.FailsAtOnceIff` | 4G/Source/lwm2m/bootstrap.c:69-126 | which servers fail without a step in between: those that are due and cannot be connected to |
| `BootstrapOutcomes.DeadlineSet` | 4G/Source/lwm2m/bootstrap.c:69-330 | when a deadline is set, and to what |
| `BootstrapOutcomes.SessionSet` | 4G/Source/lwm2m/bootstrap.c:69-203 | when a session is opened and closed |
| `BootstrapOutcomes.RecordKept` | 4G/Source/lwm2m/bootstrap.c:29-570 | ids, lifetime and binding never change, and a server is marked by commands that name it only |
| `BootstrapOutcomes.MarkedIff` | 4G/Source/lwm2m/bootstrap.c:297-368 | exactly which servers a command marks |
| `BootstrapOutcomes.TimeoutIsLeast` | 4G/Source/lwm2m/bootstrap.c:128-203 | the timeout becomes the least of the given one and the times after which some server wants a step |
| `BootstrapOutcomes.JointIff` | 4G/Source/lwm2m/bootstrap.c:253-295 | pending, finished and failed for all servers together, by what states they are in |
| `BootstrapOutcomes.ReadyIff` | 4G/Source/lwm2m/liblwm2m.c:387-489 | a client step ends ready if and only if the client was registering and is registered now, or was ready and registration has not failed since |
| `BootstrapOutcomes.RegisteringIff` | 4G/Source/lwm2m/liblwm2m.c:387-489 | it ends registering if and only if registration goes on or was started with servers known or refreshed |
| `BootstrapOutcomes.BootstrappingIff` | 4G/Source/lwm2m/liblwm2m.c:387-489 | it ends bootstrapping if and only if a bootstrap goes on, is started over, or is started after a refresh |
| `BootstrapOutcomes.StartedOver` | 4G/Source/lwm2m/liblwm2m.c:387-489 | a bootstrap started over leaves every server holding off for its lifetime, with its session or a new one |
| `BootstrapOutcomes.StepFailsIff` | 4G/Source/lwm2m/liblwm2m.c:387-489 | it fails if and only if the bootstrap failed, there is no server to start it with, or a refresh or registration failed |
| `BootstrapOutcomes.FailureCode` | 4G/Source/lwm2m/liblwm2m.c:387-489 | a failure is reported as 5.03, or with the error of the registration that was tried |

## Left out

- P256Ecdsa.EcMult: the group is any associative operation on points with identity (0, 0), and the point routines have to compute it at the points met on the way; that the affine formulas form such a group is not proved. The hypothesis is about the points of one call, because `P256Field.ReducedProductFails` shows that the routines are not right everywhere.
- P256Ecdsa.SignatureAcceptedIff: takes the order of the base point as a hypothesis, and that nonce and signature are coprime to n, which holds below the prime n. `P256Ecdsa.SigningIsPossible` gives a group and two signatures, one accepted and one refused, that meet these hypotheses.
- P256Inverse.FieldInv: asks for an odd modulus and a coprime argument; `P256Inverse.InversionEndsIff` says that for an odd modulus the rounds do not end otherwise.
- P256Ecdsa.EcdsaSign: a nonce that gets as far as its inversion has to be coprime to n, as all are that are no multiple of the prime n; those are given up before (`P256Ecdsa.MultipleNonceGivenUp`).
- P256Ecdsa.EcdsaValidate: s has to be coprime to n; on any other the source does not return (`P256Inverse.InversionEndsIff`, `P256Ecdsa.MultipleNeverInverted`).
- P256Curve.EcDoubleWords: the output arrays are not the input arrays, as in the calls of the source; the same holds for `P256Curve.EcAddWords`.
- P256Curve.EcDoubleOnCurve: asks that the field products of this doubling lose no carry, as do `P256Curve.EcAddOnCurve` and, for every doubling and adding on the way, `P256Ecdsa.EcMultOnCurve`.
- Primality of p and n is not proved; coprimality is a precondition where an inverse is taken.
- The contents of the AES tables: the documented equations are hypotheses, and the S-box is any function with an inverse.
- AES keys of 192 and 256 bits: the key context has room for eleven round keys only.
- Ccm.CcmEncryptMessage: length fields of two and three bytes, as the DTLS code uses them, and an even tag length from 4 to 16; the mask of the source shifts out of range for longer length fields.
- Sha256.Context.Update: a little-endian host, and messages below 2^61 bytes, as the bit counter demands.
- Null pointers, allocation failures and logging: calls are made with objects that exist.
- Random numbers, key generation, ASN.1 and the DTLS handshake: plumbing around the modelled code.
- CoapWriter.Packet.Serialize: Location-Query, whose splitting loop skips a byte after each separator, and Proxy-Uri are not serialized here; the buffer is large enough.
- CoapParser.Parser.Parse: datagrams that end inside an option are outside the model, as the source reads past their end, and so are those that reach an option number from 40 on, as the source sets a bit outside its five-byte map (`CoapRoundTrip.DatagramOutsideMapIff` says which these are); the map is a set of numbers; Location-Query segments are joined as values and not in the receive buffer.
- CoapRules.KnownOption: the value fits the field of its option; `CoapParser.StoreOption` says what is cut otherwise. `CoapRules.UnknownOption` is about numbers below 40, behind which the map ends.
- P256Chord.ChordLaw: asks that the field products of this addition lose no carry and that the difference of the abscissas can be inverted, as `P256Curve.EcAddOnCurve` does; the same holds for `P256Chord.TangentLaw` and `P256Chord.SumIff`.
- CoapRoundTrip.RoundTripIff: speaks of packets that are not ignored as duplicates; `CoapRoundTrip.DecodeWire` says what happens to those.
- The packet struct of er-coap.h is one record value inside an object; its option lists are sequences.
- `coap_serialize_get_size`, setters and getters: easy members, or upper bounds that do not hold.
- The list functions work on nodes with a fixed id; freeing is left out.
- Servers.Context.GetServers: reading a resource is a function of the instance, a Server object exists where one is needed, and the two lists are sequences with the placement that `List.Add` proves. They are sorted and disjoint, as `Bootstrap.ClientRunSound` says they always are; the same holds for `Servers.Context.RefreshServerList`, `Bootstrap.Machine.HandleFinish` and `Bootstrap.Machine.ClientStep`.
- Servers.Wanted: a server that is already listed is not read again, as in the source.
- Bootstrap.Machine.HandleCommand: what a command does to objects is left to its outcome, the Security instances it wrote or deleted among it; the lists are sorted and disjoint, as `Bootstrap.ClientRunSound` says they always are. Deleting everything is an event of the runs and not a method. The 294 seconds of the exchange lifetime are the value of the macro.
- Bootstrap.Machine.ClientStep: registration, observation and transactions are outcomes of the environment, and their own effect on the timeout is not modelled.
- Registration.GetRegisterPayload: what lies in the buffer behind the terminator is not stated.
- Block1.Server.Handle: replaced buffers are not freed.
- Block1.OutputIsBody: takes message ids to name blocks, without which a later block with the id of the last is dropped.
- Rs485.Ring.Receive: the read hands over a chunk of at most 256 bytes; events, sleeping and the echo on the line are left out.
- Json.UnescapeString: strings of two or three bytes with a long escape are outside the model, as the source reads past their end.
- netq.c, arc4.c, data.c, discover.c, TLV, URI and whole JSON documents: they would add easy case splits, or rest on code that is not there.
- Floating-point values and conversions.
