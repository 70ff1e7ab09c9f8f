# Verified models of the hypervisor's cryptography and message paths

This project models five parts of the repository in Dafny and proves what they are for:

- **ECDSA of micro-ecc** (`Hypervisor/cryptography/uECC.c`, `include/curve-specific.inc`): multi-word
  arithmetic on arrays of machine words, modular reduction and inversion, co-Z point formulas in place
  on registers, the Montgomery ladder, scalar regularisation, Shamir's trick, signing, verification and
  deterministic nonces.
- **The TLS sniffer's reassembly** (`wolfssl/src/sniffer.c`): the ordered fragment list, overlap
  trimming, gap filling, the drain loop and the memory counter.
- **SHA-256** (`Hypervisor/cryptography/sha256.c`): the streaming context against the one-shot function
  of FIPS 180-4, its round functions bit by bit, and the standard's digest of "abc".
- **BIO pairs** (`wolfssl/src/bio.c`): the ring buffer behind `nread` and `nwrite`.
- **Inter-VM messages** (`Hypervisor/drivers/inter-vm-comm.c`): the queues behind the hypercalls.

Run `dafny verify dfyconfig.toml` to check everything.

## How it is built

Word arrays are read as numbers: `Words.Val` is the number whose base-`B` digits a word sequence holds.
The word size is a constant without a value (1, 4 or 8 bytes), so every proof about words holds for the
three sizes the configuration allows; `SUPPORTS_INT128` and `SQUARE_FUNC` are such constants too, and
both branches of the code they select are modelled. Methods work on arrays in place, as the source does,
and are proved against functions on numbers or field elements; the properties are lemmas about those
functions:

| layer | modules |
|---|---|
| integers, bits, congruence | `Arith`, `Bits`, `Congruence` |
| words and byte strings | `Words`, `Vli`, `VliMult`, `VliMod`, `VliInv`, `Bytes`, `BitsToInt`, `Secp256k1` |
| field and curve | `Field`, `CurveGroup`, `CoZ`, `Doubling` |
| point operations and the ladder | `PointOps`, `Ladder`, `Regularize`, `PointMult`, `BaseMult`, `KeyPair` |
| ECDSA | `EcdsaSign`, `Shamir`, `EcdsaVerify`, `EcdsaTheorem` |
| hashing and nonces | `Sha256`, `Sha256Laws`, `Sha256Abc`, `Hmac`, `DeterministicSign` |
| TCP reassembly | `Fragments`, `Streams`, `Reassembly`, `SnifferRun` |
| queues | `BioPair`, `InterVm` |

The curve is a concrete short Weierstrass curve with chord-and-tangent addition. One classical theorem is
a hypothesis and not proved: that this addition is closed and associative on the curve
(`CurveGroup.IsGroup`, which also says that the field modulus is a prime above 3). Statements about the
standard curves further assume that `p` and `n` are prime, `n` is odd and at least 5, and, for
verification, `p < 2n`; all of this holds for the curve the repository configures, secp256k1.

## Where the code differs from what is promised

Each of these is a theorem below, with the exact condition.

- **Private keys and nonces 1, n - 2 and n - 1.** The code is meant to accept every private key in
  1 .. n - 1 (`uECC.c:1172`). `EccPoint_mult` returns (0, 0) on exactly these three (on 1 only when
  n + 1 < 2^b), because the ladder meets opposite points at bit 1, and so key generation and signing
  fail on them (`BaseMult.MultValueExact`, `EcdsaTheorem.KeyPairExact`).
- **A base point with abscissa 0** is also mapped to (0, 0): the final inversion divides by it.
- **r is stored unreduced and s is not checked for zero.** A signature is accepted only if the abscissa
  of k * G is below n and s is not zero (`EcdsaTheorem.SignThenVerify`).
- **Verification** also rejects when an addition of its loop meets points with equal abscissas
  (`EcdsaTheorem.AcceptsExact`). On every curve on which the abscissa
  of 4 * G is not a multiple of n it so rejects a signature that satisfies the equation of the standard
  (`EcdsaTheorem.ValidButRejected`). For the keys G and -G, whose sum with G is not a point
  that its table can hold, it also rejects whenever the two scalars share their top bit
  (`EcdsaTheorem.CommonTopRejected`).
- **`vli_mmod_fast_secp256k1`** is used as `result = product mod p`. It loses a carry when the
  folded product lies in [2^257 - c, 2^257) for c = 2^32 + 977, and it returns p itself for nonzero
  multiples of p (`Secp256k1.FastExact`). Two field elements whose product loses the carry are given in
  `Secp256k1.LosingProduct`.
- **The sniffer's limit for a fragment before the front of the list** is switched off by the limit 1,
  and not by -1 as everywhere else, so that without a limit such fragments are refused and end the
  session (`Reassembly.Direction.AddToReassembly`, `SnifferRun.RefusalHappens`).
- **The sniffer's memory counter** is charged in full for a segment of which only the front part is put
  before the list (`SnifferRun.OverchargeHappens`); it is exact on exactly the runs without such a
  segment (`SnifferRun.CounterRun`).
- **The sniffer stores one byte too many** of a segment that is next in order and runs past the first
  fragment: the byte that follows the segment in memory. Without a limit a segment of the stream keeps
  everything in the stream if and only if that byte agrees, or something is held in its place, or the
  segment is not of this kind (`Reassembly.AdjustedFollows`, `Streams.AfterOfStream`); a segment after
  which the list has left the stream is in `Reassembly.StreamLost`.
- **After the sequence numbers have wrapped**, the relative number is one too small
  (`Streams.RolloverExact`).
- **A BIO whose write index has wrapped to 0** before anything was read again counts as empty: the next
  read returns a negative number and drops what is pending (`BioPair.ReadLoses`, `BioPair.RunThatLoses`).

## Model

| member | source | states |
|---|---|---|
| `Vli.Clear` | Hypervisor/cryptography/uECC.c:210-215 | the low words become the number 0 and the words above stay as they are |
| `Vli.IsZero` | Hypervisor/cryptography/uECC.c:220-227 | true exactly when the number in the words is 0 |
| `Vli.TestBit` | Hypervisor/cryptography/uECC.c:230-232 | reads bit `bit` of the number in the array |
| `Vli.NumDigits` | Hypervisor/cryptography/uECC.c:235-243 | no leading zero word is left, and the number is still the same |
| `Vli.NumBits` | Hypervisor/cryptography/uECC.c:246-261 | the bit length of the number: 2^(r-1) <= value < 2^r, and 0 for 0 |
| `Vli.Set` | Hypervisor/cryptography/uECC.c:265-270 | the number is copied, and the words above stay as they are |
| `Vli.CmpUnsafe` | Hypervisor/cryptography/uECC.c:274-286 | the sign of the difference of the two numbers |
| `Vli.Equal` | Hypervisor/cryptography/uECC.c:290-299 | the accumulated differences are zero exactly when the numbers are equal |
| `Vli.Cmp` | Hypervisor/cryptography/uECC.c:307-314 | the comparison by subtraction agrees with the sign of the difference |
| `Vli.Rshift1` | Hypervisor/cryptography/uECC.c:318-328 | the carry chain halves the number, rounding down |
| `Vli.Add` | Hypervisor/cryptography/uECC.c:333-347 | result + B^n * carry is the sum of the operands, however the result is aliased with them |
| `Vli.Sub` | Hypervisor/cryptography/uECC.c:352-366 | result - B^n * borrow is the difference of the operands, however the result is aliased with them |
| `VliMult.MulAdd` | Hypervisor/cryptography/uECC.c:372-410 | the three-word accumulator grows by exactly a * b as long as it does not overflow, for the double-word code and for the half-word code alike |
| `VliMult.ColumnsAreProduct` | Hypervisor/cryptography/uECC.c:414-443 | the columns weighted by their places add up to the product of the two numbers |
| `VliMult.NoOverflow` | Hypervisor/cryptography/uECC.c:414-443 | no column of two numbers of at most B words overflows the three-word accumulator |
| `VliMult.Mult` | Hypervisor/cryptography/uECC.c:414-443 | the result is the product of the two numbers, on all 2n words |
| `VliMult.Mul2Add` | Hypervisor/cryptography/uECC.c:449-494 | the accumulator grows by exactly 2 * a * b, the carry bits of the doubling included |
| `VliMult.Square` | Hypervisor/cryptography/uECC.c:496-531 | with or without a squaring function of its own, the result is the product of the number with itself |
| `VliMod.ModAdd` | Hypervisor/cryptography/uECC.c:538-549 | reduced operands give the sum modulo mod; the unreduced left operand that signing passes loses mod at most once |
| `VliMod.ModSub` | Hypervisor/cryptography/uECC.c:552-563 | the difference modulo mod, through the borrow; an unreduced left operand keeps its excess |
| `VliMod.Mmod` | Hypervisor/cryptography/uECC.c:567-607 | for every product of 2n words and every modulus with a nonzero top word the shift-and-subtract loop leaves product mod mod |
| `VliMod.ReduceStep` | Hypervisor/cryptography/uECC.c:590-605 | a round keeps the residue and keeps the value below twice the shifted modulus |
| `VliMod.ModMult` | Hypervisor/cryptography/uECC.c:610-618 | (left * right) mod mod, also for unreduced operands |
| `VliMod.ModSquare` | Hypervisor/cryptography/uECC.c:637-644 | left squared modulo mod |
| `VliInv.Update` | Hypervisor/cryptography/uECC.c:679-690 | halves modulo an odd modulus: the carry of the addition comes back as the top bit |
| `VliInv.InvStep` | Hypervisor/cryptography/uECC.c:709-735 | every branch of the loop keeps u * x = a and v * x = b modulo mod and the common divisors of a and b, and makes a + b smaller |
| `VliInv.ModInv` | Hypervisor/cryptography/uECC.c:694-737 | terminates for every input and every odd modulus; the result times the input is their greatest common divisor modulo mod |
| `VliInv.CoprimeInverse` | Hypervisor/cryptography/uECC.c:692-737 | for coprime inputs that is the inverse |
| `Bytes.NativeToBytes` | Hypervisor/cryptography/uECC.c:957-965 | the bytes are the big-endian form of the number, cut to the length (section 2.3.7 of SEC 1) |
| `Bytes.BytesToNative` | Hypervisor/cryptography/uECC.c:967-977 | the words hold the big-endian number of the bytes (section 2.3.8 of SEC 1) |
| `Bytes.RoundTrip` | Hypervisor/cryptography/uECC.c:957-977 | reading bytes and writing them again gives the same bytes, for every length |
| `Bytes.BEInjective` | Hypervisor/cryptography/uECC.c:957-977 | byte strings of equal length with the same number are equal |
| `Bytes.BEByte` | Hypervisor/cryptography/uECC.c:957-977 | every byte of a string is at its place in the number, the first one highest |
| `Words.ValDigit` | Hypervisor/cryptography/uECC.c:333-347 | every word of an array is at its place in the number, the first one lowest |
| `BitsToInt.ShiftDown` | Hypervisor/cryptography/uECC.c:1259-1266 | the carry chain divides by a power of two below the word length |
| `BitsToInt.BitsToNative` | Hypervisor/cryptography/uECC.c:1236-1272 | the leftmost num_n_bits bits of the hash (section 2.3.2 of RFC 6979), less n once if they were shifted and are not below n |
| `BitsToInt.LeftBitsBound` | Hypervisor/cryptography/uECC.c:1236-1272 | the leftmost count bits are below 2^count |
| `EcdsaTheorem.HashNumberCong` | Hypervisor/cryptography/uECC.c:1236-1272 | the hash number is congruent to the leftmost bits modulo n, and below n whenever it was shifted |
| `EcdsaTheorem.HashNumberExact` | Hypervisor/cryptography/uECC.c:1236-1272 | the hash number exactly: the leftmost bits, less n once if bits were shifted out and they are not below n; the leftmost bits are those that the shift leaves |
| `Secp256k1.OmegaMult` | Hypervisor/cryptography/include/curve-specific.inc:1212-1226 | the 32-bit loop and the shifted addition multiply by 2^32 + 977 |
| `Secp256k1.FoldedCong` | Hypervisor/cryptography/include/curve-specific.inc:1165-1170 | folding the high half twice keeps the residue modulo p and keeps zero apart from nonzero |
| `Secp256k1.MmodFast` | Hypervisor/cryptography/include/curve-specific.inc:1158-1179 | the array code computes FastValue of the product |
| `Secp256k1.FastExact` | Hypervisor/cryptography/include/curve-specific.inc:1158-1179 | FastValue is the product modulo p, except p for nonzero multiples of p and a number too small by c when a carry is lost |
| `Secp256k1.FastReduces` | Hypervisor/cryptography/include/curve-specific.inc:1158-1179 | it is the remainder if and only if no carry is lost and the product is no nonzero multiple of p |
| `Secp256k1.LosingProduct` | Hypervisor/cryptography/include/curve-specific.inc:1168-1175 | two numbers below p whose product loses the carry: the result is too small by c |
| `CurveGroup.SameX` | Hypervisor/cryptography/uECC.c:860-903 | points of the curve with the same abscissa are equal or opposite |
| `CurveGroup.MulZero` | Hypervisor/cryptography/uECC.c:860-903 | for a point of prime order n exactly the multiples of n give infinity |
| `CurveGroup.MulSameX` | Hypervisor/cryptography/uECC.c:860-903 | two multiples with the same abscissa have a sum or a difference that n divides |
| `CurveGroup.ChordLaw` | Hypervisor/cryptography/uECC.c:787-817 | the sum of two points, reflected, lies on the line through them, and the square of the slope is the sum of the three abscissas |
| `CurveGroup.TangentLaw` | Hypervisor/cryptography/include/curve-specific.inc:1111-1145 | the double of a point, reflected, lies on the line with the slope (3x^2 + a) / 2y through it |
| `CurveGroup.NeutralLaw` | Hypervisor/cryptography/uECC.c:860-903 | opposite points add up to infinity, and infinity is neutral |
| `CoZ.AddFormCorrect` | Hypervisor/cryptography/uECC.c:787-817 | the sequence of XYcZ_add gives the chord-rule sum and leaves the first point rescaled, both over Z * (x2 - x1) |
| `CoZ.AddSubFormCorrect` | Hypervisor/cryptography/uECC.c:818-857 | the sequence of XYcZ_addC gives the difference and the sum, both over Z * (x2 - x1) |
| `CoZ.ScaleFormCorrect` | Hypervisor/cryptography/uECC.c:750-761 | apply_z turns affine coordinates into Jacobian ones with that z |
| `CoZ.UnscaleCorrect` | Hypervisor/cryptography/uECC.c:750-761 | apply_z with the inverse of z gives the affine coordinates back |
| `Doubling.DoubleZeroCorrect` | Hypervisor/cryptography/include/curve-specific.inc:1111-1147 | the doubling for a = 0 gives the tangent-rule double |
| `Doubling.DoubleMinusThreeCorrect` | Hypervisor/cryptography/include/curve-specific.inc:51-96 | the doubling for a = -3 gives the tangent-rule double |
| `PointOps.ApplyZ` | Hypervisor/cryptography/uECC.c:751-761 | the registers change as ScaleForm says |
| `PointOps.XYcZAdd` | Hypervisor/cryptography/uECC.c:791-817 | the register sequence computes AddForm in place, with every result reduced even if the second point is not |
| `PointOps.XYcZAddC` | Hypervisor/cryptography/uECC.c:822-857 | the register sequence computes AddSubForm in place and keeps every value reduced |
| `PointOps.HalveP` | Hypervisor/cryptography/include/curve-specific.inc:77-83 | half of a reduced number modulo the odd modulus, with the carry shifted into the top bit |
| `PointOps.DoubleJacobian` | Hypervisor/cryptography/include/curve-specific.inc:1111-1147 | the curve's doubling on registers, also for coordinates that are not reduced; z = 0 leaves everything alone |
| `Ladder.StepCorrect` | Hypervisor/cryptography/uECC.c:879-883 | a regular iteration takes (m * P, (m + 1) * P) to the same pair for 2m + bit |
| `Ladder.RunCorrect` | Hypervisor/cryptography/uECC.c:879-883 | the loop keeps that pair for the growing prefix of the scalar, top bit included |
| `Ladder.FinalZCorrect` | Hypervisor/cryptography/uECC.c:888-896 | the value recovered before the last addition is the inverse of its z, for both values of the last bit |
| `Ladder.FinishCorrect` | Hypervisor/cryptography/uECC.c:884-899 | the last bit ends with the affine coordinates of the multiple |
| `Ladder.ClimbCorrect` | Hypervisor/cryptography/uECC.c:876-902 | on a regular scalar the ladder yields k * P |
| `Ladder.ClimbCollapses` | Hypervisor/cryptography/uECC.c:876-902 | when the iteration at bit 1 meets opposite points, the ladder yields (0, 0) |
| `Ladder.ZeroAbscissa` | Hypervisor/cryptography/uECC.c:887-898 | a point with abscissa 0 is mapped to (0, 0), whatever the scalar |
| `PointMult.InitialDouble` | Hypervisor/cryptography/uECC.c:764-785 | the registers hold P and 2P over the same z, for a given or missing initial z |
| `PointMult.LadderLoop` | Hypervisor/cryptography/uECC.c:879-883 | the loop on the indexed register pairs computes Ladder.Run |
| `PointMult.RecoverFinalZ` | Hypervisor/cryptography/uECC.c:888-896 | the registers compute the inverse and the recovered 1/Z |
| `PointMult.EccPointMult` | Hypervisor/cryptography/uECC.c:860-903 | the whole function computes MultValue, also when the result is the point |
| `Regularize.FixedLength` | Hypervisor/cryptography/uECC.c:905-930 | the chosen scalar is congruent to k modulo n and has exactly b + 1 bits |
| `Regularize.StepsOfRegular2` | Hypervisor/cryptography/uECC.c:905-930 | on it every iteration is regular, unless k is 1, n - 2 or n - 1, where all but the last two are and bit 1 meets opposite points |
| `BaseMult.RegularizeK` | Hypervisor/cryptography/uECC.c:905-916 | the array that the flag selects holds that scalar modulo the size of the array, whether the top bit is stored or only the lost carry |
| `BaseMult.LostCarry` | Hypervisor/cryptography/uECC.c:879-883 | the ladder gives the same result without the lost top bit |
| `BaseMult.MultValueExact` | Hypervisor/cryptography/uECC.c:860-930 | EccPoint_mult on a regularised scalar is k * P, and (0, 0) exactly for the exceptional scalars and for abscissa 0 |
| `KeyPair.MultG` | Hypervisor/cryptography/uECC.c:927-930 | regularising and multiplying, on arrays, gives TimesG |
| `KeyPair.ComputePublicKey` | Hypervisor/cryptography/uECC.c:1159-1192 | succeeds exactly for keys in 1 .. n - 1 whose multiple is not (0, 0), and stores its coordinates |
| `EcdsaTheorem.TimesGExact` | Hypervisor/cryptography/uECC.c:918-936 | TimesG is the multiple of the base point, and (0, 0) exactly in the exceptional cases |
| `EcdsaTheorem.KeyPairExact` | Hypervisor/cryptography/uECC.c:918-936 | a key pair comes out exactly for the keys that are not exceptional |
| `EcdsaSign.BlindedInverse` | Hypervisor/cryptography/uECC.c:1319-1323 | the random factor cancels: the blinded inversion gives 1/k |
| `EcdsaSign.InvertBlinded` | Hypervisor/cryptography/uECC.c:1319-1323 | the array holds the inverse of k modulo n afterwards |
| `EcdsaSign.SolveS` | Hypervisor/cryptography/uECC.c:1335-1341 | the array holds (e + x * d) / k modulo n, though the sum is reduced at most once and e may exceed n |
| `EcdsaSign.SignWithK` | Hypervisor/cryptography/uECC.c:1279-1351 | succeeds exactly for a nonce in range with nonzero abscissa, a working generator and an s that fits, and stores the abscissa and s |
| `EcdsaTheorem.SignsExact` | Hypervisor/cryptography/uECC.c:1300-1346 | on the curve, signing with a nonce succeeds exactly for the nonces in 1 .. n - 1 that are not exceptional, if neither the base point nor k * G has the abscissa 0, the generator works and s fits |
| `EcdsaTheorem.SignatureFits` | Hypervisor/cryptography/uECC.c:1343-1346 | s always fits when the order is not longer than a coordinate |
| `EcdsaTheorem.SignatureIs` | Hypervisor/cryptography/uECC.c:1300-1351 | the stored r is the abscissa of k * G, and the stored s is below n with s * k = e + r * d modulo n |
| `EcdsaTheorem.SignatureEquation` | Hypervisor/cryptography/uECC.c:1319-1341 | s is below n and s * k = e + r * d modulo n |
| `Shamir.AddPointCorrect` | Hypervisor/cryptography/uECC.c:1595-1601 | adding an affine point to the accumulator adds the multiples, with the new z |
| `Shamir.AddPointVanishes` | Hypervisor/cryptography/uECC.c:1595-1601 | equal abscissas make z zero |
| `Shamir.JointStepCorrect` | Hypervisor/cryptography/uECC.c:1589-1602 | an iteration keeps (u1 >> i) * G + (u2 >> i) * Q, or makes z zero |
| `Shamir.JointRunCorrect` | Hypervisor/cryptography/uECC.c:1589-1603 | so does the loop; z stays zero once it is |
| `Shamir.SumFormCorrect` | Hypervisor/cryptography/uECC.c:1564-1572 | the table entry is the affine sum G + Q |
| `Shamir.JointXExact` | Hypervisor/cryptography/uECC.c:1564-1606 | the abscissa that is compared is that of u1 * G + u2 * Q if no addition is degenerate, and 0 otherwise |
| `Shamir.JointXSame` | Hypervisor/cryptography/uECC.c:1563-1606 | the compared abscissa depends on the public key only modulo p, unless the key lies p above the base point and the sum of the two is needed |
| `Shamir.SumOfBaseAndKey` | Hypervisor/cryptography/uECC.c:1564-1572 | for the keys G and -G the table entry for the sum is (0, 0) |
| `Shamir.CommonTopVanishes` | Hypervisor/cryptography/uECC.c:1582-1606 | for these keys, scalars with a common top bit give the abscissa 0 |
| `EcdsaVerify.DifferenceInvertible` | Hypervisor/cryptography/uECC.c:1569-1571 | an unreduced difference of abscissas is inverted like the reduced one, and p is inverted to 1 |
| `EcdsaVerify.JointLoop` | Hypervisor/cryptography/uECC.c:1589-1603 | the registers follow JointRun |
| `EcdsaVerify.Scalars` | Hypervisor/cryptography/uECC.c:1557-1562 | u1 and u2 are e / s and r / s modulo n |
| `EcdsaVerify.CompareX` | Hypervisor/cryptography/uECC.c:1608-1615 | one conditional subtraction of n before the comparison |
| `EcdsaVerify.BitLengthBound` | Hypervisor/cryptography/uECC.c:1579-1583 | the number of bits is such that one scalar has its top bit at the start of the loop |
| `EcdsaVerify.Verify` | Hypervisor/cryptography/uECC.c:1506-1615 | accepts exactly when r and s are in range and the computed abscissa, reduced once, is r; for every public key with an abscissa below 2p, reduced or not, on the curve or not |
| `EcdsaTheorem.AcceptsExact` | Hypervisor/cryptography/uECC.c:1506-1615 | acceptance is the equation of the standard (section 4.1.4 of SEC 1) together with the absence of degenerate additions, for every key but infinity; for G and -G when the scalars share no one bit |
| `EcdsaTheorem.AcceptsKey` | Hypervisor/cryptography/uECC.c:1506-1615 | so decided for every pair of numbers that stands for the public key modulo p, reduced or not |
| `EcdsaTheorem.CommonTopRejected` | Hypervisor/cryptography/uECC.c:1582-1615 | for the keys G and -G a signature whose scalars share their top bit is rejected |
| `EcdsaTheorem.ValidButRejected` | Hypervisor/cryptography/uECC.c:1589-1615 | with the key 2 * G and the abscissa of 4 * G no multiple of n: a signature that satisfies the equation of the standard and is rejected, because the loop adds 2 * G to itself |
| `EcdsaTheorem.NonceRecovered` | Hypervisor/cryptography/uECC.c:1557-1562 | u1 + u2 * d = k modulo n |
| `EcdsaTheorem.ScalarsAre` | Hypervisor/cryptography/uECC.c:1557-1562 | the scalars are below n, with u1 * s = e and u2 * s = r modulo n |
| `EcdsaTheorem.CleanStepIs` | Hypervisor/cryptography/uECC.c:1589-1602 | an iteration is degenerate exactly when the multiple it has reached is, up to the sign, the one it adds, modulo n |
| `EcdsaTheorem.CleanRunIs` | Hypervisor/cryptography/uECC.c:1578-1603 | a run is free of that exactly if every iteration below the top bit of the longer scalar is |
| `EcdsaTheorem.SignThenVerify` | Hypervisor/cryptography/uECC.c:1279-1351 | verification accepts what signing produced if and only if r < n, s is not 0 and no addition of the loop is degenerate |
| `Hmac.HashContext.HmacInit` | Hypervisor/cryptography/uECC.c:1380-1390 | the hash has absorbed the inner pad of K, and K and V are unchanged |
| `Hmac.HashContext.HmacFinish` | Hypervisor/cryptography/uECC.c:1398-1414 | the code of RFC 2104 (`Hmac.MacIs`) replaces V, or the key K itself while it is in use |
| `Hmac.XorByteBit` | Hypervisor/cryptography/uECC.c:1384-1404 | in a pad byte exactly the bits of the constant are flipped |
| `Hmac.MacIs` | Hypervisor/cryptography/uECC.c:1380-1414 | the code is the hash of the key with the bits of 0x5c flipped and the hash of the key with the bits of 0x36 flipped and the text, the key being continued with zeros |
| `Hmac.HashContext.UpdateV` | Hypervisor/cryptography/uECC.c:1417-1421 | V becomes HMAC_K(V) |
| `Hmac.HashContext.NewK` | Hypervisor/cryptography/uECC.c:1447-1453 | K becomes HMAC_K(V, separator, key, hash) though the separator overwrites the pad |
| `Hmac.HashContext.Seed` | Hypervisor/cryptography/uECC.c:1442-1465 | steps b to g of section 3.2 of RFC 6979, with the hash as given: K and V are given by the four codes, from zeros and ones with the separators 0x00 and 0x01 |
| `Hmac.SeededIs` | Hypervisor/cryptography/uECC.c:1442-1465 | those four values, as a property of the schedule |
| `Hmac.HashContext.Draw` | Hypervisor/cryptography/uECC.c:1471-1480 | the bytes of the nonce are successive values of V, and the state is that after the last |
| `Hmac.DrawnBytes` | Hypervisor/cryptography/uECC.c:1471-1480 | byte i of a nonce is byte i mod size of value number i / size + 1 of V |
| `Hmac.DrawnIs` | Hypervisor/cryptography/uECC.c:1471-1480 | the bytes of a nonce and the state after them, from the values of V, each the code of the one before |
| `DeterministicSign.MaskNonce` | Hypervisor/cryptography/uECC.c:1481-1485 | masking the top word cuts the nonce to num_n_bits bits |
| `DeterministicSign.DrawNonce` | Hypervisor/cryptography/uECC.c:1468-1485 | the words hold the nonce of the state, read as a little-endian machine does |
| `DeterministicSign.StateIs` | Hypervisor/cryptography/uECC.c:1487-1497 | the state of a try after a rejected one: a new K from V and a zero byte, and the next V |
| `DeterministicSign.LEByte` | Hypervisor/cryptography/uECC.c:1468-1485 | the first byte in memory is the lowest of the number |
| `DeterministicSign.TryNonceIs` | Hypervisor/cryptography/uECC.c:1467-1485 | the nonce of a try: the bytes of the values of V after its state, read as the machine reads them, without a multiple of 2^num_n_bits |
| `DeterministicSign.SignDeterministic` | Hypervisor/cryptography/uECC.c:1429-1500 | the signature is that of the first of the 64 nonces of the schedule that gives one, and failure means that none does |
| `Sha256.HashBlocksStep` | Hypervisor/cryptography/sha256.c:107-111 | one more block is one more compression |
| `Sha256.PaddedShape` | Hypervisor/cryptography/sha256.c:121-144 | the padding is a one bit, the fewest zeros and the length, in whole blocks (section 5.1.1 of FIPS 180-4) |
| `Sha256.LastBlocks` | Hypervisor/cryptography/sha256.c:121-145 | one or two compressions of the padded buffer hash the padded message |
| `Sha256.CountAdd` | Hypervisor/cryptography/sha256.c:109-136 | the 64-bit bit counter is the length modulo 2^64 |
| `Sha256.Context.Transform` | Hypervisor/cryptography/sha256.c:45-84 | the schedule and the 64 rounds in place compute the compression of section 6.2.2 of FIPS 180-4, whose functions the laws below give bit by bit |
| `Sha256Laws.ChPicks` | Hypervisor/cryptography/sha256.c:25 | bit i is that of y where x has a one, and that of z elsewhere |
| `Sha256Laws.MajVotes` | Hypervisor/cryptography/sha256.c:26 | bit i is the one that at least two of the three have |
| `Sha256Laws.BigSigma0At` | Hypervisor/cryptography/sha256.c:27 | bit i is the parity of the bits 2, 13 and 22 places up, round the word |
| `Sha256Laws.BigSigma1At` | Hypervisor/cryptography/sha256.c:28 | bit i is the parity of the bits 6, 11 and 25 places up, round the word |
| `Sha256Laws.SmallSigma0At` | Hypervisor/cryptography/sha256.c:29 | bit i is the parity of the bits 7 and 18 places up, round the word, and 3 places up in it |
| `Sha256Laws.SmallSigma1At` | Hypervisor/cryptography/sha256.c:30 | bit i is the parity of the bits 17 and 19 places up, round the word, and 10 places up in it |
| `Sha256Laws.BytePlaces` | Hypervisor/cryptography/sha256.c:49-50 | the first byte of a word is its highest |
| `Sha256Laws.StateByteLaw` | Hypervisor/cryptography/sha256.c:147-158 | and is stored first |
| `Sha256Laws.WordBack` | Hypervisor/cryptography/sha256.c:147-158 | reading the bytes that are stored for a word gives the word |
| `Sha256Abc.DigestAbc` | Hypervisor/cryptography/sha256.c:33-159 | the digest of "abc" is the one in the first example of FIPS 180-4, so that the constants, the initial value, the schedule and the rounds are those of the standard |
| `Sha256.Context.Init` | Hypervisor/cryptography/sha256.c:86-98 | the empty message |
| `Sha256.Context.Update` | Hypervisor/cryptography/sha256.c:100-113 | the message grows by the bytes, wherever the block boundaries fall |
| `Sha256.Context.Final` | Hypervisor/cryptography/sha256.c:115-159 | the digest of everything passed in, so that any split into updates gives the one-shot hash |
| `Fragments.InsertedLook` | wolfssl/src/sniffer.c:2742-2743 | inserting into a gap adds the fragment's bytes and changes no other position |
| `Fragments.HoldsInsert` | wolfssl/src/sniffer.c:2737-2744 | a stored piece extends the part of the segment that is held |
| `Fragments.HoldsSkip` | wolfssl/src/sniffer.c:2712-2718 | bytes that are there already may be skipped |
| `Reassembly.Direction.AddToReassembly` | wolfssl/src/sniffer.c:2650-2747 | the list stays ordered and disjoint and holds exactly the old bytes and, in the gaps, the segment's; with -1 a first part of the segment, the next missing bytes being over the limit; the overcharge is that of a cut front part; a segment before the front is refused exactly if the bytes charged with it exceed a limit other than 1 |
| `Reassembly.FrontLimitedExact` | wolfssl/src/sniffer.c:2688-2693 | a segment before the front is refused exactly if the bytes charged and its own exceed a limit other than 1, as 32-bit numbers read with a sign |
| `Reassembly.Direction.FillGaps` | wolfssl/src/sniffer.c:2704-2746 | the loop ends, and keeps order, contents and charges |
| `Reassembly.Direction.constructor` | wolfssl/src/sniffer.c:698-706 | nothing is held, released or counted |
| `Reassembly.Direction.Adjust` | wolfssl/src/sniffer.c:2768-2878 | the result, which bytes of a segment are delivered, duplicates and bytes from the first fragment on left out, what is stored and charged, and where expected moves, FIN included |
| `Reassembly.Direction.AdjustSequence` | wolfssl/src/sniffer.c:2768-2878 | the same, and: without a limit a segment of a stream keeps everything released and held in it if and only if the byte behind it agrees whenever it is stored, which is when the segment is next in order, runs past the first fragment, and nothing is held there |
| `Reassembly.AdjustedFollows` | wolfssl/src/sniffer.c:2768-2878 | the if-and-only-if, as a property of the states before and after; with a limit the if part |
| `Reassembly.AdjustedPlain` | wolfssl/src/sniffer.c:2788-2875 | which segments are delivered, and how far: up to the front of the list, FIN taking a position of its own; every other segment leaves expected and what was released alone |
| `Reassembly.StreamLost` | wolfssl/src/sniffer.c:2861-2868 | a list and a segment of the stream after which the list holds a byte that is not in the stream |
| `Reassembly.TailStored` | wolfssl/src/sniffer.c:2810-2818 | storing the rest of a segment puts the byte after it on the list, unless one is held there |
| `Reassembly.DeliveredSlice` | wolfssl/src/sniffer.c:2788-2875 | what is delivered continues what was released |
| `Streams.RolloverExact` | wolfssl/src/sniffer.c:2773-2784 | the relative number is the difference modulo 2^32, and one less after a wrap |
| `Reassembly.Direction.HaveMoreInput` | wolfssl/src/sniffer.c:3156-3217 | bytes held from expected on, without a gap, are drained and no others leave the list; draining stops only at a gap or a full buffer |
| `Reassembly.DrainedFront` | wolfssl/src/sniffer.c:3180-3209 | a fragment next in order holds the next bytes |
| `Reassembly.DrainedFollows` | wolfssl/src/sniffer.c:3156-3217 | drained bytes of a stream continue it |
| `Reassembly.Direction.FindNextRecord` | wolfssl/src/sniffer.c:2881-2962 | fragments are dropped up to the first that starts a record, with their bytes taken off the counter |
| `Reassembly.SearchedResumes` | wolfssl/src/sniffer.c:2904-2961 | after a search the input is what was held right before the position from which the stream goes on, and everything held from there on stays held |
| `SnifferRun.SegmentOvercharge` | wolfssl/src/sniffer.c:2683-2702 | a segment is overcharged by exactly what is cut off when its front is put before the list |
| `SnifferRun.SegmentTotal` | wolfssl/src/sniffer.c:2768-2878 | a segment adds at most its length to the bytes held, and takes none away |
| `SnifferRun.Process` | wolfssl/src/sniffer.c:2678-2955 | any sequence of segments, drains and searches is a run of the steps |
| `SnifferRun.RunCharge` | wolfssl/src/sniffer.c:2678-2955 | over a whole run the overcharge never falls, and stays exactly if nothing was cut |
| `SnifferRun.CounterRun` | wolfssl/src/sniffer.c:2678-2955 | after every run charged less than 2^32 bytes the counter is not below the bytes held, and from a start without overcharge it equals them if and only if no segment was cut before the front |
| `SnifferRun.OverchargeHappens` | wolfssl/src/sniffer.c:2683-2702 | a segment after which the counter is 3 with two bytes held |
| `SnifferRun.RefusalHappens` | wolfssl/src/sniffer.c:2688-2693 | without a limit, a segment before the front that is refused |
| `SnifferRun.RunFollows` | wolfssl/src/sniffer.c:2768-2878 | whatever the limit, everything released and held stays in the stream over whole runs, if no byte behind a segment that is stored disagrees |
| `SnifferRun.AdjustedPart` | wolfssl/src/sniffer.c:2768-2878 | a segment that is not refused is received: released up to expected, and listed from there on |
| `SnifferRun.RefusedFront` | wolfssl/src/sniffer.c:2683-2693 | refused is what begins before everything that was received early |
| `SnifferRun.FollowStream` | wolfssl/src/sniffer.c:3156-3217 | after any segments in any order, exactly the bytes up to the first position not received are released, each position with the byte that came first, up to the first refused segment; the counter is exact; no stall before more than MAX_INPUT_SZ bytes were received |
| `Streams.NextOfStream` | wolfssl/src/sniffer.c:2768-2878 | on what has been received: a segment keeps it in the stream if and only if the byte behind it agrees whenever it is stored |
| `Streams.AfterOfStream` | wolfssl/src/sniffer.c:2768-2878 | over all segments: what has been received belongs to the stream if and only if every byte stored behind a segment does |
| `SnifferRun.StreamReleased` | wolfssl/src/sniffer.c:3156-3217 | what is released is then the stream up to the first gap, and conversely |
| `Streams.EverythingReleased` | wolfssl/src/sniffer.c:2768-2878 | segments that carry every position up to an end, in any order and with any overlaps, leave no gap before it if none is refused |
| `BioPair.ReadTakes` | wolfssl/src/bio.c:848-922 | a read outside the wrapped-to-start state takes the oldest bytes |
| `BioPair.ReadLoses` | wolfssl/src/bio.c:863-922 | in that state it returns a negative count and drops everything |
| `BioPair.WriteRoom` | wolfssl/src/bio.c:943-976 | a write begins right behind all that is pending and can use all that is free, up to the end of the buffer; it is refused exactly when the buffer is full |
| `BioPair.ReadRoom` | wolfssl/src/bio.c:848-872 | a read can take all that is pending, up to the end of the buffer |
| `BioPair.WriteAppends` | wolfssl/src/bio.c:978-991 | written bytes follow what is pending |
| `BioPair.WhenWrapped` | wolfssl/src/bio.c:987-991 | the state is entered exactly by a write that fills the buffer to its end behind bytes already read |
| `BioPair.PutAppends` | wolfssl/src/bio.c:301-325 | a write accepts a first part of the data and appends it |
| `BioPair.ShortWrite` | wolfssl/src/bio.c:949-976 | a write that accepts fewer bytes than it was given leaves the buffer full or has reached its end |
| `BioPair.TakeRemoves` | wolfssl/src/bio.c:53-65 | a read returns a first part of what is pending and removes it |
| `BioPair.ShortRead` | wolfssl/src/bio.c:896-906 | a read that returns fewer bytes than it was asked for leaves nothing or has reached the end of the buffer |
| `BioPair.RunIsFifo` | wolfssl/src/bio.c:848-995 | over every run without a read in that state, pending and written bytes are read and pending ones, in order |
| `BioPair.RunThatLoses` | wolfssl/src/bio.c:848-995 | a write, a read and a write that are followed by a losing read |
| `BioPair.Bio.CtrlPending` | wolfssl/src/bio.c:691-721 | the number of pending bytes outside that state, and minus the read index in it |
| `BioPair.Bio.Nread0` | wolfssl/src/bio.c:848-872 | where the first contiguous run is and how long |
| `BioPair.Bio.Nread` | wolfssl/src/bio.c:876-925 | advances the pair's indices as Take says and returns the least of the count, of what is pending and of the bytes up to the end of the buffer; for a negative count it moves the read index back |
| `BioPair.Bio.Nwrite` | wolfssl/src/bio.c:928-995 | grants the least of the count, of what is free and of the bytes up to the end of the buffer, and advances the write index; for a negative count it moves it back |
| `BioPair.Bio.Write` | wolfssl/src/bio.c:301-325 | the ring after it is that of Put |
| `BioPair.Bio.Read` | wolfssl/src/bio.c:53-65 | the ring after it is that of Take and the buffer holds the bytes; in the wrapped-to-start state nothing is copied and all is gone |
| `BioPair.Bio.SetWriteBufSize` | wolfssl/src/bio.c:754-791 | an empty ring of the size, only for an unpaired BIO |
| `BioPair.MakePair` | wolfssl/src/bio.c:799-830 | two unpaired BIOs become each other's pair, with the default size where none was set |
| `InterVm.QueueAppend` | Hypervisor/drivers/inter-vm-comm.c:106-113 | a message stored at the write index joins the queue at its end |
| `InterVm.QueueRemove` | Hypervisor/drivers/inter-vm-comm.c:143-154 | moving the read index takes the oldest message |
| `InterVm.Vcpu.Store` | Hypervisor/drivers/inter-vm-comm.c:106-116 | the target has accepted the message with its source, and in = (out + num) mod size still holds |
| `InterVm.Vcpu.Receive` | Hypervisor/drivers/inter-vm-comm.c:130-156 | the oldest message is delivered with size and source, or there is none |
| `InterVm.Hypervisor.StartCpu` | Hypervisor/arch/mips/common/vcpu.c:118-121 | a CPU can receive messages once it has run |
| `InterVm.TargetExact` | Hypervisor/sys/kernel/scheduler.c:112-124 | a message has no target exactly if no machine with a CPU has the id; otherwise it is the first CPU of the first such machine |
| `InterVm.Hypervisor.FindVcpu` | Hypervisor/sys/kernel/scheduler.c:112-124 | null exactly if no machine has the id, and otherwise the first CPU of the first machine with it |
| `InterVm.Hypervisor.SendMsg` | Hypervisor/drivers/inter-vm-comm.c:71-121 | the result code is that of the first failing check, only an accepted message changes a queue, the target's, and only the target is interrupted, when it accepted or is full; an accepted message is for the first CPU of the first machine with the id |
| `InterVm.Hypervisor.RecvMsg` | Hypervisor/drivers/inter-vm-comm.c:130-156 | the executing CPU gets the head of its own queue, and no other queue changes |
| `InterVm.Hypervisor.ExactlyOnceInOrder` | Hypervisor/drivers/inter-vm-comm.c:71-156 | in every run, what a CPU received followed by what waits is what was accepted for it, in order |

## Left out

- KeyPair.CurveOk: scalars and field elements have the same number of words and the coordinates' bytes fill them, which excludes secp160r1, where the order has one bit more than the field; the configured curve is secp256k1.
- EcdsaVerify.Verify: for curves whose coordinates can reach 2p, which secp256k1 is not, nothing but the ranges of r and s is stated for a public key whose abscissa is 2p or a higher multiple of p above that of the base point.
- EcdsaTheorem.AcceptsExact: for the keys G and -G, when the scalars share a one bit but not the top one, the loop adds the table entry (0, 0), which is no point, and nothing is said beyond what `Shamir.JointX` computes; that the curve's addition is closed and associative, and that p and n are prime, are hypotheses.
- PointOps.ModMultFast: the point operations are modelled on the reduction that optimisation level 0 selects; the fast reduction of the other levels is modelled by itself, with the products on which the two agree.
- PointOps.XYcZAdd: points are pairs of arrays instead of the two halves of one.
- Secp256k1.OmegaMult: only the 32-bit form, which the target uses; the 8-bit and 64-bit forms and the reductions of the other curves are not modelled.
- Bytes.NativeToBytes: the little-endian shortcut that reinterprets memory instead of converting is not modelled.
- DeterministicSign.SignDeterministic: the nonce's bytes are read as a little-endian machine reads them; the blinding factors of the tries are parameters.
- Hmac.HashContext.Seed: the message hash is used as given and not reduced modulo n, which is one of the two differences from RFC 6979 that the source announces; the other is that the nonce's bytes are not converted. The hash function is a parameter.
- Reassembly.Direction.AddToReassembly: the fragments are a sequence instead of linked nodes, allocation succeeds, and one direction of a session is modelled at a time.
- Reassembly.Direction.AdjustSequence: segments whose relative numbers reach 2^32 are excluded, and nothing is stated about segments that follow a FIN; recovery of missed data (`FixSequence` and the skip-partial flag) is not modelled.
- SnifferRun.FollowStream: without a memory limit and for less than 2^31 bytes; the record layer takes all the input after every segment, and acknowledgements are not looked at.
- Reassembly.Direction.FindNextRecord: the test for the start of a record is a parameter, and the cipher state is not modelled.
- BioPair.Bio.Nread: null arguments are excluded by the types, and allocation succeeds; after a negative count only the indices are stated.
- BioPair.Bio.CtrlPending: pending bytes of memory and SSL BIOs are not modelled.
- InterVm.Hypervisor.SendMsg: guest memory and its mapping are the sequence of bytes that is passed, and the interrupt bits are one flag.
- Random number generation, point compression, shared secrets, point validation, and `uECC_sign` with its random nonces.
- Timing and side channels.
- TLS records, handshakes and decryption, IP and TCP header parsing, sessions and key files.
- File, socket, SSL, memory and base64 BIOs.
- Device drivers, scheduling and the rest of the hypervisor.
