# Verified models of the mbed TLS arithmetic and cipher structure

The repository vendors mbed TLS under `libs/mbedtls`. This project models, in Dafny, the parts of that library where
the algorithms are intricate, and proves them against their mathematical specifications:

- **Multi-precision integers** (`bignum.c`, `bn_mul.h`, parts of `constant_time.c`): limbs, comparison, shifts, addition
  and subtraction, the multiply kernels, two-limb division, long division, Montgomery multiplication, sliding-window
  exponentiation, binary gcd, modular inverse, Miller-Rabin, and input and output in radix 2 to 16 and as bytes.
  An MPI is a class with a sign and a limb sequence that the methods reassign in place; aliased operands are allowed
  wherever the C code allows them. A limb has 32 or 64 bits, which of the two stays open; words wrap and shifts lose
  bits explicitly. Files `Arith` to `RadixIO`, `SmallPrimes` and `BinaryIO`.
- **PKCS #1 v1.5 decoding without branches** (`constant_time.c`). File `Pkcs1`.
- **Cipher structure over an abstract block function**: XTS (`aes.c`), Camellia, ARIA, the incremental CCM context and the
  incremental CBC interface with its paddings (`cipher.c`). Files `Blocks`, `Xts`, `Camellia`, `Aria`, `Ccm`, `Padding`, `Cbc`.
- **The DER INTEGER writer and parser** (`asn1write.c`, `asn1parse.c`). File `Der`.

Each module opens with the specification (values of limb sequences, byte strings, the standard's functions), gives the
methods with the state they leave in terms of it, and proves the laws of the specification as lemmas: what its smallest
parts mean as numbers, bits or bytes, that its operations undo each other, and how they can be cut into pieces. The
contexts of CCM and CBC keep ghost histories of the data given and produced, so that their contracts speak about any way
of cutting a message into calls. `dafny verify dfyconfig.toml` checks everything.

Where a law fails for part of the inputs, a lemma gives the exact condition and another one failing inputs:
`DivMpis.DivisionHoldsIff` (`DivisionFails`), `DivMpis.IntResidueIff` (`IntResidueFails`),
`ExpMods.ResultIsResidueIff` (`ResultFails`), `Gcds.ResultIsGcd` (`ResultFails`), `ConstTime.SizeGtIff`,
`Xts.RecoverableIff` (`PartialLost`), `Cbc.ZeroPaddedComesBackIff` (`ZeroByteLost`), `Der.NumberComesBackIff`
(`SignLost`), `Der.NegativeContentsIff` (`NegativeContentsFail`).

After the invalid-padding error of `mbedtls_cipher_finish` the length it leaves means nothing: it may be a wrapped
difference far outside the block (`Paddings.LengthLeftWraps`).

In one place the code and its comment disagree, and the model follows the code: the comment on
`mbedtls_ct_mem_move_to_left` (`constant_time.c:365-380`) describes a fill that starts at `offset`; the code zeroes the
last `offset` bytes.

## Model

| member | source | states |
|---|---|---|
| Limbs.ValInjective | libs/mbedtls/library/bignum.c:66-69 | limb sequences of one length and one value are equal: the representation is unique up to leading zeros |
| Limbs.ValUpdate | libs/mbedtls/library/bignum.c:66-69 | writing one limb changes the value by the limb's weight times the difference |
| Limbs.AndBit | libs/mbedtls/library/bignum.c:296-304 | the bitwise and of words, bit by bit |
| Limbs.OrBit | libs/mbedtls/library/bignum.c:449-464 | the bitwise or of words, bit by bit |
| Limbs.HasBitShr | libs/mbedtls/library/bignum.c:296-304 | the shifts move the bits: bit k is the low bit after shifting right by k |
| Mpis.Mpi.constructor | libs/mbedtls/library/bignum.c:87-94 | a new MPI is positive, has no limbs and value 0 |
| Mpis.Mpi.Free | libs/mbedtls/library/bignum.c:99-113 | back to the state of a new MPI |
| Mpis.Mpi.Grow | libs/mbedtls/library/bignum.c:118-143 | the limb count grows to at least n, the new high limbs are zero, the value stays |
| Mpis.Mpi.Copy | libs/mbedtls/library/bignum.c:217-258 | takes the value of Y, never shrinks, and leaves a self-copy alone; sign and limb count in every case |
| Mpis.Mpi.LSet | libs/mbedtls/library/bignum.c:277-291 | sets the value to a word with sign |
| Mpis.Mpi.GetBit | libs/mbedtls/library/bignum.c:296-304 | bit pos of the magnitude, 0 beyond the limbs |
| Mpis.Mpi.Lsb | libs/mbedtls/library/bignum.c:342-353 | the exponent of the largest power of two dividing the magnitude, 0 for 0 |
| Mpis.Clz | libs/mbedtls/library/bignum.c:358-371 | biL minus the bit length of a word |
| Mpis.Mpi.Bitlen | libs/mbedtls/library/bignum.c:376-390 | the bit length of the magnitude |
| Mpis.CmpAbs | libs/mbedtls/library/bignum.c:1038-1065 | the sign of |X| - |Y|, whatever leading zero limbs either has |
| Mpis.CmpMpi | libs/mbedtls/library/bignum.c:1070-1100 | the sign of X - Y, with 0 and -0 equal |
| Mpis.CmpInt | libs/mbedtls/library/bignum.c:1105-1117 | the sign of X - z |
| Shifts.ShiftL | libs/mbedtls/library/bignum.c:943-989 | multiplies the value by two to the count; says when the limbs grow and to what |
| Shifts.ShiftR | libs/mbedtls/library/bignum.c:994-1033 | divides the magnitude by two to the count, rounding down |
| AddSubs.AddAbs | libs/mbedtls/library/bignum.c:1122-1176 | X = |A| + |B|, X aliasing either operand, no carry lost |
| AddSubs.SubHlp | libs/mbedtls/library/bignum.c:1195-1210 | d = l - r over n limbs with the borrow that weighs b^n, in place allowed, nothing else written |
| AddSubs.SubAbs | libs/mbedtls/library/bignum.c:1215-1265 | X = |A| - |B|, or the negative-value error exactly when |A| < |B| |
| AddSubs.AddMpi | libs/mbedtls/library/bignum.c:1270-1300 | X = A + B for all signs and aliases |
| AddSubs.SubMpi | libs/mbedtls/library/bignum.c:1305-1335 | X = A - B for all signs and aliases |
| AddSubs.AddInt | libs/mbedtls/library/bignum.c:1340-1353 | X = A + b |
| AddSubs.SubInt | libs/mbedtls/library/bignum.c:1358-1371 | X = A - b |
| Muls.CoreWide | libs/mbedtls/library/bn_mul.h:985-998 | one step of the double-width core: d' + b*c' = s*b + c + d, so neither carry is lost |
| Muls.CoreHalf | libs/mbedtls/library/bn_mul.h:1003-1026 | the same law for the core built from half-limb products |
| Muls.MulAddX8 | libs/mbedtls/library/bn_mul.h:1042-1046 | eight steps keep the multiply-accumulate relation of the limbs done so far |
| Muls.CoreMla | libs/mbedtls/library/bignum.c:1373-1403 | d_new + c*b^d_len = d_old + s*scalar for every length, d = s allowed, limbs outside the window untouched |
| Muls.MulMpi | libs/mbedtls/library/bignum.c:1408-1461 | X = A * B, X aliasing A, B or both; the carries the code drops are zero |
| Muls.MulInt | libs/mbedtls/library/bignum.c:1466-1498 | X = A * b, computed as A + A*(b-1) in one more limb |
| IntDivs.QuotientDigit | libs/mbedtls/library/bignum.c:1561-1573 | the estimate of a half-limb digit and its correction loop give the exact digit of Algorithm D (TAOCP vol. 2, section 4.3.1); the loop ends |
| IntDivs.DivHalf | libs/mbedtls/library/bignum.c:1540-1592 | the half-limb path: exact quotient and remainder of the two-limb dividend for every u1 < d, with wrapped intermediates harmless |
| IntDivs.IntDivInt | libs/mbedtls/library/bignum.c:1504-1594 | exact quotient and remainder on both paths; all-ones results for d = 0 and u1 >= d |
| DivMpis.EstimateNotBelow | libs/mbedtls/library/bignum.c:1660-1668 | the first estimate from the top limbs is never below the true quotient digit |
| DivMpis.TestMeaning | libs/mbedtls/library/bignum.c:1670-1684 | the three-by-two-limb test: if it fails the estimate is too large, if it passes it is at most one too large |
| DivMpis.AddBackOnce | libs/mbedtls/library/bignum.c:1686-1696 | an estimate at most one too large makes the difference negative exactly when it is one too large, and one add-back repairs it |
| DivMpis.DivStep | libs/mbedtls/library/bignum.c:1660-1697 | one turn of the division loop takes the exact digit times the shifted divisor off X and leaves less than that divisor |
| DivMpis.DivLoop | libs/mbedtls/library/bignum.c:1660-1697 | the loop keeps Z*Y + X and ends with X < Y |
| DivMpis.DivMpi | libs/mbedtls/library/bignum.c:1599-1722 | the exact quotient and remainder left for every A and every non-zero B, for every way Q, R, A and B may be one object; truncating division when Q is neither operand; division by zero is the only error |
| DivMpis.TruncUnique | libs/mbedtls/library/bignum.c:1599-1722 | the pair returned is the only one with A = Q*B + R, |R| < |B| and R zero or of A's sign |
| DivMpis.DivisionHoldsIff | libs/mbedtls/library/bignum.c:1628-1713 | when A = Q*B + R holds of the pair left: always if Q is neither operand or both; if Q is A only, for abs(A) < abs(B) exactly when A = 0 and else exactly when A >= 0 and B is positive or divides A; if Q is B only, exactly when B > 0 or abs(A) < abs(B) |
| DivMpis.DivisionFails | libs/mbedtls/library/bignum.c:1628-1713 | inputs where it does not hold, one for each condition |
| DivMpis.QuotientLeftIff | libs/mbedtls/library/bignum.c:1628-1703 | the quotient left is the truncating one exactly when abs(A) < abs(B) or the signs lost cancel |
| DivMpis.RemainderLeftIff | libs/mbedtls/library/bignum.c:1628-1713 | the remainder left is the truncating one exactly when Q is not A, or nothing was to lose, or the signs agree |
| DivMpis.DivInt | libs/mbedtls/library/bignum.c:1727-1741 | the same for a divisor that is a word, Q being A included |
| DivMpis.ModMpi | libs/mbedtls/library/bignum.c:1746-1767 | R = A mod B in 0..B-1 for positive B; errors for negative B and B = 0 |
| DivMpis.ModInt | libs/mbedtls/library/bignum.c:1772-1826 | the residue by a positive word through half-limb steps, negative A included, whenever the word is at most half a limb or divides the base; for any other word what the steps make of it |
| DivMpis.IntResidueIff | libs/mbedtls/library/bignum.c:1801-1813 | the half-limb steps give the residue of every number exactly for those words |
| DivMpis.IntResidueFails | libs/mbedtls/library/bignum.c:1801-1813 | for every other word the base itself is taken for a multiple, as the shift loses its top half |
| ConstTime.MaskMeaning | libs/mbedtls/library/constant_time.c:70-116 | the branch-free mask is all ones exactly for a non-zero value |
| ConstTime.XorBit | libs/mbedtls/library/constant_time.c:177-201 | the bitwise exclusive or of words, bit by bit |
| ConstTime.UintIfMeaning | libs/mbedtls/library/constant_time.c:257-263 | the masked choice is an if |
| ConstTime.SizeBoolEqMeaning | libs/mbedtls/library/constant_time.c:177-201 | 1 exactly for equal values |
| ConstTime.SizeGtMeaning | libs/mbedtls/library/constant_time.c:216-221 | 1 exactly when x > y, for values less than half the word range apart |
| ConstTime.SizeGtIff | libs/mbedtls/library/constant_time.c:216-221 | it is the comparison exactly for values less than half the word range apart |
| ConstTime.SelectedSign | libs/mbedtls/library/constant_time.c:281-299 | the arithmetic on signs is a choice between them |
| ConstTime.CondAssign | libs/mbedtls/library/constant_time.c:301-324 | copies n limbs when the condition is 1 and none when it is 0 |
| ConstTime.SafeCondAssign | libs/mbedtls/library/constant_time.c:676-700 | X takes the value and sign of Y or keeps its own, X being Y included; the limb count is the same either way |
| Monts.NewtonStep | libs/mbedtls/library/bignum.c:1831-1843 | one Newton pass doubles the number of correct low bits of the inverse |
| Monts.NewtonStart | libs/mbedtls/library/bignum.c:1831-1843 | the bit trick starts with four correct bits for every odd limb |
| Monts.MontgInit | libs/mbedtls/library/bignum.c:1831-1843 | mm = -N^-1 modulo the limb base for every odd N |
| Monts.MontStep | libs/mbedtls/library/bignum.c:1883-1895 | one accumulation keeps v * b^i = a*B + u*N with the low limb vanishing, so that advancing the pointer divides exactly |
| Monts.MontFinish | libs/mbedtls/library/bignum.c:1898-1917 | the masked final subtraction happens exactly when the accumulated value reaches N |
| Monts.MontMul | libs/mbedtls/library/bignum.c:1867-1917 | A_new * b^n = A * B modulo N for every B that fits n limbs, with no carry of the accumulations lost; A_new < N whenever B <= N, and A_new < B otherwise |
| Monts.MontRed | libs/mbedtls/library/bignum.c:1924-1934 | the same with B = 1 |
| ExpMods.RadixIsUnit | libs/mbedtls/library/bignum.c:1831-1917 | b^n has an inverse modulo N, so a Montgomery form determines its residue |
| ExpMods.Select | libs/mbedtls/library/bignum.c:1951-1963 | the constant-time scan returns table entry idx and never reads past the table |
| ExpMods.BuildTable | libs/mbedtls/library/bignum.c:2074-2097 | entries 2^(w-1) to 2^w - 1 hold those powers of the base in Montgomery form |
| ExpMods.TakeBit | libs/mbedtls/library/bignum.c:2119-2161 | one exponent bit: the states 0/1/2, the pending window and X together stand for one more bit of the prefix |
| ExpMods.ScanExponent | libs/mbedtls/library/bignum.c:2099-2162 | after the scan X and the pending window stand for the whole exponent; every full window indexes a filled entry |
| ExpMods.FinishBits | libs/mbedtls/library/bignum.c:2164-2175 | the pending bits are squared and multiplied in one by one |
| ExpMods.PrepareSquare | libs/mbedtls/library/bignum.c:2035-2048 | R^2 mod N is computed, or taken from the caller's cache |
| ExpMods.ExpMod | libs/mbedtls/library/bignum.c:1968-2200 | X = A^E mod N for every odd N > 0 and E >= 0 within the size limit, X = A allowed; bad-input error otherwise; the cache ends with R^2 mod N |
| ExpMods.ResultIsResidue | libs/mbedtls/library/bignum.c:2177-2186 | what the last step leaves is the residue unless the base is marked negative, E is odd and N divides the power, where it is N |
| ExpMods.ResultIsResidueIff | libs/mbedtls/library/bignum.c:2182-2186 | in terms of the inputs: exactly unless the base is marked negative, E is odd and nothing is left of N after taking out its common factor with A E times |
| ExpMods.PowerDividesIff | libs/mbedtls/library/bignum.c:2182-2186 | N divides A^E exactly when nothing is left of it that way |
| ExpMods.CoprimeBase | libs/mbedtls/library/bignum.c:2182-2186 | a base coprime to a modulus above 1 always gives the residue |
| ExpMods.PrimeModulusIff | libs/mbedtls/library/bignum.c:2182-2186 | for a prime modulus the residue fails exactly for a base marked negative that N divides, with odd E |
| ExpMods.UnitModulusFails | libs/mbedtls/library/bignum.c:2182-2186 | modulo 1 a negative base with odd exponent always leaves 1, not 0 |
| ExpMods.ResultFails | libs/mbedtls/library/bignum.c:2182-2186 | two failing inputs: (-3)^1 modulo 3 leaves 3 and (-3)^3 modulo 9 leaves 9 |
| Gcds.GcdTurn | libs/mbedtls/library/bignum.c:2271-2295 | one turn: both operands lose their twos, the difference is halved, and the gcd with the saved power is kept |
| Gcds.GcdLoop | libs/mbedtls/library/bignum.c:2271-2295 | TB ends as the odd-part gcd; the loop ends because the operands shrink |
| Gcds.GcdPowers | libs/mbedtls/library/bignum.c:2252-2257 | the gcd is that of the odd parts times the smaller power of two |
| Gcds.Gcd | libs/mbedtls/library/bignum.c:2205-2308 | G is the greatest common divisor for every A and non-zero B, of any sign; for B = 0 it is A |
| Gcds.ResultIsGcd | libs/mbedtls/library/bignum.c:2223-2231 | that is the gcd exactly when B is not 0 or A is not negative |
| Gcds.ResultFails | libs/mbedtls/library/bignum.c:2223-2231 | for A = -5 and B = 0 the result -5 is not the gcd |
| InvMods.NotBothEven | libs/mbedtls/library/bignum.c:2474-2533 | coprime operands are not both even, which the parity fix needs |
| InvMods.ParityFix | libs/mbedtls/library/bignum.c:2488-2492 | adding TB and subtracting TA makes both coefficients even and keeps the combination |
| InvMods.EuclidTurn | libs/mbedtls/library/bignum.c:2482-2525 | one turn keeps U1*TA + U2*TB = TU and V1*TA + V2*TB = TV and makes TU + TV smaller |
| InvMods.InvMod | libs/mbedtls/library/bignum.c:2449-2542 | an inverse in 1..N-1 for every N > 1, even N too, exactly when gcd(A, N) = 1; else the error and X as before |
| InvMods.InverseIffCoprime | libs/mbedtls/library/bignum.c:2449-2542 | an inverse in that range exists exactly for coprime A and N |
| Primes.EuclidsLemma | libs/mbedtls/library/bignum.c:2607-2695 | a prime dividing a product divides a factor |
| Primes.Fermat | libs/mbedtls/library/bignum.c:2607-2695 | Fermat's little theorem, by the binomial theorem |
| Primes.SquareRoots | libs/mbedtls/library/bignum.c:2663-2686 | modulo a prime 1 has no square roots but 1 and -1 |
| Primes.PrimePasses | libs/mbedtls/library/bignum.c:2654-2686 | for a prime every base passes the power-then-square test |
| MillerRabins.SquareLoop | libs/mbedtls/library/bignum.c:2663-2686 | the squaring loop with its early exit decides whether the base passes |
| MillerRabins.Round | libs/mbedtls/library/bignum.c:2654-2686 | one round accepts exactly the strong probable primes to its base |
| MillerRabins.MaskTop | libs/mbedtls/library/bignum.c:2640-2644 | masking the top limb of a draw keeps the low bits of the number |
| MillerRabins.MaskedBits | libs/mbedtls/library/bignum.c:2640-2644 | a draw longer than X - 1 keeps the bits below its top bit position and loses the others; a shorter one keeps all |
| MillerRabins.MaskedBelow | libs/mbedtls/library/bignum.c:2640-2644 | a shortened draw is below X, so it is never refused for its size |
| MillerRabins.Sample | libs/mbedtls/library/bignum.c:2633-2653 | the sampling loop of a round ends as its definition says: with a base, with the 32nd draw, or with the generator's error |
| MillerRabins.SampledIff | libs/mbedtls/library/bignum.c:2633-2653 | a round takes the first draw that gives a base among 31, and gives up exactly when those are useless and a 32nd is delivered |
| MillerRabins.MillerRabin | libs/mbedtls/library/bignum.c:2607-2695 | for every sequence of draws: accepts exactly when every round finds a base and all bases pass, for the only split of n - 1 into an odd number times a power of two; the exact error otherwise; a prime is rejected only after 31 useless draws in a row |
| MillerRabins.SplitUnique | libs/mbedtls/library/bignum.c:2622-2632 | that split is unique, so the verdict does not depend on how it is found |
| MillerRabins.PrimePassesAll | libs/mbedtls/library/bignum.c:2607-2695 | no choice of bases makes the rounds reject a prime |
| MillerRabins.PrimeOutcome | libs/mbedtls/library/bignum.c:2607-2695 | so a prime within the size limit is accepted exactly when every round found a base, and rejected exactly when one gave up |
| SmallPrimes.TrialDivisionDecides | libs/mbedtls/library/bignum.c:2580-2602 | a number up to the current table entry with no smaller table divisor is prime |
| SmallPrimes.TableIsPrimes | libs/mbedtls/library/bignum.c:2546-2569 | the entries of the table before its sentinel are exactly the primes from 3 to 997 |
| SmallPrimes.SmallFactorMeaning | libs/mbedtls/library/bignum.c:2580-2602 | a small factor is found exactly when some prime up to 997 divides the number |
| MillerRabins.CheckSmallFactors | libs/mbedtls/library/bignum.c:2580-2602 | decides primality up to 997 exactly, and above it looks for a small factor |
| MillerRabins.IsPrimeExt | libs/mbedtls/library/bignum.c:2700-2728 | exact up to 997; above, rejected for a small factor and else the verdict of the rounds; a prime is rejected only above 997 and after 31 useless draws in a row |
| RadixIO.GetDigit | libs/mbedtls/library/bignum.c:403-415 | the digit of a character, or the invalid-character error |
| RadixIO.DigitMeaning | libs/mbedtls/library/bignum.c:403-415 | the digit r is the r-th character of 0123456789ABCDEF or of 0123456789abcdef and no other |
| RadixIO.NoOtherDigit | libs/mbedtls/library/bignum.c:403-415 | every other character is above all digits, so that no radix accepts it |
| RadixIO.ReadString | libs/mbedtls/library/bignum.c:420-485 | the number the string stands for in radix 2 to 16 with an optional minus sign; an error exactly for a bad radix or a bad digit |
| RadixIO.CaseInsensitive | libs/mbedtls/library/bignum.c:403-485 | a text and its lower-case form are accepted alike and have the same value |
| RadixIO.ReadHex | libs/mbedtls/library/bignum.c:449-464 | radix 16: nibbles or-ed into the limbs from the last character give the same number |
| RadixIO.WriteHlp | libs/mbedtls/library/bignum.c:490-524 | the shortest numeral of X, or buffer-too-small exactly when it does not fit |
| RadixIO.WriteHex | libs/mbedtls/library/bignum.c:573-592 | radix 16: the byte loop with skipped leading zeros writes a numeral of X |
| RadixIO.WriteString | libs/mbedtls/library/bignum.c:529-611 | sign, numeral and terminator; buffer-too-small exactly when the buffer is shorter than the computed size |
| RadixIO.DigitsFit | libs/mbedtls/library/bignum.c:543-556 | the computed size always suffices for the digits, the sign and the terminator |
| RadixIO.BufferSizeMeaning | libs/mbedtls/library/bignum.c:543-556 | the computed size is the least even number from the digits needed in base 2, 4 or 16 plus three |
| RadixIO.RoundTrip | libs/mbedtls/library/bignum.c:420-611 | every text the printer can produce is parsed back to the number and sign |
| RadixIO.NoTerminator | libs/mbedtls/library/bignum.c:529-611 | no character of a printed number ends the C string early |
| RadixIO.PrintThenRead | libs/mbedtls/library/bignum.c:420-611 | printing into a buffer of the computed size and reading the buffer as a C string restores the value, radix 2 to 16, both signs |
| BinaryIO.Size | libs/mbedtls/library/bignum.c:395-398 | the least number of bytes the magnitude fits in |
| BinaryIO.UintBigendianToHost | libs/mbedtls/library/bignum.c:700-756 | the converted limb is the big-endian reading of the limb's memory, on hosts of either byte order |
| BinaryIO.BigendianToHost | libs/mbedtls/library/bignum.c:758-785 | in place: every limb converted and their order reversed, odd limb counts included |
| BinaryIO.FlippedMemory | libs/mbedtls/library/bignum.c:758-785 | after that the MPI's value is the big-endian reading of its memory |
| BinaryIO.ReadBinary | libs/mbedtls/library/bignum.c:822-853 | X takes the number of the byte string, is positive and has exactly the limbs the length needs |
| BinaryIO.FillRandom | libs/mbedtls/library/bignum.c:2323-2369 | the number of the bytes drawn, the same on hosts of either byte order |
| BinaryIO.WriteBinary | libs/mbedtls/library/bignum.c:897-938 | the low buflen bytes, most significant first, or buffer-too-small and nothing written exactly when the number does not fit |
| BinaryIO.WriteThenRead | libs/mbedtls/library/bignum.c:822-938 | a number written to a wide enough field is read back |
| BinaryIO.ReadThenWrite | libs/mbedtls/library/bignum.c:822-938 | a byte string read and written to the same width is unchanged |
| Pkcs1.MemMoveToLeft | libs/mbedtls/library/constant_time.c:381-403 | the quadratic branch-free loop is a move to the left with zero fill, for every offset |
| Pkcs1.CheckPadding | libs/mbedtls/library/constant_time.c:836-866 | the flag is clear exactly for the padding of section 7.2.2 of RFC 8017, and the pad count is right |
| Pkcs1.AcceptsEncodings | libs/mbedtls/library/constant_time.c:815-939 | the decoder accepts exactly the encodings 00 02 PS 00 M with at least eight non-zero PS bytes, and returns their M |
| Pkcs1.Unpadding | libs/mbedtls/library/constant_time.c:815-939 | for every input of at least 11 bytes: verdict, length and bytes of the plain decoder, zeros when rejected, nothing written past the room |
| Xts.MulX | libs/mbedtls/library/aes.c:1095-1108 | the two-word shift multiplies the tweak by alpha byte by byte (section 5.2 of IEEE 1619-2007), in place allowed |
| Xts.TimesAlphaBits | libs/mbedtls/library/aes.c:1095-1108 | coefficient by coefficient it is multiplication by x modulo x^128 + x^7 + x^2 + x + 1 |
| Xts.BlockLoop | libs/mbedtls/library/aes.c:1148-1178 | every whole block under its own tweak; with a partial last block a decryption saves one tweak and uses the next for the last whole block |
| Xts.BlockAt | libs/mbedtls/library/aes.c:1148-1178 | block j of the result is block j of the data through the block function with tweak number j added before and after |
| Xts.StealStage | libs/mbedtls/library/aes.c:1180-1214 | ciphertext stealing: the partial block takes the front of the previous output block, which is rebuilt with the partial input |
| Xts.CryptXts | libs/mbedtls/library/aes.c:1113-1217 | the output is the XTS function of sections 5.3 and 5.4 of IEEE 1619-2007 of the data unit, into a separate buffer or in place, where a partial block is read as the stolen bytes that have overwritten it; invalid length below 16 and above 2^24 bytes |
| Xts.XtsBlock | libs/mbedtls/library/aes.c:1148-1178 | the data unit block by block, in both directions: every whole block but the one before a partial block under its own tweak |
| Xts.XtsTail | libs/mbedtls/library/aes.c:1180-1214 | the two last blocks by position, in both directions: which tweak, which bytes are stolen and where they go |
| Xts.XtsRoundTrip | libs/mbedtls/library/aes.c:1113-1217 | decryption undoes encryption for every length from 16 bytes, multiples of 16 or not, over any invertible block function |
| Xts.WholeInPlace | libs/mbedtls/library/aes.c:1148-1178 | in place, whole blocks are encrypted as into a separate buffer |
| Xts.RecoverableIff | libs/mbedtls/library/aes.c:1180-1214 | every data unit of a length can be recovered from its in-place encryption exactly when the length is a multiple of 16 |
| Xts.PartialLost | libs/mbedtls/library/aes.c:1195-1199 | for any other length two data units that leave the same output |
| Camellia.FLUndo | libs/mbedtls/library/camellia.c:245-255 | FL and FLInv undo each other for every subkey |
| Camellia.FLBits | libs/mbedtls/library/camellia.c:245-255 | FL bit by bit, bit i taking the common bit i - 1 modulo 32 of left word and key (section 2.4.2 of RFC 3713) |
| Camellia.Feistel | libs/mbedtls/library/camellia.c:274-297 | one round changes one half by F of the other half and the subkey, whatever the S-boxes |
| Camellia.FSums | libs/mbedtls/library/camellia.c:274-297 | the added function, byte by byte: the eight sums of five or six S-box outputs of section 2.4.1 of RFC 3713, for arbitrary S-boxes |
| Camellia.RoundLoop | libs/mbedtls/library/camellia.c:504-525 | the loop walks the subkeys in order: groups of six rounds with FL layers between them |
| Camellia.CryptIsRounds | libs/mbedtls/library/camellia.c:476-538 | the grouped network is the procedure of section 2.3 of RFC 3713, round by round, with its numbering of subkeys, FL layers and whitening |
| Camellia.GroupsUndo | libs/mbedtls/library/camellia.c:504-525 | the loop run on the reversed subkeys and swapped halves goes back |
| Camellia.CryptUndo | libs/mbedtls/library/camellia.c:476-538 | whitening included, the reversed schedule restores the state |
| Camellia.SetkeyDec | libs/mbedtls/library/camellia.c:425-471 | the moving pointers produce the reversed schedule with whitening pairs kept in order; invalid sizes are refused |
| Camellia.CryptEcb | libs/mbedtls/library/camellia.c:476-538 | the block written is the Camellia function of the block read, in place allowed |
| Camellia.DecryptUndoesEncrypt | libs/mbedtls/library/camellia.c:425-538 | decryption undoes encryption for every block, key size and subkeys (section 2.3 of RFC 3713) |
| Aria.AriaA | libs/mbedtls/library/aria.c:178-200 | the word shuffle computes the sixteen seven-term sums of the diffusion layer of RFC 5794 |
| Aria.DiffuseTwice | libs/mbedtls/library/aria.c:178-200 | the diffusion layer is an involution on all 128-bit states |
| Aria.DiffuseLinear | libs/mbedtls/library/aria.c:178-200 | and linear for exclusive or |
| Aria.AriaSl | libs/mbedtls/library/aria.c:210-231 | each byte goes through the S-box of its position |
| Aria.SubstAt | libs/mbedtls/library/aria.c:540-555 | the box at byte p of a step is number p modulo 4 of the four in an even step and number p + 2 in an odd one (section 2.4.2 of RFC 5794) |
| Aria.MixAndSubst | libs/mbedtls/library/aria.c:531-556 | one step before diffusion: every byte with its key byte added goes through the box of its position |
| Aria.SubstUndo | libs/mbedtls/library/aria.c:210-231 | the odd and even substitution layers are inverse to each other, given inverse pairs |
| Aria.SetkeyDec | libs/mbedtls/library/aria.c:482-512 | round keys flipped and the inner ones diffused, in place; any key size but 128, 192 and 256 is refused and changes nothing |
| Aria.CryptEcb | libs/mbedtls/library/aria.c:517-569 | the block written is the ARIA function of the block read, in place allowed |
| Aria.BeforeNext | libs/mbedtls/library/aria.c:531-556 | a step of the cipher byte by byte, the boxes beginning with number 2i in step i, and then the diffusion |
| Aria.ForwardBytes | libs/mbedtls/library/aria.c:531-564 | the last step byte by byte: no diffusion, and the last key added |
| Aria.DecryptUndoesEncrypt | libs/mbedtls/library/aria.c:482-569 | decryption undoes encryption for every block and round count (section 2 of RFC 5794) |
| Ccm.RunChunk | libs/mbedtls/library/ccm.c:304-326 | xor-ing a chunk at its offset, and encrypting at a block end, advances the running MAC by the chunk |
| Ccm.FlushIsCbcMac | libs/mbedtls/library/ccm.c:304-326 | the running MAC flushed at the end is CBC-MAC of the zero-padded string |
| Ccm.IncrementCounter | libs/mbedtls/library/ccm.c:430-435 | the carry loop adds one to the number in the counter field, modulo its range, and leaves the other bytes |
| Ccm.IncrementNumber | libs/mbedtls/library/ccm.c:430-435 | as big-endian numbers: one more, modulo the range of the field |
| Ccm.NumberInjective | libs/mbedtls/library/ccm.c:430-435 | that number determines the bytes of the field |
| Ccm.CounterIs | libs/mbedtls/library/ccm.c:203-238 | counter block k: the flags byte, the nonce and the number k (section A.3 of NIST SP 800-38C) |
| Ccm.CountersDiffer | libs/mbedtls/library/ccm.c:430-435 | no counter block comes twice below the range of the field |
| Ccm.CryptAppend | libs/mbedtls/library/ccm.c:110-133 | counter mode may be cut anywhere |
| Ccm.PayloadByte | libs/mbedtls/library/ccm.c:340-446 | byte i of the payload is added to byte i mod 16 of the image of the block with the nonce and the number i / 16 + 1, that block described by numbers alone |
| Ccm.CryptTwice | libs/mbedtls/library/ccm.c:110-133 | counter mode undoes itself |
| Ccm.WorkingIsTag | libs/mbedtls/library/ccm.c:448-483 | the tag of section 6 and Appendix A of NIST SP 800-38C is the masked state the incremental calls keep |
| Ccm.Context.constructor | libs/mbedtls/library/ccm.c:54-57 | an idle context |
| Ccm.Context.FirstBlockIfReady | libs/mbedtls/library/ccm.c:141-201 | once started and with lengths, the first block of Appendix A.2 is formatted and encrypted; errors for an empty tag outside CCM* and a length that does not fit |
| Ccm.FlagsNumber | libs/mbedtls/library/ccm.c:168-182 | the flags byte as a number: 64 for associated data, 8 times half the tag length less one, and q - 1; 248 and q - 1 for the empty tag |
| Ccm.BigEndianNumber | libs/mbedtls/library/ccm.c:184-185 | the length field holds the length modulo its range |
| Ccm.AdPrefix | libs/mbedtls/library/ccm.c:293-294 | the two bytes before the associated data are its length as a number |
| Ccm.Context.Starts | libs/mbedtls/library/ccm.c:203-238 | nonce and counter loaded, 7 to 13 nonce bytes; before or after the lengths |
| Ccm.Context.SetLengths | libs/mbedtls/library/ccm.c:240-265 | lengths accepted exactly for tag lengths 0, 4, 6 to 16 and associated data below 0xFF00; may be set again before the start |
| Ccm.Context.UpdateAd | libs/mbedtls/library/ccm.c:267-338 | any next piece of the associated data; too much, or a context in error, is refused and changes nothing |
| Ccm.Context.Update | libs/mbedtls/library/ccm.c:340-446 | any next piece of the payload, in place or not: output is counter mode at that position, the MAC follows the plaintext; too much, too little room, or a context in error, is refused and changes nothing |
| Ccm.Context.Finish | libs/mbedtls/library/ccm.c:448-483 | the tag of all data given, however it was cut, and an idle context for the next message; incomplete data, or a context in error, is refused and changes nothing |
| Ccm.Context.AuthCrypt | libs/mbedtls/library/ccm.c:488-514 | the one-shot call: the same output and tag, and the exact error condition |
| Ccm.Context.AuthDecrypt | libs/mbedtls/library/ccm.c:559-582 | the plaintext is released exactly when the tag is right, else zeros and the authentication error |
| Ccm.CompareTags | libs/mbedtls/library/ccm.c:542-557 | the accumulated difference is zero exactly for equal tags |
| Ccm.Context.EncryptThenDecrypt | libs/mbedtls/library/ccm.c:488-582 | the one-shot encryption and then the one-shot decryption of what it left: accepted exactly for valid lengths, and the plaintext comes back |
| Paddings.AddPkcs7 | libs/mbedtls/library/cipher.c:785-793 | pads with the number of pad bytes (section 6.3 of RFC 5652) |
| Paddings.AddOneAndZeros | libs/mbedtls/library/cipher.c:825-834 | pads with 0x80 and zeros |
| Paddings.AddZerosAndLen | libs/mbedtls/library/cipher.c:864-873 | pads with zeros and the number of pad bytes |
| Paddings.AddZeros | libs/mbedtls/library/cipher.c:904-911 | pads with zeros |
| Paddings.PadMeaning | libs/mbedtls/library/cipher.c:785-911 | the bytes of the paddings as numbers and bits: all the count; a single bit at the top and zeros; zeros and the count; zeros |
| Paddings.GetPkcs7 | libs/mbedtls/library/cipher.c:795-818 | the branch-free scan agrees with the definition: error exactly for a bad padding, else the data length |
| Paddings.GetOneAndZeros | libs/mbedtls/library/cipher.c:836-857 | the backward scan finds the marker 0x80 after the last non-zero byte |
| Paddings.GetZerosAndLen | libs/mbedtls/library/cipher.c:875-897 | the branch-free scan agrees with the definition |
| Paddings.GetZeros | libs/mbedtls/library/cipher.c:913-931 | the data ends at the last non-zero byte |
| Paddings.LengthLeftIs | libs/mbedtls/library/cipher.c:795-931 | for a good padding the length the readers leave is where the data ends |
| Paddings.LengthLeftWraps | libs/mbedtls/library/cipher.c:805-811 | for a last byte 0xC8 in a block of 16 the padding is refused and the length left is the wrapped difference, far outside the block |
| Paddings.PaddingFound | libs/mbedtls/library/cipher.c:785-897 | a padding that says where it starts is always found again at the right place |
| Paddings.UnpadIff | libs/mbedtls/library/cipher.c:795-897 | and nothing else is: for the paddings that say where they start the readers accept a block exactly when it ends in a whole padding |
| Paddings.ZerosFoundIff | libs/mbedtls/library/cipher.c:904-931 | zero padding is, exactly when the data does not end in a zero byte |
| Cbc.OutAppend | libs/mbedtls/library/cipher.c:605-691 | CBC may be cut at block boundaries with the chaining value carried over (section 6.2 of NIST SP 800-38A) |
| Cbc.OutBlock | libs/mbedtls/library/cipher.c:605-691 | block j of the output from block j of the input and the ciphertext block before it, the IV before the first |
| Cbc.DecryptBlocks | libs/mbedtls/library/cipher.c:605-691 | CBC decryption of whole blocks undoes encryption |
| Cbc.CbcFunc | libs/mbedtls/library/aes.c:1007-1080 | the block loop of the base cipher: output and chaining value of CBC, into a separate buffer or in place |
| Cbc.HeldComputed | libs/mbedtls/library/cipher.c:656-674 | the length the code caches is what must be held back: the incomplete block, or one whole block when a padding is to be removed |
| Cbc.CacheMore | libs/mbedtls/library/cipher.c:610-625 | input too short for a block only joins the cache |
| Cbc.BlocksOut | libs/mbedtls/library/cipher.c:627-691 | cache and whole blocks go out, the rest is held: the state after all input is the one a single call leaves |
| Cbc.ProcessInput | libs/mbedtls/library/cipher.c:627-691 | the part after the caching branch keeps that state and writes only what it reports |
| Cbc.Context.constructor | libs/mbedtls/library/cipher.c:193-219 | a context with padding and direction set, a zero IV and no input seen |
| Cbc.Context.SetIv | libs/mbedtls/library/cipher.c:353-452 | IVs above 16 bytes and below the block size are refused with their errors; else the IV is set, and before any input it is that of the message |
| Cbc.Context.Reset | libs/mbedtls/library/cipher.c:454-472 | a message starts with the IV that is set, whatever happened before |
| Cbc.Context.Update | libs/mbedtls/library/cipher.c:549-691 | for any next piece of input the output so far is CBC of all input seen but what is held back; in place for whole blocks with an empty cache, else bad-input and nothing changed |
| Cbc.Context.Finish | libs/mbedtls/library/cipher.c:998-1045 | all outputs together are CBC of the padded message, or the decrypted message without its padding; full-block-expected (nothing changed) and invalid-padding errors exactly by the definition; the length left in each case |
| Cbc.MessageComesBack | libs/mbedtls/library/cipher.c:605-1045 | decryption restores every message for the three paddings that mark their length |
| Cbc.UnpaddedComesBack | libs/mbedtls/library/cipher.c:605-1045 | and without padding every message of whole blocks |
| Cbc.ZeroPaddedComesBackIff | libs/mbedtls/library/cipher.c:605-1045 | and with zero padding exactly the messages of whole blocks and those not ending in a zero byte |
| Cbc.ZeroByteLost | libs/mbedtls/library/cipher.c:605-1045 | a single zero byte under zero padding does not come back |
| Der.WriteLen | libs/mbedtls/library/asn1write.c:37-99 | the length octets of section 8.1.3 of X.690 before p, all five forms; buffer-too-small exactly without room, invalid-length above 2^32 - 1 |
| Der.WriteTag | libs/mbedtls/library/asn1write.c:101-109 | the tag byte before p, or buffer-too-small |
| Der.LengthMeaning | libs/mbedtls/library/asn1write.c:37-99 | the octets written: the length itself below 128, else 128 and their number, and then the length as a number |
| Der.IntegerMeaning | libs/mbedtls/library/asn1write.c:127-166 | the INTEGER written: tag 2, the length octets of the contents, and contents with the magnitude as their number |
| Der.WriteContents | libs/mbedtls/library/asn1write.c:127-157 | the magnitude in the fewest bytes, with a zero byte in front when a positive number's top bit is set |
| Der.WriteMpi | libs/mbedtls/library/asn1write.c:127-166 | the whole INTEGER before p and its exact byte count, or the exact error; bytes outside the reported range stay |
| Der.GetLen | libs/mbedtls/library/asn1parse.c:45-101 | the length and its octet count, or out-of-data and invalid-length exactly by the form |
| Der.ParseLengthForms | libs/mbedtls/library/asn1parse.c:45-101 | every octet string of each form and what the parser makes of it: short, long with up to four octets, cut off, refused |
| Der.GetTag | libs/mbedtls/library/asn1parse.c:103-116 | tag check, then the length |
| Der.GetMpi | libs/mbedtls/library/asn1parse.c:196-211 | the unsigned number of the contents, and p after the element; errors leave X alone |
| Der.LengthRoundTrip | libs/mbedtls/library/asn1write.c:37-99 | every length written is read back, whatever follows it |
| Der.LengthShortest | libs/mbedtls/library/asn1parse.c:45-101 | the writer's form is the shortest the parser accepts for that length (section 10.1 of X.690) |
| Der.IntegerRoundTrip | libs/mbedtls/library/asn1write.c:127-166 | what the writer produced is parsed to the magnitude and exactly the bytes written, for every length form and the leading-zero case |
| Der.WriteThenParse | libs/mbedtls/library/asn1write.c:127-166 | writing backwards and then parsing forwards on the same buffer restores the magnitude and ends where the writer started, and restores the number exactly when it is not negative |
| Der.NumberComesBackIff | libs/mbedtls/library/asn1parse.c:196-211 | the number itself comes back exactly when it is not negative |
| Der.SignLost | libs/mbedtls/library/asn1parse.c:196-211 | -5 comes back as 5 |
| Der.ContentsAreDer | libs/mbedtls/library/asn1write.c:138-157 | for a positive sign the contents are the shortest two's complement form (section 8.3 of X.690) |
| Der.ShortestIff | libs/mbedtls/library/asn1write.c:138-157 | shortest as section 8.3.2 of X.690 has it, by the first nine bits: exactly when no shorter string has the same two's complement value |
| Der.NegativeContentsIff | libs/mbedtls/library/asn1write.c:146-157 | for a negative sign they are that number only for magnitude 0 and 2^(8k-1) for some k >= 1 |
| Der.NegativeContentsFail | libs/mbedtls/library/asn1write.c:146-157 | -1 is written as 1 |

## Left out

- Allocation failure, the limb limit and the overflow checks on sizes: growing always succeeds and lengths are unbounded, so results that C returns as `int` are not truncated either.
- Inline assembly, AES-NI, PadLock and PSA paths, self tests, file input and output, and the NULL checks.
- Timing and zeroisation: what the branch-free code computes is proved, not that it runs in constant time.
- The doubling of the limb type or its half-limb replacement is an open constant; both branches are proved.
- Little-endian binary input and output, `mbedtls_mpi_shrink`, `swap`, `set_bit`, `safe_cond_swap`, `lt_mpi_ct`: simpler repeats of what is modelled.
- Random number generators, `mbedtls_mpi_random` and prime generation.
- MillerRabins.MillerRabin: the generator is the sequence of byte strings it delivers, and its error, whatever the code, stands at the end of the sequence. A draw with more bits than X - 1 is only allowed when the top limb of X is not zero; otherwise the shift of the mask has a negative count, which C leaves undefined.
- MillerRabins.IsPrimeExt: the same, and a negative number of rounds, which the conversion to `size_t` makes a huge one.
- Key schedules and S-box tables: subkeys are given, Camellia's S-boxes are arbitrary functions and ARIA's are given inverse pairs. A key that `setkey_enc` refuses for another reason than its size does not occur.
- AES itself, the ECB, CTR, CFB and OFB loops, GCM, ChaCha20, ChaCha20-Poly1305, CMAC and base64.
- DivMpis.ModMpi: R different from B; with R equal to B the remainder overwrites the modulus and the last loops do not end.
- ExpMods.ExpMod: X different from E and N, the cache object different from the others, and a non-empty cache holding R^2 mod N for this N, as the interface demands. The window table is created with empty entries, as in C.
- Monts.MontMul: the scratch object T separate from the operands, as its only caller arranges.
- Pkcs1.Unpadding: input lengths below 2^31, as the code says it relies on (`constant_time.c:872-873`): above, the comparison of sizes is the one of `ConstTime.SizeGtIff`. Separate input and output buffers.
- Pkcs1.CheckPadding: the same bound on the length.
- Pkcs1.MemMoveToLeft: the same bound on the length.
- Ccm.Context.Update: called after all announced associated data; C also accepts payload before, and a tag that then means nothing.
- Ccm.Context.Starts: on an idle context; a context restarted in the middle of a message is not described.
- Ccm.Context.SetLengths: not on a message whose first block has been formatted.
- Ccm.Context.UpdateAd: not before the first block has been formatted.
- Ccm.Context.Finish: with an empty tag (CCM*) the tag bytes are not described, as the flags byte of the first block then has its reserved bit set; the output buffer is.
- Ccm.Context.AuthCrypt: after an error the state of the context is not described.
- Cbc.Context.Finish: after a last block has been processed the context is described again only from the next reset.
- Cbc.Context.SetIv: ciphers with a variable IV length.
- Der.WriteMpi: lengths above 2^32 - 1 give the error of a host with 64-bit sizes.
- Base classes of ASN.1 other than INTEGER, and the public-key and X.509 code above them.
- The deployment scripts and the enclave code of the repository, which consist of calls into a network, files and an enclave runtime.
