# Verified core algorithms

This Dafny project models the algorithmic core of the repository and proves what each
part is for. It covers the number code of the bundled GMP (prime sieves, division by
precomputed inverses, modular inverses, trial division, one allocator), the sparse matrix
kernels under `data/`, and the symbol demangler and the pattern matcher of the bundled
glog. `dafny verify dfyconfig.toml` checks everything.

The source works in place, and so does the model: arrays are arrays, and the sieve, the
allocator and the parser state are classes. Every such method is specified by a function
or a predicate on values, and the properties are lemmas about those.

| file | what it models |
|---|---|
| `Limbs.dfy` | machine words of a symbolic width, with the C operators given by their bits |
| `Primes.dfy` | primes, Euclid, and a prime in every interval (sqrt(m), m] (by the least common multiple of 1..m) |
| `WheelSieve.dfy`, `Primesieve.dfy` | the bit-packed mod-6 sieve with rotating masks, in one block and segmented |
| `NextPrime.dfy` | the incremental sieve of 512 odd numbers with its state between calls |
| `WideArith.dfy` | the plain C double-word operations |
| `PreinvDivision.dfy`, `ThreeByTwo.dfy` | 2/1 and 3/2 division by a reciprocal, and the reciprocals |
| `ModInverse.dfy` | inverses modulo 2^w by table and Newton steps, and bit by bit |
| `TrialDivision.dfy`, `FoldedRemainder.dfy`, `TrialTables.dfy` | isprime, divisibility without division, the remainder by a product of primes, and the generated tables with their reader |
| `SparseVectors.dfy` | sums, and the dense meaning of compressed rows and columns |
| `IncompleteLu.dfy`, `LeftLu.dfy`, `SparseProduct.dfy`, `TriangularSolve.dfy` | the sparse kernels |
| `TmpAlloc.dfy` | the mark/release allocator |
| `GlobMatch.dfy` | the matcher for module patterns |
| `Grammar.dfy`, `GrammarSteps.dfy` | the BNF of mangled names as data, where each production ends, and what it derives |
| `Demangle.dfy` | the recursive-descent parser for mangled names |
| `SimpleNames.dfy`, `GlogTables.dfy`, `BnfNames.dfy` | names that must be accepted or refused, the name tables, and the differences to the BNF |

Conventions:

- A limb is a natural number below `Pow2(w)` and every C operation that can wrap is reduced
  explicitly. `w` is symbolic: any power of two from 4 on in `Primesieve.dfy`, any even
  width `2h` for the double-word operations (`B = Pow2(2h)`), any width from 8 on for
  `binvert_limb`. `NextPrime.dfy` takes any modulus `M` of an `unsigned long`.
- `double` is an exact real. A pivot is divided by with `Quotient`, whose value for a zero
  divisor is arbitrary; the factorisation theorems speak about rows and columns whose pivots
  are nonzero.
- A production of the demangler "reads" something when it succeeds exactly where
  `Grammar.End` has an end for it, and leaves the cursor there. Then the append flag and the
  nest level are what they were, and if there was a margin of `Rate()` bytes for every
  character left and the last name was no longer than `Limit()`, there is no overflow and
  that is so again. All this holds of every call;
  it is the code's as long as `stopped` is not set.
- What is allocated, read or printed is a parameter. Where a decision depends on text that
  the model does not keep, the model allows both outcomes.

Where code and comments differ, the model follows the code:

- `block_resieve` leaves its loop round by `continue` without rotating the test mask
  (lib/gmp/primesieve.c:226-227). The model does the same and proves it harmless: the stale
  mask still selects a clear bit, and the next round breaks or the loop ends.
- `gmp_nextprime` sets `s0` to a wrapped negative number after the prime 2
  (lib/gmp/nextprime.c:87); the next refill wraps it back to 3.
- `mpz_invert_2exp` computes the inverse for every odd number, but its closing assertion
  (lib/gmp/bootstrap.c:128-130) compares a truncated remainder: it fails for negative numbers
  and for n = 0. `ModInverse.MpzInvert2Exp` states exactly when it holds.
- `mpz_preinv_invert` is announced as the inverse for `udiv_qrnnd_preinv`
  (lib/gmp/bootstrap.c:88-107).  For a power of two it is one too large;
  `FoldedRemainder.MpzPreinvInvert` states exactly when it is right.
- `SafeFNMatch_` compares characters before it looks for a star, tests for a single trailing
  star at the end of the string, and never tries a star on the whole rest. It therefore is
  the usual matching relation for exactly the patterns without a star; on strings without a
  star, for exactly the patterns that do not end in two stars. Two adjacent stars elsewhere
  do no harm.
- The zero test of version 2 of the sparse product lists a row again when its partial sum has
  cancelled to zero, and it clears one entry of x per column, not per row.
  `SparseProduct.VersionsAgree` gives the exact condition for both,
  `SparseProduct.CancellationRepeatsRow` and `SparseProduct.UnclearedRowLost` an input each.
  `SparseProduct.ZeroTestIsProduct` says when the result of version 2 still reads as the product.
- The convention stated in demangle.cc (lib/glog/demangle.cc:405-411), that a failing parser
  leaves the State alone, is not kept by `ParseNumber` after an `n` without a digit and by
  `ParseMangledName` after `_Z`; their contracts say what remains.
- A length read with an `n` is negative and moves the cursor of demangle.cc backwards
  (lib/glog/demangle.cc:658-671). `Grammar.NegativeLength` says exactly when the source-name
  then ends where it started or earlier, and `Demangle.State.PrefixRounds` that the loop of
  `ParsePrefix` goes round such a name for ever; `_ZNn2` is an input. Only the places count at
  which a source-name is read: the n2 in `_Z5n2foo` lies inside a name that is read as a whole
  (`Grammar.InnerName`).
- The code merges prefix and template-prefix (lib/glog/demangle.cc:522-532) and reads a length
  of any sign. `Grammar.RuleOf` has the merged prefix. `BnfNames.dfy` shows that nothing is
  lost by it, that `_ZNE` is gained, and exactly which source-names are those of the BNF.
- The root loop of `gmp_nextprime` (lib/gmp/nextprime.c:103-104) squares in one word. It stops
  at the square root exactly when the block has room in the sense of `NextPrime.RootLoopExact`;
  for 32-bit words the first block without room starts at 4294835203. For the primes
  returned the condition is one-way: a block without room may still come out right, and
  `NextPrime.WrongStrike` shows the block from 4294839299, where a number is struck by one
  that does not divide it.
- gen-trialdivtab.c tests a product before it is printed, but never a single prime, and it
  closes an empty group when the first prime fails. `TrialTables.LineUsable` and
  `TrialTables.TrialDivideGenerated` say exactly when its reader can use the tables, and
  `TrialTables.LineDecides` that with any other line of a product below B/2 it misjudges some
  number. The test itself is stricter than needed: it stops when the residues reach B, and the
  reader is right up to B (`FoldedRemainder.RemainderExact`).
- The assertion n > 49 of `first_block_primesieve` (lib/gmp/primesieve.c:140) holds for every
  limb width but 8 bits, where n = 35 .. 49 violate it (`Primesieve.AssertedBound`). A limb of
  4 bits never gets there.
- Both passes of gen-trialdivtab.c print a group only when the next prime no longer fits, so
  the last group is in neither table. The theorems speak about the primes below the printed
  `SMALLEST_OMITTED_PRIME`.

## Model

| member | source | states |
|---|---|---|
| `Primes.PrimeAboveSqrt` | lib/gmp/primesieve.c:142-181 | some prime lies in (sqrt(m), m], so the endless loop over the sieving numbers always meets a prime whose square is beyond the array |
| `Primes.PrimeAbove` | lib/gmp/nextprime.c:60-158 | there is a prime above every number: a next prime to return always exists |
| `Primes.NoSmallFactor` | lib/gmp/bootstrap.c:54-72 | a number without a divisor up to its square root is prime |
| `WheelSieve.NToBitAdjoint` | lib/gmp/primesieve.c:84-90 | n_to_bit(n) is the last bit whose number is at most n |
| `WheelSieve.NToBitOnWheel` | lib/gmp/primesieve.c:84-90 | n_to_bit undoes bit_to_n on the numbers prime to 6 |
| `WheelSieve.FirstStrikeIsSquare` | lib/gmp/primesieve.c:152-155 | the closed form for lindex is n_to_bit of the square of id_to_n(i) |
| `WheelSieve.SecondStrikeIsProduct` | lib/gmp/primesieve.c:169-170 | the second closed form is n_to_bit of id_to_n(i) * bit_to_n(i) |
| `WheelSieve.StruckIsProgression` | lib/gmp/primesieve.c:159-176 | the two progressions of step 2p strike exactly the multiples p * q with q >= p that have a bit |
| `WheelSieve.CompositeIsStruck` | lib/gmp/primesieve.c:146-177 | every composite with a bit is struck for its least prime factor, from no later than itself |
| `WheelSieve.StoppingPrime` | lib/gmp/primesieve.c:145-181 | among the numbers up to the last bit there is a prime whose first strike is beyond it |
| `Primesieve.StrikeProgression` | lib/gmp/primesieve.c:162-176 | or-ing the rotating one-bit mask into successive limbs marks exactly the bits of the progression and nothing else |
| `Primesieve.RotateCountNonzero` | lib/gmp/primesieve.c:159-165 | the rotate count (2 * id_to_n(i)) % GMP_LIMB_BITS is never 0, which C would leave undefined |
| `Primesieve.FirstStrikeExpression` | lib/gmp/primesieve.c:154-154 | the word expression with -(i&1)&(i+1), evaluated with wrap-around, is the closed form |
| `Primesieve.NextPosition` | lib/gmp/primesieve.c:178-179 | rotating the test mask and adding its low bit to the index moves to the next bit of the array |
| `Primesieve.SeedRight` | lib/gmp/primesieve.c:97-118 | for every limb width the seed marks composites only, and all of them up to SEED_LIMIT |
| `Primesieve.MaskTail` | lib/gmp/primesieve.c:282-283 | exactly the bits behind the last one are set, the others are kept |
| `Primesieve.FirstBlockPrimesieve` | lib/gmp/primesieve.c:120-183 | terminates, and a bit up to n_to_bit(n) is set exactly when its number is composite; the bits behind are all set |
| `Primesieve.AssertedBound` | lib/gmp/primesieve.c:137-140 | the assertion n > 49 holds for every n above SEED_LIMIT exactly when the limb is not 8 bits wide; there it fails from n = 35 on |
| `Primesieve.StartInBlock` | lib/gmp/primesieve.c:213-216 | the adjusted lindex is the first element of the progression inside the block, relative to it |
| `Primesieve.BlockResieve` | lib/gmp/primesieve.c:185-241 | the block is sieved exactly and earlier limbs are kept, although continue leaves the test mask one bit behind |
| `Primesieve.ReturnedCount` | lib/gmp/primesieve.c:286-286 | size * GMP_LIMB_BITS - popcount is the number of primes in [4, n] |
| `Primesieve.SieveBlocks` | lib/gmp/primesieve.c:271-276 | the long path: a first block and whole further blocks sieve all limbs |
| `Primesieve.GmpPrimesieve` | lib/gmp/primesieve.c:261-287 | for every n > 4, on both paths, a bit is clear exactly when its number is prime; the result counts the primes in [4, n] |
| `NextPrime.WheelTable` | lib/gmp/nextprime.c:65-67 | the 48 gaps of addtab step from 11 to 221 through exactly the numbers prime to 210 |
| `NextPrime.WheelAdvances` | lib/gmp/nextprime.c:153-154 | p += addp[ai], ai = (ai+1) % 48 goes to the next number prime to 210 and skips no prime |
| `NextPrime.StruckIndices` | lib/gmp/nextprime.c:143-152 | the computed index and its steps by p are the indices of the odd multiples of p greater than p |
| `NextPrime.PrimeSieve.constructor` | lib/gmp/nextprime.c:160-167 | the fresh sieve is valid and has returned nothing |
| `NextPrime.PrimeSieve.IndexOf` | lib/gmp/nextprime.c:143-148 | the index computation in word arithmetic; WordIndexExact says that it is the first odd multiple above p unless a sum wraps |
| `NextPrime.PrimeSieve.Strike` | lib/gmp/nextprime.c:143-152 | s[k] becomes non-zero exactly for the proper multiples of p; the sentinel is kept |
| `NextPrime.RootTest` | lib/gmp/nextprime.c:103-104 | the comparison of (sqrt_s0+1)^2 with the last number of the block is exact in word arithmetic |
| `NextPrime.RootLoopExact` | lib/gmp/nextprime.c:103-104 | for an M that is a square, as 2^32 and 2^64: the loop stops at the exact root if and only if some r has s0 + 1024 <= r^2 < M |
| `NextPrime.FirstBlockWithoutRoom` | lib/gmp/nextprime.c:103-104 | with 32-bit words the block from 4294835203 is the first where the loop passes the root: 65536^2 wraps to 0 |
| `NextPrime.WrongStrike` | lib/gmp/nextprime.c:103-152 | with 32-bit words the root loop of the block from 4294839299 does not stop before 127997, whose index computation wraps to 0: the sieve strikes 4294839299, which 127997 does not divide |
| `NextPrime.PrimeSieve.RaiseRoot` | lib/gmp/nextprime.c:103-104 | sqrt_s0 ends as the exact square root of the last number of the block, and the loop terminates |
| `NextPrime.PrimeSieve.StrikeBlock` | lib/gmp/nextprime.c:106-155 | after the strikes with 3, 5, 7 and the wheel numbers up to the root, all odd prime factors up to the root are covered |
| `NextPrime.SieveComplete` | lib/gmp/nextprime.c:139-155 | once the wheel has passed the square root the zeros of the table are exactly the primes |
| `NextPrime.PrimeSieve.Resieve` | lib/gmp/nextprime.c:97-156 | a refill moves to the next 512 odd numbers, also by the deliberate wrap of s0 after the prime 2, misses no prime and keeps the history |
| `NextPrime.PrimeSieve.Next` | lib/gmp/nextprime.c:60-158 | each call returns the next prime, if its block has room in the word: the results so far stay the first primes in order, and the recursion terminates |
| `NextPrime.FirstPrimesUnique` | lib/gmp/nextprime.c:1-2 | a sequence of the first k primes is determined by its length, so the k-th result is the k-th prime |
| `NextPrime.FirstPrimesExist` | lib/gmp/nextprime.c:60-158 | for every k there are k first primes |
| `NextPrime.FirstCalls` | lib/gmp/nextprime.c:60-167 | n calls after initialisation return exactly the first n primes, if the block of the last has room in the word, which is exact for the root loop (RootLoopExact) and sufficient for the results |
| `WideArith.AddSsaaaa` | lib/gmp/longlong.h:1984-1990 | the two-word sum modulo B^2 |
| `WideArith.SubDdmmss` | lib/gmp/longlong.h:1994-2000 | the two-word difference modulo B^2 |
| `WideArith.AddColumns` | lib/gmp/longlong.h:2041-2048 | the additions of the four partial products put the columns into two words, with the one carry that can occur |
| `WideArith.UmulPpmm` | lib/gmp/longlong.h:2026-2050 | the exact two-word product from four half-word products, for every even word size |
| `WideArith.HalfQuotient` | lib/gmp/longlong.h:2077-2088 | one half-quotient with at most two corrections, and the no-carry test, is exact |
| `WideArith.CorrectHalf` | lib/gmp/longlong.h:2081-2088 | the two corrections with wrap-around turn a negative remainder of the estimate into the right one |
| `WideArith.UdivQrnndC` | lib/gmp/longlong.h:2067-2105 | exact quotient and remainder for every normalised d and n1 < d |
| `PreinvDivision.Inverse21IsWord` | lib/gmp/gmp-impl.h:3008-3015 | the reciprocal floor((B^2-1)/d) - B of a normalised divisor is a word |
| `PreinvDivision.UpperBound21` | lib/gmp/gmp-impl.h:3081-3085 | the candidate remainder is below max(B - d, q0), also for nh == d |
| `PreinvDivision.FirstCorrection` | lib/gmp/gmp-impl.h:3082-3085 | the masked correction lands below 2d exactly, with either comparison |
| `PreinvDivision.UdivQrnndPreinv` | lib/gmp/gmp-impl.h:3067-3094 | exact quotient and remainder of two limbs by a normalised limb, with > or >= in the mask test |
| `PreinvDivision.UdivQrnndPreinvZero` | lib/gmp/gmp-impl.h:3071-3078 | for a low limb 0 the result is exact without the second correction |
| `PreinvDivision.UdivRnndPreinv` | lib/gmp/gmp-impl.h:3099-3119 | the exact remainder, also when nh == d |
| `PreinvDivision.UdivRnndPreinvZero` | lib/gmp/gmp-impl.h:3103-3108 | the exact remainder for a low limb 0 |
| `ThreeByTwo.InvertLimb` | lib/gmp/gmp-impl.h:3008-3015 | udiv_qrnnd of (~x, ~0) by x gives floor((B^2-1)/x) - B |
| `ThreeByTwo.FirstAdjustment` | lib/gmp/gmp-impl.h:3020-3030 | after adding d0 and the first corrections, v is largest for the product with (B + v) * d1 + d0 |
| `ThreeByTwo.SecondAdjustment` | lib/gmp/gmp-impl.h:3031-3041 | the carry and the comparison of (p, t0) with (d1, d0) decide between v, v-1 and v-2 |
| `ThreeByTwo.InvertPi1` | lib/gmp/gmp-impl.h:3017-3043 | the result is floor((B^3-1)/(d1*B+d0)) - B, the inverse that udiv_qr_3by2 requires |
| `ThreeByTwo.UpperBound32` | lib/gmp/gmp-impl.h:3131-3151 | the candidate remainder is below B^2 - D or below q0 * B |
| `ThreeByTwo.Candidate3by2` | lib/gmp/gmp-impl.h:3131-3139 | the estimate and the two-word candidate n - (q+1) * d modulo B^2, with its range around q0 |
| `ThreeByTwo.Adjust3by2` | lib/gmp/gmp-impl.h:3140-3153 | the masked addition and the rare subtraction bring every such candidate to the exact remainder |
| `ThreeByTwo.SubtractOnce` | lib/gmp/gmp-impl.h:3146-3153 | the rare last step brings a remainder below 2D below D, and the quotient with it |
| `ThreeByTwo.UdivQr3by2` | lib/gmp/gmp-impl.h:3121-3154 | n = q * d + r with r < d for every B although all intermediates wrap |
| `ThreeByTwo.DivideTwoByOne` | lib/gmp/gmp-impl.h:3008-3094 | invert_limb and udiv_qrnnd_preinv together divide exactly |
| `ThreeByTwo.DivideThreeByTwo` | lib/gmp/gmp-impl.h:3017-3154 | invert_pi1 and udiv_qr_3by2 together divide exactly |
| `ModInverse.TableRight` | lib/gmp/mp_minv_tab.c:39-59 | every entry of the 128-entry table is the inverse of 2i+1 modulo 256 |
| `ModInverse.NewtonDoubles` | lib/gmp/gmp-impl.h:3265-3276 | each wrapping Newton step doubles the number of valid bits, up to the word |
| `ModInverse.BinvertLimb` | lib/gmp/gmp-impl.h:3236-3281 | the inverse of an odd limb modulo 2^w, for every word of at least 8 bits |
| `ModInverse.LiftBit` | lib/gmp/bootstrap.c:121-126 | bit i of inv * a decides whether setting bit i of inv makes it an inverse modulo 2^(i+1) |
| `ModInverse.MpzInvert2Exp` | lib/gmp/bootstrap.c:109-136 | the result is an inverse modulo 2^n for every odd a; the closing assertion holds exactly when a > 0 and n >= 1 |
| `ModInverse.MpzInvertUi2Exp` | lib/gmp/bootstrap.c:139-146 | an inverse modulo 2^n below 2^n |
| `ModInverse.InverseUnique` | lib/gmp/bootstrap.c:109-109 | there is only one inverse below 2^w |
| `ModInverse.InvertBothWays` | lib/gmp/gmp-impl.h:3236-3281 | binvert_limb and mpz_invert_2exp give the same result for every odd limb |
| `TrialDivision.SmallPrimeExact` | lib/gmp/bootstrap.c:45-46 | the mask 0xa08a28ac has exactly the bits of the primes below 32 |
| `TrialDivision.IsPrimeTest` | lib/gmp/bootstrap.c:40-75 | accepts exactly the primes |
| `TrialDivision.DivisibilityTest` | lib/gmp/gen-trialdivtab.c:136-142 | x * inv mod B <= floor((B-1)/p) exactly when p divides x, for every limb x |
| `FoldedRemainder.ComputeConstants` | lib/gmp/gen-trialdivtab.c:224-282 | the constants are B^k mod b for k = 1..5, the shift count, and B^2/b without its top bit |
| `FoldedRemainder.ReciprocalOfShifted` | lib/gmp/gen-trialdivtab.c:234-248 | B^2/b without its top bit is the reciprocal of b shifted to the top, as udiv_rnnd_preinv needs it, exactly when b is not a power of two |
| `FoldedRemainder.MpzPreinvInvert` | lib/gmp/bootstrap.c:88-107 | the result is the reciprocal of the shifted divisor exactly when the divisor is not a power of two; for a power of two it is B, one too large |
| `FoldedRemainder.SumSpills` | lib/gmp/gen-trialdivtab.c:284-300 | reports whether the five residues add up to B or more |
| `FoldedRemainder.FoldFits` | lib/gmp/mpn/generic/mod_1_4.c:136-159 | when the residues add up to at most B, a fold of five limbs and an addend stays below B^2 |
| `FoldedRemainder.FoldCongruent` | lib/gmp/mpn/generic/mod_1_4.c:136-159 | a fold keeps the residue of the number modulo the divisor |
| `FoldedRemainder.TopLimbs` | lib/gmp/mpn/generic/mod_1_4.c:106-134 | the switch leaves a multiple of four limbs and the fold of the others in two words |
| `FoldedRemainder.FoldBlock` | lib/gmp/mpn/generic/mod_1_4.c:145-158 | one round of the loop computes the fold modulo B^2, whether or not its additions wrap |
| `FoldedRemainder.FoldedRight` | lib/gmp/mpn/generic/mod_1_4.c:98-159 | if the residues add up to at most B, nothing wraps and the two words are congruent to the number |
| `FoldedRemainder.FoldedWrong` | lib/gmp/mpn/generic/mod_1_4.c:98-159 | if they add up to more, some number of six limbs is a multiple of the odd divisor and its two words are not |
| `FoldedRemainder.RemainderExact` | lib/gmp/mpn/generic/mod_1_4.c:90-171 | the divisor divides the two words exactly when it divides the number, for every number, if and only if the residues add up to at most B |
| `FoldedRemainder.DivideLast` | lib/gmp/mpn/generic/mod_1_4.c:161-170 | the last fold, the shifts and the division give the remainder of the two words |
| `FoldedRemainder.Mod1s4p` | lib/gmp/mpn/generic/mod_1_4.c:90-171 | for any constants the remainder of the fold by the product; the remainder of the number, of any length, when the residues add up to at most B |
| `TrialTables.TestProduct` | lib/gmp/gen-trialdivtab.c:121-127 | stop is set exactly when twice the product reaches B, or the residues of B .. B^5 by it add up to at least B |
| `TrialTables.GroupsAreGood` | lib/gmp/gen-trialdivtab.c:116-153 | the groups are the primes in order, and each group passes the test |
| `TrialTables.GroupIsGreedy` | lib/gmp/gen-trialdivtab.c:116-153 | every beginning of a group, but for a single prime behind another group, has a product below B/2 with residues that add up to less than B, and no group with the first prime of the next one has |
| `TrialTables.GreedyIsGroup` | lib/gmp/gen-trialdivtab.c:116-153 | there is only one grouping with that property |
| `TrialTables.GreedyGroups` | lib/gmp/gen-trialdivtab.c:116-153 | so the odd primes up to the last one are grouped in one way only, for every word size |
| `TrialTables.ByteGroups` | lib/gmp/gen-trialdivtab.c:116-153 | with 8-bit words and end 11 the one line is 3 * 5 * 7, and 11 is omitted |
| `TrialTables.LineUsable` | lib/gmp/gen-trialdivtab.c:116-127 | a printed line meets everything mpn_mod_1s_4p requires and lets it find the remainder of every number, if and only if its group is neither empty nor a single prime from B/2 on or with residues that add up to more than B |
| `TrialTables.SinglesSuffice` | lib/gmp/gen-trialdivtab.c:116-153 | if the first prime passes the test and every prime fits a line of its own, every line can be used |
| `TrialTables.LargeWordFits` | lib/gmp/gen-trialdivtab.c:116-153 | a word with 5 * (end - 1) < B is large enough for that |
| `TrialTables.SmallWordFails` | lib/gmp/gen-trialdivtab.c:116-153 | with 8-bit words and end 127 the prime 113 (residues 30, 109, 106, 16, 28) gets a line that cannot be used |
| `TrialTables.LineDecides` | lib/gmp/mpn/generic/trialdiv.c:105-120 | what is wrong with the other lines: for a product below B/2, the remainder decides divisibility for every number if and only if the line can be used |
| `TrialTables.MissedFactor` | lib/gmp/mpn/generic/trialdiv.c:105-120 | with 8-bit words the six limbs 94, 255, 255, 255, 255, 255 are a multiple of 113 and their fold leaves 4 |
| `TrialTables.EmitEntries` | lib/gmp/gen-trialdivtab.c:131-143 | one entry (inverse, limit) for every odd prime of the interval, in order |
| `TrialTables.GenerateDtab` | lib/gmp/gen-trialdivtab.c:116-154 | for every even word size and every last prime: the first pass prints the entries of exactly the odd primes below SMALLEST_OMITTED_PRIME, which is the first prime of the open group of the only greedy grouping |
| `TrialTables.GeneratePtab` | lib/gmp/gen-trialdivtab.c:161-213 | for every even word size and every last prime: the second pass prints one line per closed group of the only greedy grouping, with its product, constants, start index and count, usable exactly when LineUsable says so |
| `TrialTables.EntryDecides` | lib/gmp/mpn/generic/trialdiv.c:119-120 | the test on the remainder by the product decides divisibility of the whole number |
| `TrialTables.TryLine` | lib/gmp/mpn/generic/trialdiv.c:115-125 | the first prime of the line that divides the number is found, if there is one |
| `TrialTables.TrialDiv` | lib/gmp/mpn/generic/trialdiv.c:94-132 | a line is tried when fewer than nprimes primes come before it, the first one always; the answer is 0 exactly when no prime of a tried line divides, and then *where is kept; otherwise it is the inverse of the first prime that divides, and *where is its line, which is one of those tried |
| `TrialTables.TrialDivideGenerated` | lib/gmp/gen-trialdivtab.c:60-213 | generator and reader together, for every even word size and every last prime: the tables are usable if and only if no group is empty or a single prime that does not fit; then the answer is 0 exactly when no odd prime below the omitted one divides the number, else the inverse of the least that does |
| `IncompleteLu.Ilu0` | data/ILU0_CSR/ilu0_csr.cpp:9-33 | in every row whose earlier pivots are nonzero, (L*U)[i][j] is the original value at every stored position |
| `IncompleteLu.EliminateStep` | data/ILU0_CSR/ilu0_csr.cpp:16-31 | one multiplier: the rest of the row is updated exactly where both rows store a value |
| `IncompleteLu.MergeSkipInRow` | data/ILU0_CSR/ilu0_csr.cpp:27-27 | a smaller column of the row is skipped because U has no value there |
| `IncompleteLu.ProductSplit` | data/ILU0_CSR/ilu0_csr.cpp:9-33 | the product entry is what the multipliers eliminated plus the entry of U |
| `IncompleteLu.FactorisationEquation` | data/ILU0_CSR/ilu0_csr.cpp:9-33 | the state after a row is done satisfies the matrix equation there |
| `LeftLu.ApplyColumn` | data/LeftLU_CSC/leftLU_static.cpp:31-41 | an update by a stored column of L is the update by the dense column |
| `LeftLu.StoreUpper` | data/LeftLU_CSC/leftLU_static.cpp:43-51 | the nonzeros above the diagonal are listed in order, and only they |
| `LeftLu.StoreLower` | data/LeftLU_CSC/leftLU_static.cpp:53-61 | the nonzeros from the diagonal on, divided by the pivot, are listed in order |
| `LeftLu.PackedEntry` | data/LeftLU_CSC/leftLU_static.cpp:44-60 | dropping zeros does not change the dense entries |
| `LeftLu.StoreColumn` | data/LeftLU_CSC/leftLU_static.cpp:43-62 | both parts of column j are stored with their ends, and earlier columns stay |
| `LeftLu.FactorisationEquation` | data/LeftLU_CSC/leftLU_static.cpp:24-62 | A = L * (U + diag(d)) in every column whose pivots so far are nonzero |
| `LeftLu.LuLeft04` | data/LeftLU_CSC/leftLU_static.cpp:22-65 | every column of both output arrays holds the column of the factor |
| `LeftLu.StoredFactorisation` | data/LeftLU_CSC/leftLU_static.cpp:11-65 | A = L * (U + diag(d)) for the factors as they are stored, with the pivots kept aside |
| `SparseProduct.ListColumn` | data/SpSpMUL_CSC/smSmMul.c:6-20 | version 1 lists the rows of the column in the order of their first update and accumulates their values |
| `SparseProduct.SumColumn` | data/SpSpMUL_CSC/smSmMul.c:36-44 | version 2 lists a row whenever it is updated while its value is zero, starting from whatever x still holds |
| `SparseProduct.Gather` | data/SpSpMUL_CSC/smSmMul.c:22-24 | the values of the listed rows are copied, earlier columns are kept |
| `SparseProduct.Multiply` | data/SpSpMUL_CSC/smSmMul.c:3-26 | Cp, Ci and Cx of version 1 for all columns, with marks that are never cleared |
| `SparseProduct.MultiplyZeroTest` | data/SpSpMUL_CSC/smSmMul.c:31-50 | Cp, Ci and Cx of version 2 for all columns, for any number of rows: the entries of x behind the cleared ones carry their sums over |
| `SparseProduct.StreamIsProduct` | data/SpSpMUL_CSC/smSmMul.c:6-20 | what accumulates in x[i] for column j is (A*B)[i][j] |
| `SparseProduct.StoredIsProduct` | data/SpSpMUL_CSC/smSmMul.c:3-26 | the result of version 1 is a well-formed matrix equal to A*B, with distinct rows in each column |
| `SparseProduct.ZeroTestExact` | data/SpSpMUL_CSC/smSmMul.c:40-42 | from a cleared x the zero test lists the same rows exactly when no updated row has a zero value |
| `SparseProduct.VersionsAgree` | data/SpSpMUL_CSC/smSmMul.c:3-50 | the two versions store the same Cp, Ci and Cx exactly when no partial sum cancels to zero and no updated row holds something from an earlier column |
| `SparseProduct.ZeroTestEntry` | data/SpSpMUL_CSC/smSmMul.c:31-50 | what version 2 has stored reads, entry by entry, as the sum of (A*B)[i][j] and what row i still held, times the number of times row i was listed for column j |
| `SparseProduct.ZeroTestIsProduct` | data/SpSpMUL_CSC/smSmMul.c:31-50 | with no more rows than columns, version 2 stores A*B if and only if every row that it lists more than once for a column is zero in the product |
| `SparseProduct.AllCleared` | data/SpSpMUL_CSC/smSmMul.c:33-33 | with no more rows than columns nothing is left in x |
| `SparseProduct.WideNothingCarried` | data/SpSpMUL_CSC/smSmMul.c:33-33 | then the second half of the condition of VersionsAgree always holds |
| `SparseProduct.UnclearedRowLost` | data/SpSpMUL_CSC/smSmMul.c:33-42 | with three rows and two columns, an input for which the second column loses its entry |
| `SparseProduct.PositiveMatrices` | data/SpSpMUL_CSC/smSmMul.c:29-50 | positive entries never cancel |
| `SparseProduct.CancellationRepeatsRow` | data/SpSpMUL_CSC/smSmMul.c:40-42 | a concrete product in which version 2 lists a row twice and stores an entry that reads as 2 where A*B has 1 |
| `TriangularSolve.SolveColumns` | data/Forward-Solve_CSC/forwSolCSC.c:4-11 | x becomes the solution of L*x = b, in place |
| `TriangularSolve.Lsolve` | data/Forward-Solve_CSC/forwSolCSC.c:1-13 | 0 for a missing argument; otherwise 1, and x solves the system |
| `TriangularSolve.ForwardSolveRows` | data/Forward-Solve_CSR/forwSolCSR.c:1-8 | the row-oriented solve also gives a solution |
| `TriangularSolve.Gaxpy` | data/GAXPY/gaxpy.cpp:8-20 | y += A * x for any compressed columns, duplicates included |
| `TriangularSolve.UniqueSolution` | data/Forward-Solve_CSR/forwSolCSR.c:1-8 | a nonsingular lower triangular system has one solution, whatever the storage layout |
| `TriangularSolve.SolveBothAndMultiply` | data/GAXPY/gaxpy.cpp:8-20 | the two solves agree on equal matrices, and the product gives the right-hand side back |
| `TmpAlloc.MaskRoundsDown` | lib/gmp/tal-notreent.c:81-81 | x & -align rounds down to a multiple of the alignment |
| `TmpAlloc.RoundedWordExact` | lib/gmp/tal-notreent.c:81-81 | (now * 3 / 2 + align - 1) & -align in words covers now when now * 3 does not wrap, and is smaller than now when it does |
| `TmpAlloc.TmpStack.ChunkSize` | lib/gmp/tal-notreent.c:76-90 | the new totals and the chunk size in word arithmetic: the total is the old maximum, or the least multiple of the alignment from 3/2 of what is needed on, and the chunk holds its growth behind the header; they suffice for the request if and only if it fits (for alignments up to an eighth of the address space) |
| `TmpAlloc.GrownTotal` | lib/gmp/tal-notreent.c:79-81 | now * 3 / 2 rounded up is the least multiple of the alignment that is not below it |
| `TmpAlloc.TmpStack.HugeRequest` | lib/gmp/tal-notreent.c:76-88 | a request that does not fit: 2^31 bytes of a 32-bit address space when nothing is allocated; the total made for it is 2^30 |
| `TmpAlloc.TmpStack.NewChunk` | lib/gmp/tal-notreent.c:65-98 | a fresh chunk is put on top; both totals become the old maximum if the request fits it, else 3/2 of what is needed, rounded up, and the chunk is as long as the growth and the header |
| `TmpAlloc.TmpStack.Alloc` | lib/gmp/tal-notreent.c:57-104 | the block lies inside the top chunk, aligned and disjoint from all live blocks; a chunk is opened exactly when the request does not fit the top one, with the totals and the length NewChunk states, and otherwise nothing but the allocation point moves |
| `TmpAlloc.TmpStack.AllocTwice` | lib/gmp/tal-notreent.c:57-104 | a request that fits what the one before has added to the total opens no chunk |
| `TmpAlloc.TmpStack.SmallRequests` | lib/gmp/tal-notreent.c:57-104 | on a fresh stack with 32-bit words, alignment 8 and a header of 16 bytes, requests of 16 and 8 bytes share a chunk of 40 bytes |
| `TmpAlloc.TmpStack.TakeMark` | lib/gmp/tal-notreent.c:109-114 | the mark remembers the present state |
| `TmpAlloc.TmpStack.Pop` | lib/gmp/tal-notreent.c:120-128 | the chunks above the mark are released and their capacities subtracted |
| `TmpAlloc.TmpStack.Free` | lib/gmp/tal-notreent.c:116-130 | the chunk list, all allocation points and the live blocks are those of the moment of the mark |
| `TmpAlloc.BlockTaken` | lib/gmp/tal-notreent.c:100-101 | taking a block keeps the blocks disjoint, inside and aligned, and all marks usable |
| `TmpAlloc.FrameRestored` | lib/gmp/tal-notreent.c:117-130 | the state of a mark is still valid, and so are all earlier marks in it |
| `GlobMatch.SafeFNMatch` | lib/glog/vlog_is_on.cc:69-96 | terminates, and accepts what the comparison-first reading of the pattern accepts |
| `GlobMatch.Sound` | lib/glog/vlog_is_on.cc:69-96 | nothing outside the meaning of * and ? is accepted |
| `GlobMatch.Complete` | lib/glog/vlog_is_on.cc:69-96 | every match is found when the string has no star and the pattern does not end in two |
| `GlobMatch.RightOnPlainStrings` | lib/glog/vlog_is_on.cc:77-92 | on strings without a star the matcher is right for exactly the patterns that do not end in two stars |
| `GlobMatch.RightOnAllStrings` | lib/glog/vlog_is_on.cc:78-82 | on all strings it is right for exactly the patterns without a star |
| `Demangle.State.constructor` | lib/glog/demangle.cc:174-187 | the initial State is valid: cursor at the start, printing on |
| `Demangle.State.ParseChar` | lib/glog/demangle.cc:196-202 | consumes one character exactly when it is c |
| `Demangle.State.ParseTwoChar` | lib/glog/demangle.cc:206-214 | consumes two characters exactly when they are the given ones |
| `Demangle.State.ParseCharClass` | lib/glog/demangle.cc:218-230 | consumes one character exactly when it is in the class |
| `Demangle.State.Append` | lib/glog/demangle.cc:251-265 | everything is written if it fits before the terminating NUL; otherwise the buffer is full and overflowed is set |
| `Demangle.State.MaybeAppendWithLength` | lib/glog/demangle.cc:278-294 | prints nothing while append is off, otherwise the text and at most one character more; leaves the parse position alone |
| `Demangle.State.MaybeAppendSeparator` | lib/glog/demangle.cc:337-341 | prints a separator inside nested names only |
| `Demangle.State.SeparatorRoundTrip` | lib/glog/demangle.cc:337-351 | a separator and its cancellation leave the State as it was if the separator fitted; if not, overflowed is set and at most two characters of the text before are lost |
| `Demangle.State.ParseNumber` | lib/glog/demangle.cc:591-611 | succeeds exactly at an optional n and digits, with their signed decimal value; a failure after n keeps the n |
| `Demangle.State.ParseIdentifier` | lib/glog/demangle.cc:658-671 | succeeds exactly when the remembered number is not -1 and at most what remains, and adds it to the cursor even when it is negative |
| `Demangle.State.ParseSourceName` | lib/glog/demangle.cc:566-573 | on every input: succeeds exactly when the number fits and is not -1, and ends behind the digits plus that number; a failure restores the State |
| `Grammar.NegativeLength` | lib/glog/demangle.cc:566-671 | for n and digits of value v that end at e: v = 1 fails, otherwise the end is e - v, so the name consumes exactly when v < e - cur and stands still or goes back exactly when e - cur <= v |
| `Grammar.N2StandsStill` | lib/glog/demangle.cc:566-671 | behind any prefix the source-name n2 ends where it starts |
| `Grammar.InnerName` | lib/glog/demangle.cc:566-671 | in _Z5n2foo the source-name that is read skips the one inside it that would stand still |
| `Demangle.State.AdvanceSourceName` | lib/glog/demangle.cc:566-575 | as the grammar uses it: a source-name is read exactly when it consumes; stopped is set exactly where it stands still or goes back, and the place is recorded |
| `Demangle.State.ParsePrefix` | lib/glog/demangle.cc:533-552 | always succeeds and ends exactly where the merged prefix ends, which may be where it started; terminates |
| `Demangle.State.ParsePrefixPart` | lib/glog/demangle.cc:533-552 | one round of the loop: reads a template-param, a substitution or an unscoped-name, or stays at the same place |
| `Demangle.State.PrefixRounds` | lib/glog/demangle.cc:533-552 | where a source-name stands still every round of the loop of ParsePrefix succeeds at the same place, for any number of rounds |
| `Demangle.EndlessName` | lib/glog/demangle.cc:533-552 | "_ZNn2" reaches that loop at its fourth character |
| `Demangle.State.ParseMangledName` | lib/glog/demangle.cc:430-442 | reads _Z, an encoding and everything from an @ on; a failure leaves the State just after "_Z" exactly when the input starts with it, otherwise as it was |
| `Demangle.State.OneOrMoreTypes` | lib/glog/demangle.cc:239-246 | reads as many types as there are, at least one, or restores the State |
| `Demangle.State.OneOrMoreTemplateArgs` | lib/glog/demangle.cc:239-246 | reads as many template-args as there are, at least one, or restores the State |
| `Demangle.State.ParseEncoding` | lib/glog/demangle.cc:447-458 | reads a name with a bare-function-type, else a name, else a special-name, or restores the State |
| `Demangle.State.ParseName` | lib/glog/demangle.cc:464-481 | reads a nested-name, a local-name, an unscoped-template-name with template-args, or an unscoped-name, or restores the State |
| `Demangle.State.ParseUnscopedName` | lib/glog/demangle.cc:485-498 | reads an unqualified-name, also behind St, or restores the State |
| `Demangle.State.ParseUnscopedTemplateName` | lib/glog/demangle.cc:502-504 | reads an unscoped-name or a substitution, or restores the State |
| `Demangle.State.ParseNestedName` | lib/glog/demangle.cc:508-520 | reads N, CV-qualifiers or none, a prefix or none, and E, or restores the State |
| `Demangle.State.ParseUnqualifiedName` | lib/glog/demangle.cc:558-563 | reads an operator-name, a ctor-dtor-name, a source-name or a local-source-name, or restores the State |
| `Demangle.State.ParseLocalSourceName` | lib/glog/demangle.cc:580-588 | reads L, a source-name, and a discriminator or none, or restores the State |
| `Demangle.State.ParseFloatNumber` | lib/glog/demangle.cc:615-633 | reads all hexadecimal digits that follow, at least one, or restores the State |
| `Demangle.State.ParseSeqId` | lib/glog/demangle.cc:637-655 | reads all digits and capital letters that follow, at least one, or restores the State |
| `Demangle.State.ParseOperatorName` | lib/glog/demangle.cc:676-719 | reads cv and a type, v with a digit and a source-name, or two listed letters, or restores the State |
| `Demangle.State.ParseSpecialName` | lib/glog/demangle.cc:739-798 | reads the nine forms behind T and G, or restores the State |
| `Demangle.State.ParseCallOffset` | lib/glog/demangle.cc:802-817 | reads h, a number and _, or v, a v-offset and _, or restores the State |
| `Demangle.State.ParseVOffset` | lib/glog/demangle.cc:825-833 | reads a number, _ and a number, or restores the State |
| `Demangle.State.ParseCtorDtorName` | lib/glog/demangle.cc:837-858 | reads C and 1 to 3, or D and 0 to 2, or restores the State |
| `Demangle.State.ParseType` | lib/glog/demangle.cc:874-914 | reads the eleven forms of a type, or restores the State |
| `Demangle.State.ParseCVQualifiers` | lib/glog/demangle.cc:919-925 | reads r, V, K in this order, at least one of them, or restores the State |
| `Demangle.State.ParseBuiltinType` | lib/glog/demangle.cc:929-945 | reads a listed letter, or u and a source-name, or restores the State |
| `Demangle.State.ParseFunctionType` | lib/glog/demangle.cc:948-956 | reads F, Y or nothing, a bare-function-type and E, or restores the State |
| `Demangle.State.ParseBareFunctionType` | lib/glog/demangle.cc:959-969 | reads types, at least one, or restores the State |
| `Demangle.State.ParseClassEnumType` | lib/glog/demangle.cc:972-974 | reads a name, or restores the State |
| `Demangle.State.ParseArrayType` | lib/glog/demangle.cc:978-992 | reads A, a number or an expression or nothing, _ and a type, or restores the State |
| `Demangle.State.ParsePointerToMemberType` | lib/glog/demangle.cc:995-1003 | reads M and two types, or restores the State |
| `Demangle.State.ParseTemplateParam` | lib/glog/demangle.cc:1007-1021 | reads T_, or T, a number and _, or restores the State |
| `Demangle.State.ParseTemplateTemplateParam` | lib/glog/demangle.cc:1026-1029 | reads a template-param or a substitution, or restores the State |
| `Demangle.State.ParseTemplateArgs` | lib/glog/demangle.cc:1032-1044 | reads I, template-args, at least one, and E, or restores the State |
| `Demangle.State.ParseTemplateArg` | lib/glog/demangle.cc:1049-1062 | reads a type, an expr-primary, or X, an expression and E, or restores the State |
| `Demangle.State.ParseExpression` | lib/glog/demangle.cc:1073-1118 | reads the eight forms of an expression, or restores the State |
| `Demangle.State.ParseExprPrimary` | lib/glog/demangle.cc:1125-1154 | reads L, a type, a value and E, L, a mangled-name and E, or LZ, an encoding and E, or restores the State |
| `Demangle.State.ParseLocalName` | lib/glog/demangle.cc:1159-1174 | reads Z, an encoding, E and a name, or Z, an encoding and Es, with a discriminator or none, or restores the State |
| `Demangle.State.ParseDiscriminator` | lib/glog/demangle.cc:1177-1184 | reads _ and a number, or restores the State |
| `Demangle.State.ParseSubstitution` | lib/glog/demangle.cc:1189-1220 | reads S_, S, a seq-id and _, or S and a listed letter, or restores the State |
| `Demangle.State.ParseNumberedSubstitution` | lib/glog/demangle.cc:1189-1220 | an alternative of ParseSubstitution: reads S, a seq-id and _, or restores the State |
| `Demangle.State.ParseAbbreviation` | lib/glog/demangle.cc:1189-1220 | an alternative of ParseSubstitution: reads S and a listed letter, or restores the State |
| `Demangle.State.ParseCast` | lib/glog/demangle.cc:676-719 | an alternative of ParseOperatorName: reads cv and a type, or restores the State |
| `Demangle.State.ParseVendorOperator` | lib/glog/demangle.cc:676-719 | an alternative of ParseOperatorName: reads v, a digit and a source-name, or restores the State |
| `Demangle.State.ParseListedOperator` | lib/glog/demangle.cc:676-719 | an alternative of ParseOperatorName: reads two listed letters, or restores the State |
| `Demangle.State.ParseSpecialType` | lib/glog/demangle.cc:739-798 | an alternative of ParseSpecialName: reads T, a letter of the given ones, and a type, or restores the State |
| `Demangle.State.ParseSpecialObject` | lib/glog/demangle.cc:739-798 | an alternative of ParseSpecialName: reads the two given letters and a name, or restores the State |
| `Demangle.State.ParseCovariantThunk` | lib/glog/demangle.cc:739-798 | an alternative of ParseSpecialName: reads Tc, two call-offsets and an encoding, or restores the State |
| `Demangle.State.ParseThunk` | lib/glog/demangle.cc:739-798 | an alternative of ParseSpecialName: reads T, h or v in one of the two forms, a call-offset and an encoding, or restores the State |
| `Demangle.State.ParseConstructionTable` | lib/glog/demangle.cc:739-798 | an alternative of ParseSpecialName: reads TC, a type, a number, _ and a type, or restores the State |
| `Demangle.State.ParseAlias` | lib/glog/demangle.cc:739-798 | an alternative of ParseSpecialName: reads GA and an encoding, or restores the State |
| `Demangle.State.ParseSilentType` | lib/glog/demangle.cc:739-798 | an alternative of ParseSpecialName: reads a type, with printing off, or restores the State |
| `Demangle.State.ParseConstructor` | lib/glog/demangle.cc:837-858 | an alternative of ParseCtorDtorName: reads C and 1 to 3, or restores the State |
| `Demangle.State.ParseDestructor` | lib/glog/demangle.cc:837-858 | an alternative of ParseCtorDtorName: reads D and 0 to 2, or restores the State |
| `Demangle.State.ParseQualifiedType` | lib/glog/demangle.cc:874-914 | an alternative of ParseType: reads CV-qualifiers and a type, or restores the State |
| `Demangle.State.ParsePointerType` | lib/glog/demangle.cc:874-914 | an alternative of ParseType: reads P, R, C or G and a type, or restores the State |
| `Demangle.State.ParseVendorType` | lib/glog/demangle.cc:874-914 | an alternative of ParseType: reads U, a source-name and a type, or restores the State |
| `Demangle.State.ParsePlainType` | lib/glog/demangle.cc:874-914 | an alternative of ParseType: reads the forms of a type from builtin-type on, or restores the State |
| `Demangle.State.ParseTemplateType` | lib/glog/demangle.cc:874-914 | an alternative of ParseType: reads a template-template-param and template-args, or restores the State |
| `Demangle.State.ParseNumberedParam` | lib/glog/demangle.cc:1007-1021 | an alternative of ParseTemplateParam: reads T, a number and _, or restores the State |
| `Demangle.State.ParseSizedArray` | lib/glog/demangle.cc:978-992 | an alternative of ParseArrayType: reads A, a number, _ and a type, or restores the State |
| `Demangle.State.ParseUnsizedArray` | lib/glog/demangle.cc:978-992 | an alternative of ParseArrayType: reads A, an expression or nothing, _ and a type, or restores the State |
| `Demangle.State.ParseOperation` | lib/glog/demangle.cc:1073-1118 | an alternative of ParseExpression: reads an operator-name and three, two or one expressions, or restores the State |
| `Demangle.State.ParseSizeof` | lib/glog/demangle.cc:1073-1118 | an alternative of ParseExpression: reads st and a type, or restores the State |
| `Demangle.State.ParseScopedName` | lib/glog/demangle.cc:1073-1118 | an alternative of ParseExpression: reads sr, a type, an unqualified-name, and in one of the two forms template-args, or restores the State |
| `Demangle.State.ParseLiteral` | lib/glog/demangle.cc:1125-1154 | an alternative of ParseExprPrimary: reads L, a type, a number or a float, and E, or restores the State |
| `Demangle.State.ParseExternalName` | lib/glog/demangle.cc:1125-1154 | an alternative of ParseExprPrimary: reads L, a mangled-name and E, or restores the State |
| `Demangle.State.ParseExternalEncoding` | lib/glog/demangle.cc:1125-1154 | an alternative of ParseExprPrimary: reads LZ, an encoding and E, or restores the State |
| `Demangle.State.ParseNonVirtualOffset` | lib/glog/demangle.cc:802-817 | an alternative of ParseCallOffset: reads h, a number and _, or restores the State |
| `Demangle.State.ParseVirtualOffset` | lib/glog/demangle.cc:802-817 | an alternative of ParseCallOffset: reads v, a v-offset and _, or restores the State |
| `Demangle.State.ParsePart` | lib/glog/demangle.cc:533-552 | an alternative of ParsePrefix: reads a template-param, a substitution or an unscoped-name, or restores the State |
| `Demangle.State.ParseScope` | lib/glog/demangle.cc:1159-1174 | an alternative of ParseLocalName: reads Z, an encoding and E, or restores the State |
| `Demangle.State.ParseLocalEntity` | lib/glog/demangle.cc:1159-1174 | an alternative of ParseLocalName: reads Z, an encoding, E, a name, and a discriminator or none, or restores the State |
| `Demangle.State.ParseLocalString` | lib/glog/demangle.cc:1159-1174 | an alternative of ParseLocalName: reads Z, an encoding, Es, and a discriminator or none, or restores the State |
| `Demangle.Demangle` | lib/glog/demangle.cc:1223-1229 | for every input: terminates; accepts exactly the text that the grammar reads as a mangled-name up to its end and that is printed without an overflow, and there is none with (n + longest + 61) * n bytes of buffer; what is accepted is derived from the BNF; stopped if and only if one of the source-names that were read stands still, so never when no n is followed by a digit |
| `Grammar.EndIsRule` | lib/glog/demangle.cc:429-1220 | every production ends where its alternatives and items do: the ranks that make the recursion end cut nothing off |
| `Grammar.EndDerives` | lib/glog/demangle.cc:429-1220 | whatever is read as a production is derived from its BNF rule, in which order and greed play no part |
| `GrammarSteps.PrefixItems` | lib/glog/demangle.cc:533-552 | the merged prefix: parts as long as there are any, and if there was one, template-args and another prefix |
| `GrammarSteps.OperatorTooShort` | lib/glog/demangle.cc:676-719 | the early return for fewer than two characters refuses nothing that has an operator-name |
| `SimpleNames.SimpleNameRead` | lib/glog/demangle.cc:464-481 | a source-name, or N, source-names and E, is read as a name as a whole |
| `SimpleNames.SignatureRead` | lib/glog/demangle.cc:959-969 | qualifiers, P, R, C, G, builtin types and simple names are read as types up to the end |
| `SimpleNames.SimpleNamesAccepted` | lib/glog/demangle.cc:430-442 | every function with a simple name and such parameters, or none, is accepted as a whole |
| `SimpleNames.UnclosedNameRefused` | lib/glog/demangle.cc:508-520 | every nested name of source-names without its E is refused |
| `SimpleNames.NestedExample` | lib/glog/demangle.cc:508-520 | _ZN3foo3barEv is accepted |
| `SimpleNames.PointerExample` | lib/glog/demangle.cc:874-914 | _Z1fPc is accepted |
| `GlogTables.GlogTablesFit` | lib/glog/demangle.cc:43-132 | the tables of the source have lower-case builtin letters other than r and texts of at most 18 characters |
| `GlogTables.DemangleSimpleName` | lib/glog/demangle.cc:1223-1229 | with these tables the entry point accepts every such name of n characters in a buffer of more than (n + 79) * n bytes, by steps of the code if no n is followed by a digit |
| `BnfNames.NestedNameMerged` | lib/glog/demangle.cc:506-532 | every nested-name of the left-recursive BNF is one of the merged grammar that the code reads |
| `BnfNames.EmptyNestedName` | lib/glog/demangle.cc:506-532 | the converse fails: _ZNE is accepted, and its nested-name has no component |
| `BnfNames.SourceNameExact` | lib/glog/demangle.cc:566-573 | a source-name of the BNF (positive length, identifier without a leading digit) is read as such, and a source-name that is read is one exactly when it starts with a digit and its length is not zero |

## Left out

- Primesieve.FirstBlockPrimesieve: the inner assertion n > 49 (lib/gmp/primesieve.c:140) is not repeated inside the method, because the proof does not need it and 8-bit limbs violate it (Primesieve.AssertedBound). Index arithmetic on `mp_size_t` and `lindex` is unbounded, so sieves whose indices approach the word size are not covered.
- Primesieve.StrikeProgression: the limb rotation is modelled for limb widths that are powers of two from 4 on, the widths for which the rotate count cannot be 0.
- NextPrime.PrimeSieve.Next: names, through ghost arguments, a prime above the last one returned whose block from s0 has room: some r has s0 + 1024 <= r^2 and (r + 1)^2 <= M. Without room the root loop passes the root (RootLoopExact, FirstBlockWithoutRoom), and what is then returned is not modelled; WrongStrike shows a strike that goes wrong.
- ModInverse.BinvertLimb: nail builds and words narrower than 8 bits are not modelled.
- TrialDivision.IsPrimeTest: the words of `isprime` are unbounded; the products and the candidates stay below the tested number.
- TrialTables.GenerateDtab: the width of a word is even, as in all theorems about double words.
- TrialTables.TrialDiv: reads tables whose lines can all be used; for other tables LineDecides says only that some number is misjudged. The bit fields idx:24 and np:8 of the reader are unbounded.
- FoldedRemainder.Mod1s4p: the library's own mpn_mod_1s_4p_cps, which computes the constants with limbs, is not part of this model; the constants are the generator's.
- IncompleteLu.Ilu0: positions outside the stored pattern are not constrained, and rows after a zero pivot are left open, because doubles are exact reals here; rounding, infinities and NaN are not modelled.
- LeftLu.LuLeft04: the pivots are not stored by the code and are kept as a specification function. Columns after a zero pivot are left open in the matrix equation.
- SparseProduct.MultiplyZeroTest: x is zero at first behind the entries that are cleared; the code shown does not say what is in it.
- SparseProduct.Multiply: the arrays for the result are as large as the result; growing them is not part of the code shown. Version 3 of the product differs from version 2 by precomputed column starts only and is not modelled.
- TriangularSolve.Gaxpy: x and y are different arrays.
- TmpAlloc.TmpStack.Alloc: addresses are relative to their chunk, and that chunks do not overlap is the underlying allocator's promise. Requests that do not fit, for which ChunkSize proves the new chunk or the new total too small, are excluded by `Fits`, because the code goes on to hand out memory outside the chunk.
- GlobMatch.SafeFNMatch: the positions are unbounded; the code mixes int and size_t.
- Demangle.State.AdvanceSourceName: where a source-name with a negative length stands still or goes back, the model fails and sets `stopped`; from there on the run of every production is not the code's, which may loop for ever.
- Demangle.Demangle: numbers are unbounded. The printed text is a cursor; the tables of names are arbitrary. Long alternatives of the productions are methods of their own, which keep the convention of the production.
- Grammar.EndDerives: derives from the BNF with the merged prefix and with source-names of any sign that consume, since the code accepts those; BnfNames.EmptyNestedName and BnfNames.SourceNameExact show the difference. A version suffix from an `@` on is part of a mangled-name, as in the code.
- SimpleNames.SimpleNamesAccepted: template arguments, substitutions, local and special names are not among the simple names; for them the exact end is Grammar.End.
- src/, tutorial/ and doc/: the calculator's input and output and the examples over library classes.
- data/IC0_CSR, data/StaticLeftCholesky_CSC: their conditions and multipliers do not give a matrix equation as written; the Gauss-Seidel and SpMV kernels would add easier members only.
- Assembly and processor-specific variants in lib/gmp, tuning thresholds, debug variants of the allocator, gmpxx.h, and the other table generators.
- glog's logging, signal handling, symbolising and stack traces, gtest, and the isl stubs: input, output and system calls.
