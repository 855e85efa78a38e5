# ChiaVDF: a verified model

ChiaVDF evaluates a verifiable delay function: from a form x of a negative prime discriminant D = -p it
computes y = x^(2^T) by T squarings in the class group of binary quadratic forms, proves the result with
(nested) Wesolowski proofs, and verifies such proofs. This project models that computation in Dafny and
proves what it relies on.

The long numbers of the source are Dafny's unbounded integers, with the rounding of each big-integer call
(floor, truncation, exact division) written out. Where the source relies on a machine width, such as the
words of the Lehmer loop, the multipliers of the reducer and the packed state of the checkpoint store, the
width is stated and proved to suffice.

The modules follow the layers of the source:

- **Forms.** `QuadraticForms` has the action of integer matrices and proper equivalence; `Reduction` the
  reduction of `vdf_new.h` and Gauss's theorem that a class holds one reduced form; `Composition` Gauss
  composition by cubes of integers, as the common specification of every multiplication and squaring in the
  source, with the theorem that composition is an operation on classes. `PartialXgcd`, `Nucomp`, `VdfNew`
  and `Reducer` prove the algorithms of `xgcd_partial.c`, `nucomp.h`, `vdf_new.h` and `Reducer.h` against it.
- **The squaring pipeline.** `GcdStream` and `PhasedSquare` model the phases of `vdf_fast.h` with their
  streamed gcd matrices; `RepeatedSquare` the loops of `vdf.h`, with the result that every mix of
  implementations reaches the same reduced form; `Interleaving` and `TwoThread` the two threads, their
  counters and fences, for all interleavings; `PhaseFrames` checks that the phases change no more than the
  interleaving allows them to, and `ThreadValues` that the threads compute: it gives every operation its meaning
  and shows that any run ends with the numbers of the single-thread iterations.
- **Proofs.** `ClassGroup` is an abstract commutative group; `Wesolowski` the sequential and the parallel
  prover and the verifier; `ProofChain` the nested proofs, their byte layout and the three checking functions.
- **The codec.** `FormCodec` and `FormBytes` model `bqfc.c`: compression, decompression by a modular square
  root that is an integer square root, and the 100-byte format.
- **Storage and scheduling.** `TwoWeso` and `SlidingWindow` model the two checkpoint stores, `Scheduler` the
  event loop of the n-weso prover, and `HwProofs` the reference-counted proof chains of the hardware client.
- **Primality.** `Lucas` models the Lucas ladder and the two probable prime tests of `primetest.h`.

`Integers`, `ExtendedGcd`, `Bytes` and `Options` are shared helpers. `dafny verify dfyconfig.toml` checks the
whole project.

Three properties one might expect do not hold of the code as it is, and the model says exactly when they do:

- `square` of `vdf_new.h` keeps the discriminant if and only if gcd(a, b) divides c
  (`VdfNew.SquareKeepsDisc`; the form (3, 3, 1) is a counterexample). For a prime discriminant this is so for
  every form with a < p (`RepeatedSquare.LargeWithoutFallback`).
- The batched reducer may stop on a form that is not reduced: it leaves (2, -2, 3) as it is
  (`Reducer.StopsUnreduced`). A form that already passes its test is turned into the reduced one if and only if
  neither a < c and b = -a nor c < a and b = c (`Reducer.ArrangedIsReduced`). In general it stops at the reduced
  form h of the class of its input, whatever the approximations, if and only if h is not (a, a, c) with a < c
  (`Reducer.StopsReducedExactly`); for a prime discriminant only the principal class is such a class
  (`Reducer.OnlyPrincipalOnEdge`).
- The codec restores a form with -a < b <= a if and only if a > 1 is not the square of gcd(a, b)
  (`FormCodec.DecodesExactly`, `FormBytes.RoundTrip`). Every form (m^2, m), m > 1, is lost
  (`FormCodec.StuckFamily`), for instance (4, 2, 5) of discriminant -76; no form with gcd(a, b) = 1 is.

The repository's own README says of the streamed gcd that it ends with A above the threshold and B not above it
(`GcdStream.GcdUnsigned`). For `mpz_xgcd_partial`, which looks at L only through leading words and between
batches, the model claims r1 <= L, 2 r2 > L (`PartialXgcd.XgcdEndAbove`), and r2 > L when r1 = 0
(`PartialXgcd.XgcdEndPositive`). The factor 2 is what the exactness test of the batches leaves; it is why
`FormBytes.SerializedFits` asks for three free bits in a, and beyond that `FormBytes.EncodedExactly` is the condition.

## Model

| member | source | states |
|---|---|---|
| `Reduction.Normalize` | src/vdf_new.h:4-26 | The result is properly equivalent to the form, has the same a and -a < b <= a, and a normal form is left alone |
| `Reduction.NearestMultiple` | src/vdf_new.h:4-26 | floor((a - b) / (2a)) is the translation that brings b into (-a, a], and it is 0 exactly where nothing is to be done |
| `Reduction.ReduceImpl` | src/vdf_new.h:28-40 | One step stays in the class, brings c to the front and normalizes; if -b is already in range it only swaps |
| `Reduction.Reduce` | src/vdf_new.h:42-66 | Terminates on every positive definite form with a reduced form of the same class, which is the only reduced form of that class |
| `Reduction.Minima` | src/vdf_new.h:137-147 | A reduced form represents nothing smaller than a, and nothing smaller than c off the x-axis |
| `Reduction.ReducedUnique` | src/vdf_new.h:165-167 | Equivalent reduced forms are equal, so comparing coefficients decides equality of classes |
| `Composition.GaussIdentity` | src/vdf_new.h:326-423 | The three forms of a cube satisfy f(x, y) g(z, w) = h(X, Y) for the two bilinear forms of the cube |
| `Composition.OneDiscriminant` | src/vdf_new.h:326-423 | A composite has the discriminant of its factors, which have the same one |
| `Composition.CompositeUnique` | src/vdf_new.h:428-430 | Composition is an operation on classes: equivalent factors, one of them primitive, have equivalent composites |
| `Composition.CubesDifferByMatrix` | src/nucomp.h:136-180 | Two cubes carrying the same primitive pair of forms differ by a recombination of determinant 1, which is what the Euclidean steps of NUCOMP do |
| `Composition.ComposesCommutes` | src/nucomp.h:67-71 | Swapping the factors, as NUCOMP does when the first is larger, changes nothing |
| `VdfNew.PrimeCoprime` | src/vdf_new.h:91-101 | For discriminant -p and 0 < a < p, gcd(a, b) = 1 |
| `VdfNew.PrimePrimitive` | src/vdf_new.h:91-101 | Every form of prime discriminant is primitive |
| `VdfNew.ReducedBelow` | src/vdf_new.h:137-147 | A reduced form of discriminant -p, p > 3, has a < p |
| `VdfNew.RawSquareComposes` | src/vdf_new.h:77-89 | If gcd(a, b) divides c, the three coefficients are a composite of the form with itself |
| `VdfNew.SquareKeepsDisc` | src/vdf_new.h:77-89 | The three coefficients have the discriminant of the form if and only if gcd(a, b) divides c |
| `VdfNew.SquareCounterexample` | src/vdf_new.h:77-89 | The primitive form (3, 3, 1) is squared to something of another discriminant |
| `VdfNew.Square` | src/vdf_new.h:196-201 | Returns the reduced composite of the form with itself |
| `VdfNew.SolveLinearCongruence` | src/vdf_new.h:303-323 | a mu = b (mod m), and v = m / gcd(a, m) generates the other solutions |
| `VdfNew.ThreeGcd` | src/vdf_new.h:204-208 | The positive common divisor that is a combination of the three numbers |
| `VdfNew.FirstSolvable` | src/vdf_new.h:342-349 | The first congruence of multiply always has a solution |
| `VdfNew.SecondSolvable` | src/vdf_new.h:351-360 | Any solution of the first makes the second solvable |
| `VdfNew.MultiplyCube` | src/vdf_new.h:362-420 | The divisions that give l and m are exact and the three coefficients are a composite of the factors |
| `VdfNew.SolveForCube` | src/vdf_new.h:342-380 | The unknowns of multiply satisfy the two defining equations exactly |
| `VdfNew.Multiply` | src/vdf_new.h:326-423 | For any two positive forms of one discriminant, the reduced composite |
| `PartialXgcd.AcceptedStep` | src/xgcd_partial.c:160-181 | A step that passes the test on leading words is a true Euclidean step of the long numbers with a true positive remainder before it |
| `PartialXgcd.NextFits` | src/xgcd_partial.c:160-181 | Every value the loop body computes fits a signed 64-bit word, accepted or not |
| `PartialXgcd.TestFits` | src/xgcd_partial.c:168-174 | The differences the test evaluates fit such a word too |
| `PartialXgcd.TestExact` | src/xgcd_partial.c:168-174 | The test, in the order of the code, succeeds exactly when the step is accepted |
| `PartialXgcd.LeadingBounds` | src/xgcd_partial.c:145-153 | The extracted words are the leading bits of r2 and r1 at one scale |
| `PartialXgcd.Batch` | src/xgcd_partial.c:155-181 | The inner loop leaves word cofactors that equal the plain Euclidean steps they stand for, and stops where the function of the outer loop does: not past the word of L by more than `PartialXgcd.BatchAbove` allows |
| `PartialXgcd.AcceptedHalf` | src/xgcd_partial.c:158-173 | A step that passes the test starts from a remainder word of at least twice the cofactor that can lower it |
| `PartialXgcd.BatchAbove` | src/xgcd_partial.c:153-181 | A batch that takes a step leaves 2 r2 > L for the long r2: looking at the word of L keeps it from running past L |
| `PartialXgcd.ApplyBatch` | src/xgcd_partial.c:183-214 | Applying the words, with the sign tests of the code, gives both long remainders and both cofactors |
| `PartialXgcd.TurnIsRun` | src/xgcd_partial.c:143-215 | One turn of the outer loop is one or more plain Euclidean steps |
| `PartialXgcd.OuterTurn` | src/xgcd_partial.c:143-215 | The body of the outer loop computes that turn, including the single division when no step is accepted |
| `PartialXgcd.XgcdEndIsRun` | src/xgcd_partial.c:115-224 | The loop ends in a state of Euclid's algorithm with 0 <= r1 <= L |
| `PartialXgcd.XgcdPartial` | src/xgcd_partial.c:115-224 | The method computes exactly the state in which the loop ends |
| `PartialXgcd.XgcdRun` | src/xgcd_partial.c:115-224 | Its four results are those of some number of plain Euclidean steps, with r1 <= L; for R1 <= R2 and L < 2 R2 also L < 2 r2, abs(co1) r2 <= R2 and abs(co1) L < 2 R2 |
| `PartialXgcd.AcceptedStepPositive` | src/xgcd_partial.c:160-181 | An accepted word step never reaches the remainder 0 |
| `PartialXgcd.XgcdEndPositive` | src/xgcd_partial.c:115-224 | If the loop runs down to r1 = 0, the remainder before it is above L |
| `PartialXgcd.XgcdEndAbove` | src/xgcd_partial.c:143-215 | Where the loop ends 2 r2 > L, if that was so at the start or one turn was taken |
| `PartialXgcd.CofactorBelow` | src/xgcd_partial.c:143-215 | Then abs(co1) r2 <= R2 and abs(co1) L < 2 R2 |
| `PartialXgcd.RunInv` | src/xgcd_partial.c:140-223 | Every state reached keeps the cofactor relations and the alternating signs |
| `PartialXgcd.CofactorIdentity` | src/nucomp.h:358 | co2 r1 - co1 r2 = +-R2, with the sign opposite to that of co1 |
| `PartialXgcd.XgcdPartialFacts` | src/nucomp.h:358-363 | For 0 <= R1 <= R2 the result satisfies the relations the callers rely on |
| `Nucomp.BaseExact` | src/nucomp.h:81-119 | The starting k makes both hidden quotients exact, for every gcd of the factors |
| `Nucomp.StartNucomp` | src/nucomp.h:81-119 | What precedes the branch yields the starting cube of the two forms |
| `Nucomp.FirstGcd` | src/nucomp.h:91-97 | sp is a common divisor and v1 a2 = sp (mod a1), also when a1 divides a2 |
| `Nucomp.SmallNucomp` | src/nucomp.h:121-134 | The branch a1 < L: the division is exact and the result a composite |
| `Nucomp.Composite` | src/nucomp.h:147-172 | The three divisions by a1, a1 and co1 are exact and the numbers are those of a composite of the factors |
| `Nucomp.FinishForm` | src/nucomp.h:173-187 | Reducing b and recomputing c stays in the class, and the division by 4a is exact, for either sign of a |
| `Nucomp.Assemble` | src/nucomp.h:176-194 | The result form is positive definite, of discriminant D and equivalent to the composite |
| `Nucomp.QfbNucomp` | src/nucomp.h:63-201 | For any two positive forms of discriminant D the result is a composite of them, positive definite and of discriminant D, and its first coefficient x is small: a x L^2 <= a' L^4 + 2 a abs(b') L^2 + 4 a^2 c' with (a, b, c) the factor of the smaller a |
| `Nucomp.StartNudupl` | src/nucomp.h:262-323 | What precedes the branch yields the starting cube of the form with itself, for either sign of b |
| `Nucomp.QfbNudupl` | src/nucomp.h:224-413 | For any positive form of discriminant D the result is a composite of it with itself, positive definite and of discriminant D, with L^2 x <= (L^2 + abs(b))^2 - D for its first coefficient x |
| `Nucomp.LeadingValue` | src/nucomp.h:365-392 | a x is the value of the second factor at the last remainder and s times the cofactor |
| `Nucomp.CompactLarge` | src/nucomp.h:120-196 | So the two stopping bounds of the partial gcd, r1 <= L and abs(co1) L < 2 a1, bound the first coefficient of the composite |
| `Reducer.SlowQuotient` | src/Reducer.h:181-185 | floor((floor(b / c) + 1) / 2) = floor((b + c) / (2c)): the slow step is that of vdf_new |
| `Reducer.ProductDet` | src/Reducer.h:201-244 | Whatever the quotients, the matrix has determinant 1 |
| `Reducer.BatchStep` | src/Reducer.h:207-242 | One pass is the reduction step on the words with the nearest quotient, ties away from 0; the matrix follows, and the test tells exactly whether its new column is within the threshold |
| `Reducer.CalcUvwx` | src/Reducer.h:201-244 | For any words, the matrix is the product of reduction steps on them up to the last within the threshold, with entries within it; the loop stops only there, at a <= c or at c <= 0, and takes no step exactly if the first quotient is 2^31 or more in size |
| `Reducer.BatchUnique` | src/Reducer.h:201-244 | The words determine the quotients: there is one list that is taken step by step and stops there |
| `Reducer.FirstStep` | src/Reducer.h:201-244 | That list is not empty if and only if the first quotient is below 2^31 in size |
| `Reducer.MultipliersFit` | src/Reducer.h:92-113 | The nine multipliers made from it fit a signed 64-bit word |
| `Reducer.Context.IsReduced` | src/Reducer.h:165-179 | Answers whether abs(b) is at most a and c, and if so leaves exactly the arranged form, of the same class: a and c in order, b negated with a swap or when a = c and b < 0 |
| `Reducer.Context.SlowStep` | src/Reducer.h:181-199 | One step on the long numbers is the reduction step whose result is normal: it stays in the class, brings c to the front and moves b into (-c, c] |
| `Reducer.Context.ApplyMatrix` | src/Reducer.h:94-113 | The nine products and six sums are the substitution by the matrix |
| `Reducer.Context.Run` | src/Reducer.h:69-116 | The forms it goes through are those of the rounds, each reached from one that fails the test, and a form that passes is arranged and returned; a loop that stops by itself ends at the reduced form h of the class, or at (a, -a, c) if h = (a, a, c) with a < c; slow rounds alone stop after at most abs(b) of them, and after 1 + log3(c) |
| `Reducer.SlowLowers` | src/Reducer.h:181-199 | A slow step does not raise abs(b), and from a normal form that fails the test it lowers it |
| `Reducer.SlowThird` | src/Reducer.h:181-199 | When a slow step leads from a normal form to another form that fails the test, a has fallen to less than a third |
| `Reducer.SlowRunEnds` | src/Reducer.h:69-84 | While the test fails, the number of slow rounds is below abs(b) and 3 to the number less one is below c |
| `Reducer.ArrangedIsReduced` | src/Reducer.h:165-179 | For every form that passes the test, the arranged form is reduced if and only if neither a < c and b = -a nor c < a and b = c |
| `Reducer.StopsUnreduced` | src/Reducer.h:165-179 | (2, -2, 3) passes the test, stays as it is and is not reduced; (2, 2, 3) is the reduced form of its class |
| `Reducer.OrderedIs` | src/Reducer.h:69-116 | Every form at which the loop can stop is the reduced form h of the class, or (a, -a, c) if h = (a, a, c) with a < c |
| `Reducer.StopsReducedExactly` | src/Reducer.h:69-116 | All forms at which the loop can stop in a class are its reduced form if and only if that is not (a, a, c) with a < c |
| `Reducer.OnlyPrincipalOnEdge` | src/Reducer.h:69-116 | For a prime discriminant -p, p > 3, the reduced form of a class is such an (a, a, c) if and only if a = 1 |
| `GcdStream.EntryIsBatch` | src/threading.h:685-704 | An entry has unsigned words, and multiplying by it makes its Euclidean steps whatever their parity |
| `GcdStream.QuotientsCarry` | src/threading.h:698-704 | The quotients that drive the remainders drive both cofactor columns |
| `GcdStream.StreamsMore` | src/threading.h:779-798 | Publishing one more batch extends what the entries stand for by its steps |
| `GcdStream.GcdUnsigned` | src/threading.h:761-823 | Succeeds exactly when the entries there is room for suffice, and then the entries stand for Euclid's algorithm stopped with b <= threshold < a; entries and remainders are those of the batches one after the other |
| `GcdStream.GcdBatch` | src/threading.h:761-823 | One batch: its quotients, the remainders it leaves, and why it stopped |
| `GcdStream.Consume` | src/vdf_fast.h:470-505 | Multiplying by the entries up to the last one applies all the quotients |
| `PhasedSquare.PhaseFormulas` | src/vdf_fast.h:550-764 | The formulas for h, A and f in terms of the cofactors are those of NUDUPL, whatever the sign of v1 |
| `PhasedSquare.GcdMeansCoprime` | src/vdf_fast.h:792-806 | The last remainder of the first gcd is 1 if and only if gcd(a, b) = 1 |
| `PhasedSquare.StartOfIteration` | src/vdf_fast.h:327-443 | With gcd 1 the streamed cofactor gives k = -c / b (mod a), the starting cube of NUDUPL |
| `PhasedSquare.MiddleOfIteration` | src/vdf_fast.h:550-764 | The divisions by a and by v1 are exact |
| `PhasedSquare.IterationAlgebra` | src/vdf_fast.h:550-850 | A and f are, up to sign, the first two coefficients of a composite of the form with itself |
| `PhasedSquare.EndOfIteration` | src/vdf_fast.h:770-850 | The new a and b extend to a positive form of the discriminant in the class of that composite |
| `PhasedSquare.FormIsConsistent` | src/vdf_fast.h:290-326 | On such a form the remainder and sign checks pass and c is the last coefficient |
| `PhasedSquare.SquareState.constructor` | src/vdf_fast.h:863-883 | The state starts on the given form, uncorrupted |
| `PhasedSquare.SquareState.Phase0Master` | src/vdf_fast.h:187-256 | Goes on exactly when the sizes fit and the gcd has room for its entries; the entries stand for that gcd |
| `PhasedSquare.SquareState.Phase0Slave` | src/vdf_fast.h:258-444 | The corruption flag is raised exactly on inconsistent slots; otherwise c and k are right |
| `PhasedSquare.SquareState.Phase0` | src/vdf_fast.h:187-444 | Both halves together: no corruption on a good form, and k is -c / b (mod a) when gcd(a, b) = 1 |
| `PhasedSquare.SquareState.Phase1Slave` | src/vdf_fast.h:512-544 | The second gcd stops with t <= L < s, exactly when it has room for its entries |
| `PhasedSquare.SquareState.Phase1Master` | src/vdf_fast.h:450-510 | v0 and v1 are the negated cofactors of that gcd |
| `PhasedSquare.SquareState.Phase2Master` | src/vdf_fast.h:550-615 | h is the signed quotient of bt + c v1 by a where the division is exact |
| `PhasedSquare.SquareState.Phase2Slave` | src/vdf_fast.h:617-666 | The signed square of t and 2 v0 |
| `PhasedSquare.SquareState.Phase3Master` | src/vdf_fast.h:672-700 | A goes to the slot that is not current |
| `PhasedSquare.SquareState.Phase3Slave` | src/vdf_fast.h:701-764 | e is given by the quotient by v1 where the division is exact |
| `PhasedSquare.SquareState.Phase4Master` | src/vdf_fast.h:770-850 | Raises the corruption flag exactly if the gcd is not 1; otherwise B and abs(A) become current |
| `PhasedSquare.SquareState.FinishIteration` | src/vdf_fast.h:770-850 | On a prepared composite the new slots hold a form of its class; a refusal changes nothing |
| `PhasedSquare.SquareState.Iterate` | src/vdf_fast.h:1083-1120 | Succeeds exactly when sizes and gcds fit and gcd(a, b) = 1, raises the corruption flag exactly when only the last fails, and moves to a composite of the form with itself that passes the next checks; the new slots are the function `NextSquare` of the old ones and the batch sizes |
| `PhasedSquare.BegunIs` | src/vdf_fast.h:187-544 | The fields that phases 0 and 1 leave are functions of the slots and the batch sizes |
| `PhasedSquare.ComposedIs` | src/vdf_fast.h:550-764 | So are the new a, with its sign, and the new b before its reduction |
| `RepeatedSquare.SquaringsUnique` | src/vdf.h:160-314 | For a prime discriminant the class after n squarings depends only on the starting class |
| `RepeatedSquare.VdfOutputUnique` | src/vdf.h:160-314 | Two runs of n iterations, by any mix of implementations, have the same reduced result |
| `RepeatedSquare.LargeWithoutFallback` | src/vdf_original.h:284-308 | The fallback squaring fails only on forms with a >= p |
| `RepeatedSquare.ReducedFallbackWorks` | src/vdf_original.h:284-308 | It works on every reduced form |
| `RepeatedSquare.VdfOriginal.Square` | src/vdf_original.h:284-308 | Leaves the reduced composite of the form with itself in the scratch form |
| `RepeatedSquare.VdfOriginal.Repeat` | src/vdf.h:95-112 | Squares exactly the given number of times and ends reduced |
| `RepeatedSquare.RepeatedSquareNudupl` | src/vdf.h:119-157 | Squares exactly the given number of times, whatever the reducer does in between, for any gcd(a, b) |
| `RepeatedSquare.RepeatedSquareFast` | src/vdf_fast.h:1070-1142 | Returns the form after the reported number of squarings; it reports corruption only after meeting a form with gcd(a, b) > 1, and stops early only at an iteration that cannot run |
| `RepeatedSquare.Assign` | src/vdf_fast.h:919-955 | Returns the current form with its c and the count, or the input unchanged if the state is flagged |
| `RepeatedSquare.SquareBatch` | src/vdf.h:203-246 | A corrupt or shortened batch is completed by the fallback; the count is the number of squarings done |
| `RepeatedSquare.RepeatedSquare` | src/vdf.h:160-314 | Over any run of batches the form is the starting form squared the counted number of times |
| `Interleaving.Confluent` | src/threading.h:589-662 | Two orders of the same operations that agree on every conflicting pair leave the same memory |
| `Interleaving.SameReads` | src/threading.h:589-662 | Every operation reads the same values in both orders |
| `Interleaving.StepKeeps` | src/threading.h:607-662 | A step of a thread that its fence allows keeps counters, order and operation count in step |
| `Interleaving.RunKeeps` | src/threading.h:607-662 | Every state of every run keeps them, and a run has one state per instruction |
| `Interleaving.NoRace` | src/threading.h:607-636 | Two operations that could run next never conflict |
| `Interleaving.NoDeadlock` | src/threading.h:607-636 | Until both threads have finished one of them can step |
| `Interleaving.RunResult` | src/threading.h:607-662 | A finished run has done every operation once, leaves the memory of any ordered history and has read what it reads |
| `TwoThread.PublishPiece` | src/threading.h:779-818 | Publishing n entries advances the counter by one for each, after the entry is written |
| `TwoThread.ReceivePiece` | src/threading.h:738-754 | Receiving n entries waits for each of them before it is read |
| `TwoThread.Phase0MasterPiece` | src/vdf_fast.h:187-256 | Counters before and after phase 0 of the master, and the place of its operations |
| `TwoThread.Phase0SlavePiece` | src/vdf_fast.h:258-444 | Counters before and after phase 0 of the slave, and the place of its operations |
| `TwoThread.Phase1MasterPiece` | src/vdf_fast.h:450-510 | Counters before and after phase 1 of the master, and the place of its operations |
| `TwoThread.Phase1SlavePiece` | src/vdf_fast.h:512-544 | Counters before and after phase 1 of the slave, and the place of its operations |
| `PhaseFrames.Phase0Master` | src/vdf_fast.h:187-256 | The phase leaves every location alone that its operations in the interleaving may not write |
| `PhaseFrames.Phase0Slave` | src/vdf_fast.h:258-444 | The same, for phase 0 of the slave |
| `PhaseFrames.Phase1Slave` | src/vdf_fast.h:512-544 | The same, for phase 1 of the slave |
| `PhaseFrames.Phase1Master` | src/vdf_fast.h:450-510 | The same, for phase 1 of the master |
| `PhaseFrames.Phase2Master` | src/vdf_fast.h:550-615 | The same, for phase 2 of the master |
| `PhaseFrames.Phase2Slave` | src/vdf_fast.h:617-666 | The same, for phase 2 of the slave |
| `PhaseFrames.Phase3Master` | src/vdf_fast.h:672-700 | The same, for phase 3 of the master |
| `PhaseFrames.Phase3Slave` | src/vdf_fast.h:701-764 | The same, for phase 3 of the slave |
| `PhaseFrames.Phase4Master` | src/vdf_fast.h:770-850 | The same, for phase 4 of the master |
| `TwoThread.SameIteration` | src/vdf_fast.h:187-857 | Within one iteration every conflicting pair of operations of the two threads is separated by a fence that fixes its order |
| `TwoThread.LaterSections` | src/vdf_fast.h:550-857 | Parts of phases 2 to 4 that no fence orders share no location that either writes |
| `TwoThread.ProgramsRaceFree` | src/vdf_fast.h:187-857 | Every conflicting pair of operations is separated, for any number of iterations and entries |
| `TwoThread.ProgramsNoCircle` | src/vdf_fast.h:187-857 | Two fences never wait for each other |
| `TwoThread.ProgramsCompatible` | src/vdf_fast.h:1001-1050 | The two programs satisfy all that the results about interleavings ask for |
| `TwoThread.SingleThreadOps` | src/vdf_fast.h:1070-1131 | The single-thread order does the same operations, in the order of their keys |
| `TwoThread.ThreadsAreSafe` | src/vdf_fast.h:1001-1050 | No run has a data race or a deadlock, the listener included, and every run is bounded |
| `TwoThread.ThreadsMatchSingle` | src/vdf_fast.h:1052-1131 | A finished run leaves in every location the symbolic content that the single-thread order leaves, and every operation has read the same; `ThreadValues.ThreadsCompute` says which numbers these are |
| `ThreadValues.PublishValues` | src/threading.h:779-818 | Publishing operations leave the entries and the remainders of the gcd of the numbers they start from |
| `ThreadValues.ReceiveValues` | src/vdf_fast.h:470-505 | Receiving operations apply the entries in order |
| `ThreadValues.GcdValues` | src/threading.h:761-823 | The operations of a gcd phase leave all entries and the last remainders of the pair it has read |
| `ThreadValues.Phase0SlaveValues` | src/vdf_fast.h:258-444 | The operations of phase 0 of the slave leave c and k and nothing else that a later phase reads |
| `ThreadValues.Phase1MasterValues` | src/vdf_fast.h:450-510 | Those of phase 1 of the master leave v0 and v1 |
| `ThreadValues.Phase2MasterValues` | src/vdf_fast.h:550-615 | Those of phase 2 of the master leave h and v1 h |
| `ThreadValues.Phase2SlaveValues` | src/vdf_fast.h:617-666 | Those of phase 2 of the slave leave the signed square of t and 2 v0 |
| `ThreadValues.Phase3Values` | src/vdf_fast.h:672-764 | Those of phase 3 leave A in the other slot, 2A and e |
| `ThreadValues.Phase4MasterValues` | src/vdf_fast.h:770-857 | Those of phase 4 leave B and abs(A) in the other slots, make them current and count the iteration |
| `ThreadValues.IterationValues` | src/vdf_fast.h:1083-1120 | The operations of one iteration take the slots that the memory holds to the ones that `SquareState.Iterate` computes |
| `ThreadValues.SingleThreadValues` | src/vdf_fast.h:1070-1131 | So do those of any number of iterations in the single-thread order |
| `ThreadValues.ThreadsCompute` | src/vdf_fast.h:1001-1050 | Every finished run of the two threads, in whatever order they step, leaves the a and b of these iterations in the current slots, with the index and the count |
| `ThreadValues.Iterations` | src/vdf_fast.h:1001-1131 | The a and b reached by n iterations are those of the form squared n times, and every run of two threads that make the same iterations ends with them |
| `ClassGroup.FastPow` | src/proof_common.h:113-136 | Square and multiply computes x^n for every n, 0 included |
| `ClassGroup.PowAdd` | src/verifier.h:37-53 | Exponents add under multiplication |
| `ClassGroup.PowPow` | src/verifier.h:37-53 | Exponents multiply under repeated powers |
| `Wesolowski.GetBlock` | src/prover_slow.h:42-50 | A block is below 2^k, so the bucket index is in range |
| `Wesolowski.LongDivision` | src/prover_slow.h:42-50 | The first n blocks leave the remainder of 2^(T - kn), as in long division in base 2^k |
| `Wesolowski.BlocksAreDigits` | src/prover_slow.h:42-50 | The blocks are the base-2^k digits of floor(2^T / B), for all k, T and B > 2^k |
| `Wesolowski.FillBuckets` | src/prover_slow.h:69-79 | Together the buckets of pass j weigh the sum of its blocks times their checkpoints |
| `Wesolowski.SplitIndex` | src/prover_slow.h:80-96 | The two double loops over high and low parts together raise every bucket to its index |
| `Wesolowski.FoldBuckets` | src/prover_slow.h:80-96 | x is multiplied by every bucket raised to its index |
| `Wesolowski.PassesCoverBlocks` | src/prover_slow.h:67-79 | The l passes over the checkpoints cover every block once |
| `Wesolowski.Passes` | src/prover_slow.h:67-97 | Passes hi-1 down to lo accumulate the columns lo to hi-1, divided by 2^(k lo) |
| `Wesolowski.GenerateWesolowski` | src/prover_slow.h:52-101 | The proof is x^floor(2^T / B) for all k, l >= 1 |
| `Wesolowski.ProvePart` | src/prover_impl.hpp:113-164 | One thread computes exactly its range of columns |
| `Wesolowski.SquareFormN` | src/prover_impl.hpp:105-111 | n squarings raise to 2^n |
| `Wesolowski.ParallelGenerateProof` | src/prover_impl.hpp:166-185 | The two parts multiply to the proof of the sequential prover, also for l = 1 |
| `Wesolowski.SquareAndCheckpoint` | src/prover_slow.h:115-124 | y = x^(2^T), and checkpoint i is x^(2^(i k l)) |
| `Wesolowski.VerifyWesolowskiProof` | src/verifier.h:37-53 | Accepts if and only if proof^B x^(2^T mod B) = y |
| `Wesolowski.HonestEquation` | src/verifier.h:37-53 | With an honest proof that is so for y = x^(2^T) and for no other y |
| `Wesolowski.ProveAndVerify` | src/prover_slow.h:103-146 | For every T, k, l >= 1 and B > 2^k what the slow prover computes is accepted |
| `ProofChain.VerifyWesoSegment` | src/verifier.h:25-35 | Computes the only end point that satisfies the equation and compares its hash with B |
| `ProofChain.WalkSegments` | src/verifier.h:103-137 | Walks exactly the blobs whose segments read as a checked chain no longer than the iterations, and leaves the end of the chain and what remains |
| `ProofChain.CheckProofOfTimeNWesolowski` | src/verifier.h:55-101 | Accepts if and only if there is a chain x0, ..., y in which every link satisfies its equation and hash check and the lengths sum to the iterations |
| `ProofChain.CheckWithB` | src/verifier.h:139-163 | Accepts if and only if there is such a chain whose last link hashes to B, and returns its end point |
| `ProofChain.WithBMatches` | src/verifier.h:139-163 | The two checks agree: taking y off, or putting back the y computed |
| `ProofChain.GetBFromProof` | src/verifier.h:165-183 | Returns the hash of the end of the chain and y exactly for blobs that walk without hash checks, and throws on all others |
| `ProofChain.WriteLinksRead` | src/vdf.h:573-580 | Written segments are read back as the same links, whatever precedes them |
| `ProofChain.HonestChain` | src/verifier.h:78-92 | Honest links pass their checks and lead to x^(2^total) |
| `ProofChain.HonestBlobValid` | src/verifier.h:55-101 | For any depth the honest blob is a valid proof of the total number of iterations |
| `ProofChain.LayoutSegments` | src/vdf.h:568-581 | y, the last proof, then the other segments from the last to the first |
| `ProofChain.LastSegmentBlob` | src/vdf.h:568-581 | That is the honest blob of the segments |
| `ProofChain.LayoutAndCheck` | src/vdf.h:562-587 | Any number of honest segments laid out by Prove is accepted for all their iterations |
| `ProofChain.SplitIterations` | src/vdf.h:387-390 | Two thirds, rounded down to a multiple of 100, and the rest |
| `ProofChain.OneMoreSegment` | src/vdf.h:418-426 | Appending a segment in front of a nested proof gives a nested proof of the sum |
| `ProofChain.ProveTwoWeso` | src/vdf.h:351-435 | The proof is a nested proof of 2 - depth segments for exactly the iterations asked for |
| `ProofChain.ProveAndCheckTwoWeso` | src/vdf.h:351-435 | A 2-weso proof is accepted at depth 2 for its own iterations |
| `Bytes.BigEndianRoundTrip` | src/util.h:88-105 | A length written as bytes is read back if it fits |
| `Bytes.BigEndianDigit` | src/util.h:88-105 | Byte i of len bytes is n / 256^(len - 1 - i) mod 256 |
| `Bytes.LittleEndianDigit` | src/bqfc.c:139-158 | Byte i of an exported field is n / 256^i mod 256 |
| `Bytes.LittleEndianRoundTrip` | src/bqfc.c:139-158 | An exported field is read back if it fits |
| `FormCodec.Compr` | src/bqfc.c:10-54 | Computes the compressed form defined by the partial gcd of a and abs(b) |
| `FormCodec.RootUnique` | src/bqfc.c:89-102 | The square root and the residue of b are determined by the compressed form |
| `FormCodec.Decompr` | src/bqfc.c:56-137 | Succeeds exactly on the compressed forms that stand for some (a, b), which in strict mode has abs(b) <= a |
| `FormCodec.DecodeUnique` | src/bqfc.c:56-137 | A compressed form stands for at most one (a, b) |
| `FormCodec.StopFacts` | src/bqfc.c:26-36 | Where the partial gcd stops, t abs(b) is r modulo a with r^2 <= a |
| `FormCodec.StopBelow` | src/bqfc.c:26-36 | The cofactor t is not 0 and abs(t) floor(sqrt(a)) < 2a |
| `FormCodec.CompressSizes` | src/bqfc.c:10-54 | What is stored is a / g, t / g with that bound on t, g and a quotient of at most g |
| `FormCodec.SquareCongruence` | src/bqfc.c:89-100 | t^2 D is r^2 modulo a |
| `FormCodec.UnitRoot` | src/bqfc.c:89-116 | With g = 1 the integer square root is r itself and abs(b) its residue |
| `FormCodec.ReducedRoot` | src/bqfc.c:89-116 | With g > 1 it is r / g, and abs(b) is its residue plus b0 a / g |
| `FormCodec.RoundTripExactly` | src/bqfc.c:10-137 | Decompression restores (a, b) if and only if the form is not stuck |
| `FormCodec.StuckExactly` | src/bqfc.c:26-54 | For abs(b) < a a form is stuck if and only if a > 1 is the square of gcd(a, b) |
| `FormCodec.DecodesExactly` | src/bqfc.c:10-137 | For -a < b <= a decompression restores (a, b) if and only if a > 1 is not the square of gcd(a, b) |
| `FormCodec.CoprimeNotStuck` | src/bqfc.c:10-137 | A form with gcd(a, b) = 1 is not stuck |
| `FormCodec.CoprimeDecodes` | src/bqfc.c:10-137 | Every form with gcd(a, b) = 1 and -a < b <= a, b = a included, is restored |
| `FormCodec.StuckFamily` | src/bqfc.c:10-137 | Every (m^2, m) with m > 1 is stuck and not restored |
| `FormBytes.Export` | src/bqfc.c:139-158 | Writes a field exactly if it fits, zero padded, behind what is already written |
| `FormBytes.ExportAll` | src/bqfc.c:193-222 | Writes the four fields exactly if all fit |
| `FormBytes.FieldFitsExactly` | src/bqfc.c:139-158 | A field fits if and only if it has a byte and the number is below 256 to its size |
| `FormBytes.GSizeIs` | src/bqfc.c:205-208 | For g > 0 the size byte n satisfies 256^n <= g < 256^(n + 1) |
| `FormBytes.EncodedExactly` | src/bqfc.c:193-222 | With that n, or n = 0 for g = 0, and u units of 32 bits the form is written if and only if n < u, a < 256^(2u - n), abs(t) < 256^(u - n) and b0 < 256^(n + 1); byte 1 is n and byte 0 holds the two signs |
| `FormBytes.SerializeOnly` | src/bqfc.c:193-222 | Header and fields, exactly for discriminants of a supported size and under the condition of `FormBytes.EncodedExactly` |
| `FormBytes.Serialize` | src/bqfc.c:272-297 | The whole 100-byte buffer, also for the two flagged forms |
| `FormBytes.SerializedFits` | src/bqfc.c:272-297 | Every form with abs(b) <= a and 8a <= 256^(2u) is written |
| `FormBytes.ParseEncoded` | src/bqfc.c:224-260 | What was written is read back field by field |
| `FormBytes.VerifyCanon` | src/bqfc.c:299-308 | Answers whether the form encodes to the given bytes |
| `FormBytes.Deserialize` | src/bqfc.c:310-342 | Accepts exactly the strings that stand for a form, canonically |
| `FormBytes.AcceptedUnique` | src/bqfc.c:310-342 | A string stands for at most one form |
| `FormBytes.SerializedAccepted` | src/bqfc.c:272-342 | The encoding of a form with -a < b <= a that fits stands for that form, strictly or not, if and only if a > 1 is not the square of gcd(a, b) |
| `FormBytes.RoundTrip` | src/bqfc.c:272-342 | The encoding stands for that form and no other under exactly that condition; otherwise it does not stand for it |
| `FormBytes.WriteAndRead` | src/bqfc.c:272-342 | Writing and reading returns (a, b) under exactly that condition, always when gcd(a, b) = 1 |
| `TwoWeso.Encode` | src/callback.h:209-230 | Index and iteration of the switch survive packing into one word, -1 included |
| `TwoWeso.PositionInBounds` | src/callback.h:237-246 | Every index stays below the capacity |
| `TwoWeso.PositionInjective` | src/callback.h:237-246 | Distinct checkpoints have distinct slots across the change of stride |
| `TwoWeso.AtSwitch` | src/callback.h:152-160 | The switch moves no checkpoint stored before it |
| `TwoWeso.TwoWesolowskiCallback.constructor` | src/callback.h:140-150 | Iteration 0 is stored and the stride is 10 |
| `TwoWeso.TwoWesolowskiCallback.IncreaseConstants` | src/callback.h:152-160 | Every stored checkpoint is still in its slot after the switch |
| `TwoWeso.TwoWesolowskiCallback.GetFormCopy` | src/callback.h:172-179 | Reads the slot of the power, and throws exactly beyond the capacity |
| `TwoWeso.TwoWesolowskiCallback.OnIteration` | src/callback.h:186-206 | Stores each checkpoint in its slot and keeps all others, also when an iteration is reported again |
| `TwoWeso.Batch` | src/vdf.h:203-246 | One batch, redone or not, reports in bounds and leaves every checkpoint passed in its slot |
| `TwoWeso.RepeatedSquare` | src/vdf.h:160-314 | Over the whole run no listener call is out of bounds and every checkpoint passed is in its slot |
| `TwoWeso.SegmentShape` | src/vdf.h:383-406 | The three segments are consecutive, start at multiples of 100, and those past the switch are long enough for stride 100 |
| `TwoWeso.ReadIsCheckpoint` | src/provers.h:45-78 | Every power a prover asks for was a checkpoint |
| `TwoWeso.GetForm` | src/provers.h:75-78 | As soon as the loop has passed the segment, the form read is that of the power computed, before, across or after the switch |
| `TwoWeso.GetEnd` | src/vdf.h:355-401 | As soon as the loop has passed a segment, its end point is read exactly, the last one up to 99 iterations below |
| `SlidingWindow.IndexBelow` | src/callback.h:286-294 | The index inside a segment stays below the bucket size |
| `SlidingWindow.PositionInRange` | src/callback.h:286-294 | Every position lies in the range of its bucket |
| `SlidingWindow.NoClash` | src/callback.h:286-294 | Stored forms less than twenty segments apart never share a slot, and buckets never overlap |
| `SlidingWindow.BucketsBegin` | src/callback.h:255-270 | The start of each bucket is as the positions assume |
| `SlidingWindow.TotalForms` | src/callback.h:271-277 | The capacity is the end of the last bucket |
| `SlidingWindow.FastAlgorithmCallback.constructor` | src/callback.h:255-284 | The first form is in the first slot of every bucket |
| `SlidingWindow.FastAlgorithmCallback.GetPosition` | src/callback.h:286-294 | The position as specified |
| `SlidingWindow.FastAlgorithmCallback.Put` | src/callback.h:296-299 | Storing a form keeps every other form within reach |
| `SlidingWindow.FastAlgorithmCallback.OnIteration` | src/callback.h:304-327 | Storing an iteration keeps the window, which moves on with a new iteration and stays when one of the last batch is reported again |
| `SlidingWindow.Batch` | src/vdf.h:203-246 | One batch, redone from its start or not, leaves the window of the iteration reached |
| `SlidingWindow.RepeatedSquare` | src/vdf.h:160-314 | Over the whole run, whatever the outcomes of the batches, the window of the iteration reached is stored |
| `SlidingWindow.FastAlgorithmCallback.CalculateIntermediates` | src/fast_storage.h:66-85 | A chunk recomputed by a storage thread stores all its forms and keeps all forms within reach, in any order of chunks |
| `SlidingWindow.ChunkInOneSegment` | src/fast_storage.h:66-85 | A chunk lies in one segment of every bucket |
| `SlidingWindow.FastAlgorithmCallback.GetForm` | src/provers.h:131-133 | A prover on segment n reads the forms at start + i k l as long as the loop has not entered segment n + 20 |
| `SlidingWindow.SegmentForm` | src/provers.h:131-133 | Those forms are stored ones of that segment |
| `SlidingWindow.ProverStride` | src/provers.h:107-122 | k l of the prover is the distance at which its bucket stores |
| `SlidingWindow.GetSegmentBucket` | src/util.h:72-85 | The bucket of every segment length, and the range of lengths of every bucket |
| `Scheduler.RankOrders` | src/util.h:59-70 | Worse means longer, then later: a strict total order |
| `Scheduler.AppendFinished` | src/vdf.h:712-731 | Every full segment up to the stored iterations is queued exactly once, in order |
| `Scheduler.TakeFirst` | src/vdf.h:803 | Taking the first pending segment of a length removes just that one |
| `Scheduler.ProverManager.FindBest` | src/vdf.h:740-763 | A best one of all paused and pending segments and where it is |
| `Scheduler.ProverManager.FindWorst` | src/vdf.h:774-783 | A worst running segment |
| `Scheduler.ProverManager.Replace` | src/vdf.h:773-788 | The worst running segment gives way exactly if the candidate is better |
| `Scheduler.ProverManager.Spawn` | src/vdf.h:794-805 | The chosen prover runs, no segment is lost |
| `Scheduler.ProverManager.Schedule` | src/vdf.h:732-806 | The round ends; no segment is lost or doubled, at most the allowed number of provers run, all of them if anything waits, and nothing waiting is better than anything running |
| `Scheduler.CollectLength` | src/vdf.h:543-551 | Segments of one length, from where the previous ones end, until the next one is not finished or does not fit |
| `Scheduler.CollectSegments` | src/vdf.h:541-564 | The segments taken run from 0 without gaps, each is the longest finished one that fits there, and none can follow; if those of length 2^16 cover the last multiple of 2^16 they end exactly there, and the check after the loop passes exactly if there are at most 63 |
| `Scheduler.CollectedUnique` | src/vdf.h:541-564 | There is only one such list |
| `HwProofs.ChainSums` | src/hw/hw_proof.cpp:208-230 | Segment lengths along a chain sum to the iterations of its end |
| `HwProofs.AppendKeeps` | src/hw/hw_proof.cpp:208-230 | A new entry keeps links, counts and depth |
| `HwProofs.SweepKeeps` | src/hw/hw_proof.cpp:272-286 | Removing unreferenced entries keeps every chain that remains and every request not given up |
| `HwProofs.PrevSurvives` | src/hw/hw_proof.cpp:272-286 | An entry that survives keeps its predecessor |
| `HwProofs.CutKeeps` | src/hw/hw_proof.cpp:274-289 | Cutting off removed entries at the end keeps chains and counts |
| `HwProofs.RefsCoverRequests` | src/hw/hw_proof.cpp:242-291 | The count of an entry is at least the number of live requests whose chain passes it |
| `HwProofs.VdfState.constructor` | src/hw/hw_proof.cpp:775-800 | The empty queue is valid |
| `HwProofs.VdfState.QueueProof` | src/hw/hw_proof.cpp:208-230 | Appends one entry with its iterations and one reference |
| `HwProofs.VdfState.CountSegments` | src/hw/hw_proof.cpp:232-240 | The depth of the chain, at most 64 |
| `HwProofs.VdfState.IncRef` | src/hw/hw_proof.cpp:242-248 | The whole chain gains a reference, so its end has one to spare |
| `HwProofs.VdfState.DecWalk` | src/hw/hw_proof.cpp:256-270 | One request gives up its chain |
| `HwProofs.VdfState.Remove` | src/hw/hw_proof.cpp:272-290 | Exactly the unreferenced entries are overwritten and leave the queue, and the run of them at the end is cut off |
| `HwProofs.VdfState.DecRef` | src/hw/hw_proof.cpp:250-291 | The state stays valid, the given requests are gone and every other one is untouched |
| `HwProofs.VdfState.Requeue` | src/hw/hw_proof.cpp:316-328 | Queued requests that end no earlier give up their chains and are requested again, each as often as it was there; all others keep theirs |
| `HwProofs.VdfState.FindBase` | src/hw/hw_proof.cpp:330-346 | The last usable checkpoint of the queue, or there is none |
| `HwProofs.VdfState.QueueChain` | src/hw/hw_proof.cpp:348-370 | The request, ending exactly at its iterations, behind no checkpoint up to the threshold, one at 75% of the way if the last quarter is up to it, and otherwise two at 69% and 92%, each the last multiple of the interval up to its mark and linked to the one before |
| `HwProofs.VdfState.ProcessReq` | src/hw/hw_proof.cpp:299-376 | The smallest request becomes a chain of at most 64 segments that sums to it; every other request keeps its proof or is requested again, and the requests made and waiting together stay the same with their multiplicities |
| `HwProofs.GivenBack` | src/hw/hw_proof.cpp:316-328 | Requests given up and requested again are neither lost nor doubled |
| `HwProofs.FirstServed` | src/hw/hw_proof.cpp:299-376 | A waiting request that becomes a proof is neither lost nor doubled |
| `HwProofs.VdfState.RequestProof` | src/hw/hw_proof.cpp:383-387 | The requests stay sorted and gain the new one |
| `HwProofs.VdfState.StartFirst` | src/hw/hw_proof.cpp:415-437 | The first queued proof is started and leaves the queue |
| `HwProofs.VdfState.ChainDone` | src/hw/hw_proof.cpp:750-768 | Answers whether all proofs behind one are done, and how many there are |
| `Lucas.VFromU` | src/primetest.h:100-104 | V_n = 2 U_(n+1) - P U_n |
| `Lucas.Addition` | src/primetest.h:63-105 | U_(m+n+1) = U_(m+1) U_(n+1) - Q U_m U_n |
| `Lucas.Doubling` | src/primetest.h:74-96 | The two doublings of the ladder |
| `Lucas.LadderStep` | src/primetest.h:74-99 | A step takes (U_j, U_(j+1)) modulo m to 2j or 2j + 1 by the next bit |
| `Lucas.FindLucasV` | src/primetest.h:63-105 | The result is V_e(P, Q) modulo m, for every e >= 1 and m |
| `Lucas.FindPQ` | src/primetest.h:32-53 | The parameters of the first candidate with Jacobi symbol -1, and nothing exactly if all candidates are rejected |
| `Lucas.DecidesTwoQ` | src/primetest.h:119-123 | The rounding chosen by the sign of Q decides the congruence to 2Q when 2Q is in range |
| `Lucas.IsVprp` | src/primetest.h:107-129 | For n > 1000 true if and only if parameters are found and V_(n+1) = 2Q (mod n); for smaller n the range of 2Q counts too |
| `Lucas.Split` | src/primetest.h:13-16 | n - 1 = 2^s d with d odd |
| `Lucas.MillerRabin` | src/primetest.h:7-28 | Decides the strong probable prime condition to the base |

## Left out

- Cryptographic soundness of Wesolowski proofs, and the associativity of class-group composition: the proof layer assumes a commutative, associative operation. `Composition` proves that composition is well defined and commutative on classes.
- SHA-256 and the prime search behind `HashPrime` and `GetB`: the hash is any function whose values have 264 bits, top bit set.
- ProofChain.CheckProofOfTimeNWesolowski: says exactly what is accepted, but not which refusals return false and which throw.
- ProofChain.HonestBlobValid: assumes that forms are written to 100 bytes that read back as the form; `FormBytes.WriteAndRead` proves this for forms whose fields fit and whose a > 1 is not the square of gcd(a, b).
- RepeatedSquare.RepeatedSquare: the model stops, with the squarings done so far, if the fallback would square a form with gcd(a, b) not dividing c. That needs a >= p, and what the code then computes no longer has the discriminant (`VdfNew.SquareKeepsDisc`).
- RepeatedSquare.RepeatedSquareNudupl: whether and how long the reducer runs after a squaring is a parameter; the limb count that decides it is not modelled.
- Reducer.Context.Run: the kind of each round and the words of the fast ones are given, so that every approximation is covered; that the loop ends is stated for slow rounds, and of a fast round which steps it takes. The absence of overflow while the words are computed is not stated.
- GcdStream.GcdUnsigned: the assembly gcd is Euclid's algorithm in batches of arbitrary sizes with one entry published after each; the double-based tables that choose the batches are not modelled.
- TwoThread.ThreadsMatchSingle: covers runs without errors; error flags, spin limits and early exits are not modelled. Operations are symbolic here; `ThreadValues` gives them the arithmetic of `PhasedSquare`, and `PhaseFrames` bounds what the phases write. Waits that can never block are shown with what was already seen. The numbers of entries of the gcds are given for each iteration.
- PartialXgcd.XgcdPartialFacts: asks for R1 <= R2, as all callers have it; aliasing of the numbers in place is not modelled.
- FormCodec.Compr: the partial gcd works on abs(b) < a; the cases abs(b) = a and the two flagged forms are separate branches, as in the code.
- FormBytes.Export: field widths are integers, and a negative width means that the field does not fit; what a failed call leaves in the buffer is not described.
- Wesolowski.GenerateWesolowski: the parameters k and l are arbitrary, so the floating-point `ApproximateParameters` is not modelled; neither are 64-bit limits of block values, which are below 2^k.
- TwoWeso.RepeatedSquare: forms are identified with their iteration; the locks and atomics around the store are not modelled.
- SlidingWindow.FastAlgorithmCallback.OnIteration: the array of checkpoints at multiples of 2^16 and its bound are left out, as are the storage threads and `GetFinishedSegment`, which only order the chunks.
- Scheduler.CollectSegments: `Prove` takes finished segments without testing `is_empty`, so finished segments are assumed present; its waiting and retrying are left out.
- Scheduler.ProverManager.Schedule: provers that finish while a round is running are left out; pausing and resuming are instantaneous.
- HwProofs.VdfState.ProcessReq: indices are not limited to 16 bits, sorting is by insertion, and entries to remove are found by index; the loop around it and the work queue of the hardware are left out.
- Lucas.FindPQ: the Jacobi symbol is a parameter; trial division by small primes and the combination of the tests are left out.
- OneWesolowskiCallback and its prover, which are the 2-weso store without a switch.
- `from_abd`, `identity` and `generator`, which compute c from a and b.
- Sockets, sessions, command line, Python, Rust and C wrappers, hardware drivers, AVX code and the register allocator: plumbing around the modelled functions.
