# jenetics core, modelled in Dafny

A model of four pieces of the jenetics genetic-algorithm library (Java), with proofs of what they promise:

- **CharSeq** (`charseq.dfy`, module `CharSeqs`; `pattern.dfy`, module `CharPatterns`): the immutable set of valid characters of a character gene. Construction sorts the characters and removes duplicates in place (`distinct`). The model covers membership by binary search, `charAt`, `length`, `isEmpty`, `subSequence`, the iterator, `equals` and `compareTo`. It also covers the range expansion of patterns such as `a-zA-Z0-9` (`expand(pattern)`, `expand(a, b)`) and the factories `of(pattern)` and `of(a, b)`.
- **SinglePointCrossover** (`crossover.dfy`, module `Crossover`): two parent gene sequences exchange their tails from a random cut point, in place.
- **Variance** (`variance.dfy`, module `Stat`): a streaming accumulator of sample count, mean and sum of squared deviations (Welford's update), with `getVariance` and the parallel `merge`.
- **RouletteWheelSelector** (`selector.dfy`, module `Selector`; sums in `sums.dfy`, module `RealSums`): turns the fitness values of a population into selection probabilities. Fitness is shifted by the worst value, then normalised, or made uniform when the total is too close to zero.

How the pieces are modelled:

- A Java `char` is `Char16` (0 to 0xFFFF); strings and `char[]` contents are `seq<Char16>`.
- A `CharSeq` is a value (`datatype CharSeq`) whose invariant `Valid()` is "strictly ascending".
- The array algorithms keep their arrays: the `distinct` loop, the crossover swap, and the probability array of the selector.
- `Variance` is a class with the fields `samples`, `mean` and `m2`. A ghost `values` field records the accumulated samples.
- A `double` is `Double = NaN | Val(real)`, exact arithmetic with an explicit NaN. This is enough for the NaN starting values, for `0/0` in `merge`, and for the algebra of Welford's method.
- Exceptions are the `Err` cases of `Result` (`wrappers.dfy`). The failures are `IndexOutOfBounds`, `NoSuchElement`, `UnsupportedOperation` and `DanglingRangeOperator(index)`.

## Model

| member | source | states |
|---|---|---|
| CharSeqs.Canonical | org.jenetics/src/main/java/org/jenetics/util/CharSeq.java:34-38 | the stored form of a character collection is strictly ascending and has exactly the same characters |
| CharSeqs.AscendingUnique | org.jenetics/src/main/java/org/jenetics/util/CharSeq.java:37-38 | two strictly ascending sequences with the same characters are equal, so the stored form is unique |
| CharSeqs.CanonicalOf | org.jenetics/src/main/java/org/jenetics/util/CharSeq.java:37-38 | any strictly ascending sequence with the characters of `s` is the stored form of `s` |
| CharSeqs.CanonicalRespectsElements | org.jenetics/src/main/java/org/jenetics/util/CharSeq.java:40-44 | two collections have the same stored form if and only if they have the same characters |
| CharSeqs.CanonicalOfAscending | org.jenetics/src/main/java/org/jenetics/util/CharSeq.java:37-38 | an already strictly ascending sequence is its own stored form |
| CharSeqs.CanonicalEmpty | org.jenetics/src/main/java/org/jenetics/util/CharSeq.java:179-181 | the stored form is empty exactly when the input is empty |
| CharSeqs.SortedOf | org.jenetics/src/main/java/org/jenetics/util/CharSeq.java:99 | the sorted order of a sequence is sorted and a permutation of it |
| CharSeqs.Sort | org.jenetics/src/main/java/org/jenetics/util/CharSeq.java:99 | `Arrays.sort(result)`: the array ends up sorted, with the same multiset of characters |
| CharSeqs.Distinct | org.jenetics/src/main/java/org/jenetics/util/CharSeq.java:95-122 | `distinct(chars)`: the returned array is strictly ascending and has exactly the characters of the input |
| CharSeqs.MoveDistinctToFront | org.jenetics/src/main/java/org/jenetics/util/CharSeq.java:101-114 | the compaction loop over a sorted, non-empty array leaves `count` (1 to length) distinct characters at the front, strictly ascending, with every character of the input |
| CharSeqs.SkipRepeats | org.jenetics/src/main/java/org/jenetics/util/CharSeq.java:106-108 | the inner loop stops at the first position at or after `from` not holding `last`, or at the end, and skips only copies of `last` |
| CharSeqs.ToCharArray | org.jenetics/src/main/java/org/jenetics/util/CharSeq.java:84-93 | `toCharArray`: a fresh array holding the characters in order |
| CharSeqs.FromArray | org.jenetics/src/main/java/org/jenetics/util/CharSeq.java:69-71 | `new CharSeq(char[])`: a valid CharSeq holding the stored form of the array's characters |
| CharSeqs.FromString | org.jenetics/src/main/java/org/jenetics/util/CharSeq.java:80-82 | `new CharSeq(CharSequence)`: a valid CharSeq holding the stored form of the characters |
| CharSeqs.ConstructionKeepsCharacters | org.jenetics/src/main/java/org/jenetics/util/CharSeq.java:60-82 | construction loses no character and adds none, and gives an empty set exactly for empty input |
| CharSeqs.BinarySearch | org.jenetics/src/main/java/org/jenetics/util/CharSeq.java:155 | `Arrays.binarySearch` on a sorted sequence: a non-negative result is an index holding the key; a negative result `-(p+1)` gives the insertion point `p`, with smaller characters before it and larger ones after |
| CharSeqs.Contains | org.jenetics/src/main/java/org/jenetics/util/CharSeq.java:154-156 | `contains(c)` is true exactly when `c` is one of the characters |
| CharSeqs.CharAt | org.jenetics/src/main/java/org/jenetics/util/CharSeq.java:158-161 | `charAt(index)` succeeds exactly for `0 <= index < length()` and fails with an index error otherwise |
| CharSeqs.CharAtEnumerates | org.jenetics/src/main/java/org/jenetics/util/CharSeq.java:158-166 | a character is in the set if and only if some index returns it, and `charAt` increases strictly with the index |
| CharSeqs.Length | org.jenetics/src/main/java/org/jenetics/util/CharSeq.java:163-166 | `length()` of a valid CharSeq is the number of different characters it holds |
| CharSeqs.IsEmpty | org.jenetics/src/main/java/org/jenetics/util/CharSeq.java:179-181 | `isEmpty()` holds exactly when the length is 0, and exactly when no character is contained |
| CharSeqs.SubSequence | org.jenetics/src/main/java/org/jenetics/util/CharSeq.java:168-171 | `subSequence(start, end)` succeeds exactly when `0 <= start <= end <= length()`, and then holds the characters of that slice |
| CharSeqs.Equals | org.jenetics/src/main/java/org/jenetics/util/CharSeq.java:210-221 | `equals` on two valid CharSeqs holds if and only if they contain the same characters; the `==` and `instanceof` shortcuts are folded into comparing the character arrays |
| CharSeqs.ClassCommentExample | org.jenetics/src/main/java/org/jenetics/util/CharSeq.java:40-44 | `"abcdeaafg"` and `"gfedcbabb"` build equal CharSeqs |
| CharSeqs.CompareTo | org.jenetics/src/main/java/org/jenetics/util/CharSeq.java:223-236 | the loop returns the first character difference, or else the length difference |
| CharSeqs.CompareAfterCommonPrefix | org.jenetics/src/main/java/org/jenetics/util/CharSeq.java:227-230 | a common prefix does not change the comparison |
| CharSeqs.CompareZeroIffEqual | org.jenetics/src/main/java/org/jenetics/util/CharSeq.java:223-236 | `compareTo` is 0 if and only if the character sequences are equal |
| CharSeqs.CompareAntisymmetric | org.jenetics/src/main/java/org/jenetics/util/CharSeq.java:223-236 | swapping the operands negates the result |
| CharSeqs.CompareIsLexicographic | org.jenetics/src/main/java/org/jenetics/util/CharSeq.java:223-236 | `compareTo` is negative if and only if the first sequence is lexicographically smaller: a smaller character at the first difference, or a proper prefix |
| CharSeqs.CharIterator.constructor | org.jenetics/src/main/java/org/jenetics/util/CharSeq.java:184-186 | a new iterator stands before the first character and has returned nothing |
| CharSeqs.CharIterator.HasNext | org.jenetics/src/main/java/org/jenetics/util/CharSeq.java:187-189 | when `hasNext()` is false, every character has been returned |
| CharSeqs.CharIterator.Next | org.jenetics/src/main/java/org/jenetics/util/CharSeq.java:190-198 | `next()` returns the character at the position and moves past it; at the end it fails with `NoSuchElement(pos)` and changes nothing |
| CharSeqs.CharIterator.Remove | org.jenetics/src/main/java/org/jenetics/util/CharSeq.java:199-201 | `remove()` always fails |
| CharSeqs.ToISeq | org.jenetics/src/main/java/org/jenetics/util/CharSeq.java:351-358 | `toISeq` returns all characters in their original order |
| CharPatterns.ExpandRange | org.jenetics/src/main/java/org/jenetics/util/CharSeq.java:293-311 | `expand(a, b)` appends the characters from `a` to `b` upwards or downwards, and nothing for `a == b` |
| CharPatterns.RangeAt | org.jenetics/src/main/java/org/jenetics/util/CharSeq.java:297-309 | the i-th character of a range is `a + i` counting up and `a - i` counting down, and the length is the distance plus one |
| CharPatterns.RangeContents | org.jenetics/src/main/java/org/jenetics/util/CharSeq.java:286-311 | between distinct ends, a range has the distance plus one characters: exactly those between the ends, ascending when `a < b` |
| CharPatterns.RangeReversed | org.jenetics/src/main/java/org/jenetics/util/CharSeq.java:297-309 | `expand(b, a)` is `expand(a, b)` reversed |
| CharPatterns.RangeOfOneIsEmpty | org.jenetics/src/main/java/org/jenetics/util/CharSeq.java:297-309 | `expand(a, a)` is empty |
| CharPatterns.Expand | org.jenetics/src/main/java/org/jenetics/util/CharSeq.java:253-284 | the `expand(pattern)` loop produces the reference expansion `ExpandFrom(pattern, 0)`, including its dangling-operator error |
| CharPatterns.ExpandEscapedAt | org.jenetics/src/main/java/org/jenetics/util/CharSeq.java:258-262 | a backslash makes the next character stand for itself, and the walk goes on after it |
| CharPatterns.ExpandRangeAt | org.jenetics/src/main/java/org/jenetics/util/CharSeq.java:263-277 | `x-y` stands for the range from `x` to `y`, and the walk goes on after `y` |
| CharPatterns.ExpandPlainAt | org.jenetics/src/main/java/org/jenetics/util/CharSeq.java:278-280 | a character not followed by `-` stands for itself |
| CharPatterns.LeadingDashThrows | org.jenetics/src/main/java/org/jenetics/util/CharSeq.java:263-269 | a pattern starting with `-` fails with `DanglingRangeOperator(length - 1)` |
| CharPatterns.TrailingDashThrows | org.jenetics/src/main/java/org/jenetics/util/CharSeq.java:263-269 | plain characters followed by a final `-` fail with `DanglingRangeOperator(length - 1)` |
| CharPatterns.TrailingDashAfterItems | org.jenetics/src/main/java/org/jenetics/util/CharSeq.java:263-269 | a final `-` after any well-formed pattern (literals, escapes, ranges such as `a-z-` or `\x-`) fails with `DanglingRangeOperator(length - 1)` |
| CharPatterns.TrailingDashNotDangling | org.jenetics/src/main/java/org/jenetics/util/CharSeq.java:258-277 | a final `-` does not throw when it is escaped (`\-` gives `-`) or closes a range (`a--` gives the range from `a` down to `-`) |
| CharPatterns.ExpandItems | org.jenetics/src/main/java/org/jenetics/util/CharSeq.java:256-282 | items spelled in a pattern expand to their meaning, in front of whatever follows them |
| CharPatterns.ExpandRendered | org.jenetics/src/main/java/org/jenetics/util/CharSeq.java:253-284 | round trip: writing well-formed items as a pattern (literals, escapes, ranges) and expanding it gives their meaning, without error |
| CharPatterns.TrailingBackslashIgnored | org.jenetics/src/main/java/org/jenetics/util/CharSeq.java:258-262 | a backslash at the end of a pattern adds nothing |
| CharPatterns.DocumentedPatternMissesDigits | org.jenetics/src/main/java/org/jenetics/util/CharSeq.java:243-246 | the documented pattern `a-zA-Z0-1` gives the letters and only the digits `0` and `1` |
| CharPatterns.LettersAndDigitsPattern | org.jenetics/src/main/java/org/jenetics/util/CharSeq.java:243-246 | `a-zA-Z0-9` gives exactly the letters and the ten digits |
| CharPatterns.OfPattern | org.jenetics/src/main/java/org/jenetics/util/CharSeq.java:325-327 | `of(pattern)` fails exactly when the expansion fails, with the same error; otherwise it holds the stored form of the expansion |
| CharPatterns.OfRange | org.jenetics/src/main/java/org/jenetics/util/CharSeq.java:338-340 | `of(a, b)` holds the stored form of `expand(a, b)` |
| CharPatterns.OfRangeContents | org.jenetics/src/main/java/org/jenetics/util/CharSeq.java:328-340 | `of(a, b)` and `of(b, a)` hold the same characters; for `a <= b` they are exactly the range itself |
| Crossover.CrossAt | org.jenetics/src/main/java/org/jenetics/SinglePointCrossover.java:99 | after crossover at `index`, positions before it keep their parent's gene and positions from it on hold the other parent's gene; lengths are kept |
| Crossover.CrossPreservesGenes | org.jenetics/src/main/java/org/jenetics/SinglePointCrossover.java:42-43 | the two children together hold exactly the parents' genes, as a multiset |
| Crossover.CrossInvolution | org.jenetics/src/main/java/org/jenetics/SinglePointCrossover.java:99 | crossing the children again at the same point gives back the parents |
| Crossover.CrossAtEnds | org.jenetics/src/main/java/org/jenetics/SinglePointCrossover.java:94-99 | a cut at 0 swaps the parents; a cut at the length changes nothing |
| Crossover.SwapRange | org.jenetics/src/main/java/org/jenetics/SinglePointCrossover.java:99 | `that.swap(start, end, other, start)` exchanges exactly the elements of `[start, end)` between the two arrays |
| Crossover.CrossoverAt | org.jenetics/src/main/java/org/jenetics/SinglePointCrossover.java:89-100 | the static `crossover(that, other, index)` leaves the arrays holding the crossed pair; the multiset of genes is unchanged |
| Crossover.CrossoverPair | org.jenetics/src/main/java/org/jenetics/SinglePointCrossover.java:79-86 | `crossover(that, other)` cuts at the drawn point in `[0, length)`, reports 2 children, and leaves the crossed pair |
| Crossover.CrossExample | org.jenetics/src/main/java/org/jenetics/SinglePointCrossover.java:32-37 | `[1,2,3,4,5]` and `[6,7,8,9,10]` cut at 2 give `[1,2,8,9,10]` and `[6,7,3,4,5]` |
| Selector.Min | org.jenetics/src/main/java/org/jenetics/RouletteWheelSelector.java:72 | `min(fitness)` is one of the values and no larger than any |
| Selector.Worst | org.jenetics/src/main/java/org/jenetics/RouletteWheelSelector.java:72 | `worst` is at most 0 and at most every fitness, and is 0 or one of the fitness values |
| Selector.TotalIsShiftedSum | org.jenetics/src/main/java/org/jenetics/RouletteWheelSelector.java:73 | `sum` equals the sum of the shifted values `fitness[i] - worst`, so it is not negative |
| Selector.FarFromZero | org.jenetics/src/main/java/org/jenetics/RouletteWheelSelector.java:75 | a sum more than `MAX_ULP_DISTANCE` ulps away from 0 is not 0, given that 0 is 0 ulps from itself |
| Selector.ProbabilitiesInUnitRange | org.jenetics/src/main/java/org/jenetics/RouletteWheelSelector.java:75-81 | there is one probability per individual, each between 0 and 1 |
| Selector.ProbabilitiesSumToOne | org.jenetics/src/main/java/org/jenetics/RouletteWheelSelector.java:83 | the probabilities sum to one, in both the normalising and the uniform branch |
| Selector.EqualFitnessIsUniform | org.jenetics/src/main/java/org/jenetics/RouletteWheelSelector.java:58-85 | equal fitness values give every individual probability `1/n` |
| Selector.SingleIndividual | org.jenetics/src/main/java/org/jenetics/RouletteWheelSelector.java:58-85 | a population of one gets probability 1 |
| Selector.CopyOf | org.jenetics/src/main/java/org/jenetics/RouletteWheelSelector.java:66-70 | the copy loop fills a fresh array with the fitness values |
| Selector.Normalize | org.jenetics/src/main/java/org/jenetics/RouletteWheelSelector.java:75-78 | every entry becomes `(fitness - worst) / sum` |
| Selector.Fill | org.jenetics/src/main/java/org/jenetics/RouletteWheelSelector.java:79-81 | every entry becomes the given value |
| Selector.ComputeProbabilities | org.jenetics/src/main/java/org/jenetics/RouletteWheelSelector.java:58-85 | `probabilities(population, count)` returns a fresh array equal to the reference probabilities, summing to one |
| RealSums.SumConcat | org.jenetics/src/main/java/org/jenetics/RouletteWheelSelector.java:73 | the sum of a concatenation is the sum of the sums |
| RealSums.SumNonNegative | org.jenetics/src/main/java/org/jenetics/RouletteWheelSelector.java:73 | a sum of non-negative terms is non-negative and bounds each term |
| Stat.Variance.constructor | org.jenetics/src/main/java/org/jenetics/stat/Variance.java:52-55 | a new accumulator has no samples, mean and m2 NaN, and no values |
| Stat.Variance.Accumulate | org.jenetics/src/main/java/org/jenetics/stat/Variance.java:84-95 | `accumulate(value)` applies Welford's step to the fields and appends the value; the state still tracks the values |
| Stat.Variance.GetVariance | org.jenetics/src/main/java/org/jenetics/stat/Variance.java:64-74 | NaN without samples; 0 for one sample; otherwise the sample variance `sum (x - mean)^2 / (n - 1)` of the accumulated values |
| Stat.Variance.Merge | org.jenetics/src/main/java/org/jenetics/stat/Variance.java:107-116 | `merge(other)` returns a fresh accumulator with the combined state, standing for both value sequences in order |
| Stat.AccumulateDescribes | org.jenetics/src/main/java/org/jenetics/stat/Variance.java:84-95 | accumulating `x` into the exact state for `xs` gives the exact state for `xs + [x]`: count, mean and sum of squared deviations |
| Stat.AccumulateAllDescribes | org.jenetics/src/main/java/org/jenetics/stat/Variance.java:84-95 | accumulating any sequence from a fresh accumulator gives its exact count, mean and sum of squared deviations |
| Stat.StepTracks | org.jenetics/src/main/java/org/jenetics/stat/Variance.java:84-95 | accumulating keeps a reachable state reachable; a NaN-poisoned state stays poisoned |
| Stat.MergeDescribes | org.jenetics/src/main/java/org/jenetics/stat/Variance.java:107-116 | merging the exact states of two non-empty samples gives the exact state of their concatenation |
| Stat.CombineTracks | org.jenetics/src/main/java/org/jenetics/stat/Variance.java:107-116 | merging reachable states gives a reachable state; it is exact when both sides or neither are empty, and poisoned when exactly one is |
| Stat.CombineWeightedMean | org.jenetics/src/main/java/org/jenetics/stat/Variance.java:110-112 | the merged mean is the count-weighted average of the two means |
| Stat.CombineWithEmpty | org.jenetics/src/main/java/org/jenetics/stat/Variance.java:110-113 | merging with a fresh accumulator is not the identity: mean and m2 become NaN |
| Stat.CombineCheckedDescribes | org.jenetics/src/main/java/org/jenetics/stat/Variance.java:97-106 | a merge that passes an empty side through is exact for every pair of exact states |
| Stat.DescribesStatistics | org.jenetics/src/main/java/org/jenetics/stat/Variance.java:29-34 | a state is exact for a non-empty sample if and only if it holds its count, mean and sum of squared deviations |
| Stat.VarianceDescribes | org.jenetics/src/main/java/org/jenetics/stat/Variance.java:57-74 | the variance of an exact state is NaN for no samples, 0 for one, and the sample variance otherwise |
| Stat.VarianceTracks | org.jenetics/src/main/java/org/jenetics/stat/Variance.java:64-74 | the same for reachable states; a poisoned state has NaN variance |
| Stat.SampleVarianceNonNegative | org.jenetics/src/main/java/org/jenetics/stat/Variance.java:29-34 | the sample variance is never negative |
| Stat.AccumulateExample | org.jenetics/src/main/java/org/jenetics/stat/Variance.java:84-95 | accumulating 1, 3, 5 gives mean 3 and variance 4 |

## Left out

- Floating point: `double` is an exact real with an explicit NaN, so rounding, overflow to infinity and `-0.0` are not modelled.
- `Stat.Variance.Accumulate`: the accumulated values are finite reals. `accumulate(NaN)` or an infinite value, which would make the mean and m2 NaN, is not modelled. Fitness values in `Selector` are finite reals too.
- `Stat.Variance.Merge`: `_samples*other._samples` is a `long` product that can overflow; the model multiplies exactly.
- `Stat.Variance`: the superclass `Mean` is not part of this model. Its `_samples` and `_mean` are fields of the class here, and `_mean` starts as NaN.
- `Stat.Variance.Merge` follows the code as written. Merging with an empty accumulator gives NaN (see Findings), and `Stat.CombineTracks` keeps track of such poisoned states.
- Concurrency is left out: the accumulator is documented as unsynchronised.
- `accumulate(N value)`: it only converts to `double` and delegates, and is not modelled separately.
- `Selector.ComputeProbabilities`: `ulpDistance(sum, 0.0)` is a parameter, a function from the sum to an integer that maps 0 to 0. `DoubleAdder.sum` is the exact sum `RealSums.Sum`.
- `Selector.ComputeProbabilities`: the population is reduced to its fitness values as reals, and it must not be empty. `min` of an empty array is not part of this model.
- `Selector.ComputeProbabilities`: `count` is only checked, as in the code (`count > 0`).
- The random choice of the cut point (`RandomRegistry.getRandom().nextInt(length)`) is the parameter `draw` of `Crossover.CrossoverPair`.
- Genes are left out: a gene sequence (`MSeq`) is an array of any element type.
- The alterer's probability, its constructors and the `MultiPointCrossover` superclass are not part of this model.
- `CharSeqs.Sort`: `Arrays.sort` is a library algorithm. The model writes the result of a functional insertion sort into the array, so only its result (sorted, a permutation) is modelled, not its steps.
- `CharSeqs.Distinct`: the body of `distinct` is split into helper methods. They are `MoveDistinctToFront` for the `for` loop and `SkipRepeats` for the inner `while`, with the copy of the first `count` characters into a new array.
- `CharSeqs.BinarySearch` re-implements `Arrays.binarySearch` with its documented result convention.
- `CharSeqs.Contains`: the overloads `contains(Object)` and `contains(Character)` only test the type and unbox. They are not modelled.
- `hashCode`, `toString`, `clone` and serialization are left out in all four classes.
- `CharPatterns.ExpandRange`: `expand(a, b)` never terminates when counting up to `'\uffff'` or down to `'\u0000'`, because the `char` wraps around. The model requires `RangeTerminates(a, b)`, which excludes exactly those inputs. `CharPatterns.Expand` and `CharPatterns.OfPattern` require the same of every range a pattern reaches (`ExpandHalts`).
- `CharPatterns.Expand`: a `PatternSyntaxException` carries a message, the pattern and an index. The model keeps only the index, which the code always sets to `length - 1`.
- `CharPatterns.TrailingDashThrows` covers only plain characters before the final `-`. `CharPatterns.TrailingDashAfterItems` covers any well-formed pattern. A final `-` does not always throw: an escaped `\-` gives `-`, and `a--` gives the range from `a` down to `-` (`CharPatterns.TrailingDashNotDangling`).
- `CharSeqs.CharIterator.HasNext` states only that a false result means everything was returned. The other direction follows from `Valid()`.

## Findings

| source | as written | input that shows it | evidently intended | confidence | as-written member | corrected member |
|---|---|---|---|---|---|---|
| org.jenetics/src/main/java/org/jenetics/util/CharSeq.java:243-246 | the documented example pattern is `a-zA-Z0-1`, said to give all digits from 0 to 9 | `a-zA-Z0-1` expands to the letters and only `0` and `1` | `a-zA-Z0-9` | not executed; high, since only the documentation disagrees with the code | CharPatterns.DocumentedPatternMissesDigits | CharPatterns.LettersAndDigitsPattern |
| org.jenetics/src/main/java/org/jenetics/stat/Variance.java:110-113 | `merge` uses `other._mean - _mean` even when one side has no samples and its mean is NaN | a Variance that accumulated `1.0`, merged with a new Variance: 1 sample, mean NaN, variance NaN | merging with an empty accumulator keeps the other side's statistics | not executed; medium, since it depends on `Mean` starting `_mean` as NaN | Stat.CombineWithEmpty | Stat.CombineCheckedDescribes |
