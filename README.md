# Advent of Code solvers (svvu/AOC), modelled in Dafny

This project models sixteen Python puzzle solvers from the svvu/AOC repository (Advent of Code 2017 and 2018). It proves
what each solver computes. Each solver file becomes one Dafny module, with the same name in CamelCase. Three shared
modules carry what the solvers have in common:

- `Wrappers` has `Option`, `Result` and the kinds of Python exception a solver can raise. A solver that raises becomes a
  function or method returning `Err(kind)`.
- `Text` has Python's string and sequence behaviour: negative indexing and clamped slicing, `find`, `split`, `join`,
  `str(int)`, `int(str)`, `strip` and ASCII `upper`.
- `Circular` has positions on a circle of `n` cells: Python's `%` by a positive modulus and the forward distance
  between two cells, as the captcha, checksum, knot-hash and memory-bank solvers use them.

The code's own form is kept:

- Loops that update variables are `method`s with loop invariants, proved against a specification function.
- Objects whose fields the solver updates are `class`es:
  - the carts and track of 2018 day 13;
  - the fuel cells and grid of 2018 day 11;
  - the disc map of 2017 day 7;
  - the register machine of 2017 day 8.
- Pure helpers are functions.

Python's integers are unbounded, like Dafny's. Python's `//` and `%` round toward negative infinity. For the positive
divisors the solvers use, that is also what Dafny's `/` and `%` do. A `while True` loop with no bound known in advance
takes a `fuel` parameter. Running out of fuel gives `Err(OutOfFuel)`.

## Model

| member | source | states |
|---|---|---|
| InverseCaptcha.NextIndex | 2017/1_inverse_captcha.py:33-42 | for a length above 0 and a non-negative `current + step`, the next index is `(current + step) mod length` and lies in [0, length); a length of 0 raises ZeroDivisionError; a negative `current + step` is handed back unchanged |
| InverseCaptcha.CharInt | 2017/1_inverse_captcha.py:29 | `int(char)` is the digit's value exactly when the character is a digit, and ValueError otherwise |
| InverseCaptcha.SingleCharInt | 2017/1_inverse_captcha.py:29 | that single-character `int` agrees with the general `int(str)` parser of `Text` |
| InverseCaptcha.CalMatchDigitSum | 2017/1_inverse_captcha.py:19-31 | the loop computes the specification sum `CaptchaSum`; a list of at most one digit gives 0 |
| InverseCaptcha.ErrorSticks | 2017/1_inverse_captcha.py:25-29 | once a lookup or an `int` raises, that exception is the outcome of the whole sum |
| InverseCaptcha.TermIsCircular | 2017/1_inverse_captcha.py:26-29 | for a step no further back than the length, position `i` adds its digit exactly when it equals the digit at `(i + step) mod len` |
| InverseCaptcha.MatchSumIsMatched | 2017/1_inverse_captcha.py:25-29 | the sum over the first `k` positions is the circular match sum over them |
| InverseCaptcha.CaptchaSumIsMatched | 2017/1_inverse_captcha.py:5-31 | on a string of at least two digits and any step from `-len` up, the result is the sum of the digits that equal the digit `step` places ahead, wrapping round |
| InverseCaptcha.StepTooFarBack | 2017/1_inverse_captcha.py:26 | a step further back than `-len` makes the first lookup raise IndexError |
| InverseCaptcha.MatchSumBounds | 2017/1_inverse_captcha.py:23-29 | a partial sum over `k` positions lies in [0, 9k] |
| InverseCaptcha.CaptchaSumBounds | 2017/1_inverse_captcha.py:19-31 | any result lies between 0 and nine times the length |
| InverseCaptcha.Example1122 | 2017/1_inverse_captcha.py:14-15 | "1122" with step 1 gives 3 |
| InverseCaptcha.Example91212129 | 2017/1_inverse_captcha.py:16 | "91212129" with step 1 gives 9 |
| InverseCaptcha.Example1212 | 2017/1_inverse_captcha.py:50-52 | "1212" with a step of half its length gives 6 |
| Passphrases.InsertOrdered | 2017/4_he_passphrases.py:26 | inserting a letter into an ordered word keeps it ordered (the insertion sort behind `sorted(word)`) |
| Passphrases.InsertPermutes | 2017/4_he_passphrases.py:26 | insertion adds exactly that letter to the multiset of letters |
| Passphrases.SortedLettersPermutes | 2017/4_he_passphrases.py:26 | `''.join(sorted(word))` is ordered and has the same letters as `word` |
| Passphrases.OrderedUnique | 2017/4_he_passphrases.py:26 | two ordered words with the same letters are equal, so the sorted form is unique |
| Passphrases.SortedLettersAnagram | 2017/4_he_passphrases.py:26-27 | two words have the same sorted form exactly when they are anagrams |
| Passphrases.SortedWords | 2017/4_he_passphrases.py:25-26 | the sorted form of each word of the passphrase, in order |
| Passphrases.PassphraseNoDuplicate | 2017/4_he_passphrases.py:13-20 | true exactly when the words from `split(' ')` are pairwise distinct |
| Passphrases.PassphraseNoAnagrams | 2017/4_he_passphrases.py:22-30 | true exactly when the sorted-letter forms of the words are pairwise distinct |
| Passphrases.NoAnagramsMeaning | 2017/4_he_passphrases.py:22-30 | that is, exactly when no two words are anagrams of each other |
| Passphrases.NoAnagramsNoDuplicate | 2017/4_he_passphrases.py:13-30 | a passphrase without anagrams has no duplicate words |
| Passphrases.CountPassphrases | 2017/4_he_passphrases.py:5-11 | the loop counts the lines the validator accepts |
| Passphrases.CountBounds | 2017/4_he_passphrases.py:5-11 | the count is at most the number of lines, all of them when every line is valid, none when none is |
| Passphrases.CountMonotone | 2017/4_he_passphrases.py:5-11 | a stricter validator never counts more lines |
| Passphrases.AnagramCountAtMostDuplicateCount | 2017/4_he_passphrases.py:5-30 | the count under `passphrase_no_anagrams` is at most the count under `passphrase_no_duplicate` |
| CorruptionChecksum.Then | 2017/2_corruption_checksum.py:11 | adding a step that may raise: the first exception wins, otherwise the sum |
| CorruptionChecksum.TotalSticks | 2017/2_corruption_checksum.py:8-11 | once a row raises, that exception is the outcome of the whole checksum |
| CorruptionChecksum.Min | 2017/2_corruption_checksum.py:9 | `min(row)` is an element of the row no larger than any other |
| CorruptionChecksum.Max | 2017/2_corruption_checksum.py:10 | `max(row)` is an element of the row no smaller than any other |
| CorruptionChecksum.ChecksumByMinMax | 2017/2_corruption_checksum.py:5-12 | the loop computes the sum over the rows of `max - min`, or the error of the first empty row |
| CorruptionChecksum.SpreadZero | 2017/2_corruption_checksum.py:9-11 | a row's spread is non-negative, and 0 exactly when all its values are equal |
| CorruptionChecksum.SpreadSumOutcome | 2017/2_corruption_checksum.py:5-12 | the checksum raises ValueError exactly when some row is empty, and is otherwise non-negative |
| CorruptionChecksum.ThenAssoc | 2017/2_corruption_checksum.py:35-37 | adding quotients step by step does not depend on the grouping |
| CorruptionChecksum.ChecksumByDivisible | 2017/2_corruption_checksum.py:14-40 | the nested loops compute the sum over the rows of the quotient of every pair of values where one divides the other, or the error of the first zero divisor |
| CorruptionChecksum.RaisedInRow | 2017/2_corruption_checksum.py:30-38 | a zero divisor met at any pair makes the whole checksum raise that error |
| CorruptionChecksum.PairsRaise | 2017/2_corruption_checksum.py:33-37 | an error in the inner loop is the outcome of the inner loop |
| CorruptionChecksum.RowRaise | 2017/2_corruption_checksum.py:32-38 | an error for one value is the outcome of its row |
| CorruptionChecksum.SheetRaise | 2017/2_corruption_checksum.py:30-38 | an error in one row is the outcome of the spreadsheet |
| CorruptionChecksum.TotalAfter | 2017/2_corruption_checksum.py:30-38 | a step that raises right after successful steps ends the sum with its error |
| CorruptionChecksum.PairTermPositive | 2017/2_corruption_checksum.py:34-37 | for positive values a pair never raises; it adds the larger divided by the smaller when that is exact, else 0, in either order; equal values add 1 |
| CorruptionChecksum.DivisorQuotientPositive | 2017/2_corruption_checksum.py:35 | an exact quotient of the larger by the smaller is at least 1 |
| CorruptionChecksum.TotalSingle | 2017/2_corruption_checksum.py:30-38 | steps that add nothing except one give that one's value |
| CorruptionChecksum.PairsOnlyPair | 2017/2_corruption_checksum.py:33-37 | in a row with a single dividing pair, the inner loop adds its quotient at the pair's later value and 0 elsewhere |
| CorruptionChecksum.RowOnlyPair | 2017/2_corruption_checksum.py:32-38 | such a row adds exactly the quotient of its pair |
| CorruptionChecksum.OnlyPairQuotient | 2017/2_corruption_checksum.py:15 | that is the puzzle's reading: the one pair that divides contributes the result of the division, at least 1 |
| CorruptionChecksum.TotalOk | 2017/2_corruption_checksum.py:30-38 | steps that never raise add up without raising |
| CorruptionChecksum.PositiveNeverRaises | 2017/2_corruption_checksum.py:14-40 | a spreadsheet of positive values never raises in the divisible checksum |
| HexEd.Value | 2017/11.py:6-13 | each `Direction` has its enum value, below 6 |
| HexEd.FromValue | 2017/11.py:30-42 | `Direction(v)` for `v < 6` is the direction whose value is `v` |
| HexEd.ValueFromValue | 2017/11.py:6-13 | `Direction(d.value)` is `d` |
| HexEd.FromNameMeaning | 2017/11.py:28 | `Direction[direction.upper()]` succeeds exactly when the upper-cased text names a direction, gives that direction, and otherwise raises KeyError |
| HexEd.FromNameRoundTrip | 2017/11.py:28 | each direction's name, upper- or lower-case, reads back as that direction |
| HexEd.Turn | 2017/11.py:30-42 | turning by `k` sixths stays among the six values |
| HexEd.TurnIsModulo | 2017/11.py:30-42 | the turn is `(value + k) % 6` |
| HexEd.SumOfSix | 2017/11.py:47-49 | the final loop adds the six counts |
| HexEd.WalkSticks | 2017/11.py:27-28 | once a name fails to parse, that KeyError is the outcome |
| HexEd.WalkStep | 2017/11.py:27-45 | each parsed direction updates the counts by one move |
| HexEd.Tally | 2017/11.py:30-45 | one pass of the loop body decrements the opposite count if positive, else merges with a complement into the adjacent direction, else increments the direction's own count |
| HexEd.CalSteps | 2017/11.py:16-51 | the method computes `Steps`: the sum of the counts after every move, or KeyError |
| HexEd.OppositeCancels | 2017/11.py:30-35 | a step and the opposite step cancel on the hex grid |
| HexEd.ComplementsMerge | 2017/11.py:31-43 | a step and a complement two sixths away make one step in the direction between them |
| HexEd.MovePosition | 2017/11.py:34-45 | the counts after a move describe the old position plus that step |
| HexEd.MoveNonNegative | 2017/11.py:34-45 | counts never go negative |
| HexEd.MoveTotal | 2017/11.py:34-45 | the total count falls by 1 on a cancel, stays on a merge, and grows by 1 otherwise |
| HexEd.WithinAhead | 2017/11.py:34-45 | counts confined to two adjacent directions stay so after a move in either of them |
| HexEd.WithinTwoAhead | 2017/11.py:36-39 | the same after a move two sixths ahead |
| HexEd.WithinOpposite | 2017/11.py:34-35 | the same after a move in the opposite direction |
| HexEd.WithinTwoBehind | 2017/11.py:40-43 | the same after a move two sixths behind |
| HexEd.WithinBehind | 2017/11.py:34-45 | the same after a move one sixth behind |
| HexEd.MoveNarrow | 2017/11.py:34-45 | after any move the counts use at most two adjacent directions |
| HexEd.NarrowTotal | 2017/11.py:47-51 | counts over two adjacent directions total exactly the hex distance of their position |
| HexEd.DistanceStep | 2017/11.py:17 | one step changes the hex distance by at most 1 |
| HexEd.PathAtLeastDistance | 2017/11.py:17 | no path is shorter than the hex distance of its end |
| HexEd.WalkInvariant | 2017/11.py:27-45 | along a parsable input, the counts stay non-negative, use two adjacent directions and describe the position reached |
| HexEd.StepsIsDistance | 2017/11.py:16-51 | `cal_steps` is the hex distance of the end point, and no path to that point is shorter, so the result is the smallest number of steps |
| HexEd.StepsBounds | 2017/11.py:16-51 | the result lies between 0 and the number of directions, 0 for none |
| HexEd.WalkFails | 2017/11.py:27-28 | a prefix fails exactly when one of its names does not parse, with KeyError |
| HexEd.StepsFails | 2017/11.py:27-28 | `cal_steps` raises KeyError exactly when some name does not parse |
| HexEd.PathEndSnoc | 2017/11.py:27-45 | the end of a path extended by one step is the old end plus that step |
| HexEd.ExampleStraight | 2017/11.py:16-51 | "ne,ne,ne" is 3 steps away |
| HexEd.ExampleBend | 2017/11.py:16-51 | "ne,ne,s,s" is 2 steps away |
| Trampolines.RulesStep | 2017/5_maze_of_trampolines.py:16-25 | rule 1 always adds 1; rule 2 takes 1 off an offset of 3 or more and adds 1 to any other |
| Trampolines.Rule2Band | 2017/5_maze_of_trampolines.py:20-25 | rule 2 keeps an offset of at least 2 at least 2, and one of at most 3 at most 3 |
| Trampolines.Cell | 2017/5_maze_of_trampolines.py:11 | `instructions[pos]` names a cell exactly for `-len <= pos < len`, counting a negative position from the end |
| Trampolines.Jump | 2017/5_maze_of_trampolines.py:10-13 | one jump rewrites just the cell read, by the rule, and moves by the offset read before the rewrite; an index out of range raises IndexError |
| Trampolines.Exit | 2017/5_maze_of_trampolines.py:5-14 | the number of jumps made is at most the fuel, is at least 1 when the start is inside the list, and the final list has the same length; the only errors are IndexError and running out of fuel |
| Trampolines.ExitEmpty | 2017/5_maze_of_trampolines.py:9 | an empty list is left after 0 jumps |
| Trampolines.ExitFuel | 2017/5_maze_of_trampolines.py:9-13 | fuel decides only whether the exit is reached: with more fuel an exit found is the same exit, after the same jumps |
| Trampolines.ExitStep | 2017/5_maze_of_trampolines.py:9-13 | unrolling one jump adds one to the count of jumps |
| Trampolines.FindExit | 2017/5_maze_of_trampolines.py:5-14 | the loop over the array returns the number of jumps `Exit` counts, and leaves the array as the final list; it fails exactly when `Exit` fails, with the same error |
| Trampolines.JumpAt | 2017/5_maze_of_trampolines.py:10-13 | a state that differs from the current one just as a jump prescribes is the state after that jump |
| Trampolines.ExitBack | 2017/5_maze_of_trampolines.py:9-13 | a state one jump before a state left after `n - 1` jumps is left after `n` jumps, with the same final list |
| Trampolines.ExampleRule1 | 2017/5_maze_of_trampolines.py:16-35 | the puzzle's list `0 3 0 1 -3` is left after 5 jumps under rule 1, as `2 5 0 1 -2` |
| Trampolines.ExampleRule2End | 2017/5_maze_of_trampolines.py:20-37 | from `2 3 0 1 -2` at position 3, rule 2 leaves the list after 5 jumps, as `2 3 2 3 -1` |
| Trampolines.ExampleRule2 | 2017/5_maze_of_trampolines.py:20-37 | the puzzle's list is left after 10 jumps under rule 2, as `2 3 2 3 -1` |
| KnotHash.HalfCount | 2017/10_knot_hash.py:24 | `int(length / 2)` truncates toward zero: half the length for a non-negative length, and no swaps at all below 2 |
| KnotHash.SwapAt | 2017/10_knot_hash.py:27 | the tuple assignment exchanges the two cells and leaves every other cell alone |
| KnotHash.SwapAtPermutes | 2017/10_knot_hash.py:27 | an exchange keeps the multiset of marks |
| KnotHash.SwapsPermute | 2017/10_knot_hash.py:24-27 | any number of the loop's swaps keeps the multiset of marks |
| KnotHash.SwapLoop | 2017/10_knot_hash.py:24-27 | the loop of `reverse` on a non-empty list makes exactly the swaps `Swaps` describes, in order |
| KnotHash.Reverse | 2017/10_knot_hash.py:21-29 | `reverse` fails (ZeroDivisionError) exactly on an empty list with a swap to make, and then changes nothing; it always keeps the marks; for a length within the list it reverses the circular window of `length` cells from `index` and leaves the rest alone |
| KnotHash.SwapsReverse | 2017/10_knot_hash.py:24-27 | for `0 <= length <= len`, the `length // 2` swaps reverse the circular window exactly |
| KnotHash.WindowAt | 2017/10_knot_hash.py:21-29 | cell `p` of the reversed window holds the mirror cell when `p` is within the window, and its own mark otherwise |
| KnotHash.ReverseTwice | 2017/10_knot_hash.py:21-29 | reversing the same window twice gives back the list |
| KnotHash.Marks | 2017/10_knot_hash.py:8 | `list(range(256))` holds `i` at position `i` |
| KnotHash.Tie | 2017/10_knot_hash.py:14-16 | one length keeps the list's length, puts the position back inside the list and grows the skip by 1 |
| KnotHash.TieReverses | 2017/10_knot_hash.py:14 | for a length within the list, one length reverses the window from the current position |
| KnotHash.TieAll | 2017/10_knot_hash.py:13-16 | one round grows the skip by the number of lengths, and leaves the position inside the list |
| KnotHash.TieAllPermutes | 2017/10_knot_hash.py:13-16 | a round keeps the multiset of marks, and an empty round keeps the position |
| KnotHash.Rounds | 2017/10_knot_hash.py:8-16 | `times` rounds from the 256 marks, position and skip carried over, give a list of 256 |
| KnotHash.RoundsPermuteMarks | 2017/10_knot_hash.py:8-16 | after any number of rounds the list is a permutation of 0..255, the position is inside it, and the skip is `times * len(data)` |
| KnotHash.TieOne | 2017/10_knot_hash.py:14-16 | the inner loop's body updates the array, position and skip as one `Tie` |
| KnotHash.TwistMarks | 2017/10_knot_hash.py:8-16 | the two loops leave the array, position and skip at `Rounds(data, times)` |
| KnotHash.PermutationOfMarks | 2017/10_knot_hash.py:8-16 | a permutation of 0..255 has 256 distinct bytes |
| KnotHash.MultiplicationHash | 2017/10_knot_hash.py:31-33 | the product of the first two marks, and IndexError exactly when the list is shorter than 2 |
| KnotHash.KnotProduct | 2017/10_knot_hash.py:31-33 | on a twisted list the product is defined and is the product of two distinct bytes, between 0 and 255 * 254 |
| KnotHash.XorAll | 2017/10_knot_hash.py:44 | the XOR reduction of a block of bytes is a byte |
| KnotHash.HexDigitValue | 2017/10_knot_hash.py:45 | a lower-case hex digit has a value below 16 and is that value's digit |
| KnotHash.HexByte | 2017/10_knot_hash.py:45 | `'{:02x}'.format(v)` for a byte is two lower-case hex digits whose value is `v` |
| KnotHash.Block | 2017/10_knot_hash.py:43 | `hash_list[i:i+16]` holds at most 16 marks, is empty exactly when the list ends before `i`, and is the full slice when the list reaches `i + 16` |
| KnotHash.HexFrom | 2017/10_knot_hash.py:42-47 | the hex of blocks `b` .. 15 succeeds exactly when none of them is empty, raises TypeError otherwise, and pair `j` of it is the XOR of block `b + j` |
| KnotHash.HexHash | 2017/10_knot_hash.py:35-47 | `hex_hash_fun` gives 32 lower-case hex digits exactly when the list has more than 240 marks, else TypeError, and pair `b` of the result is the XOR of block `b` |
| KnotHash.HexHashOfBytes | 2017/10_knot_hash.py:35-47 | on 256 bytes the hex hash succeeds, and pair `b` is the XOR of marks `16b` .. `16b + 15` |
| KnotHash.ApplyHash | 2017/10_knot_hash.py:18 | the multiplication hash gives a product and the hex hash a digest |
| KnotHash.CalHash | 2017/10_knot_hash.py:6-18 | `cal_hash` never fails and returns the chosen hash of its twisted list of bytes |
| Stream.Step | 2017/9_stream.py:20-37 | one token adds at most one character to the garbage count |
| Stream.Run | 2017/9_stream.py:20-37 | the garbage count never falls during a scan |
| Stream.CalculateScoreAndGarbage | 2017/9_stream.py:11-39 | the loop returns the score and the garbage count of the scan over the whole stream |
| Stream.CancelledToken | 2017/9_stream.py:21-23 | a cancelled token changes nothing but clearing the cancel flag |
| Stream.JunkToken | 2017/9_stream.py:24-30 | inside garbage the score and depth stay, and the count grows by one exactly for a token that is neither `!` nor `>` |
| Stream.GroupTokens | 2017/9_stream.py:31-37 | outside garbage `}` adds the current depth to the score and closes the group, `{` opens one, other tokens but `<` change nothing, and no garbage is counted |
| Stream.RunAppend | 2017/9_stream.py:20 | scanning two pieces in turn is scanning their concatenation |
| Stream.RunCons | 2017/9_stream.py:20 | scanning one token and then the rest is scanning the whole |
| Stream.RunBody | 2017/9_stream.py:24-30 | a well-formed garbage body, scanned inside garbage, adds its uncancelled characters and nothing else |
| Stream.RunGarbage | 2017/9_stream.py:24-32 | a whole `<...>` piece of garbage adds its uncancelled characters and leaves the scan outside garbage |
| Stream.RunThing | 2017/9_stream.py:11-39 | rendering a group-or-garbage tree and scanning it adds the tree's depth score and its garbage count |
| Stream.RunGroup | 2017/9_stream.py:33-48 | a group adds its own depth plus its children's scores one level deeper |
| Stream.RunList | 2017/9_stream.py:44-48 | comma-separated things add up their scores and garbage |
| Stream.RunComma | 2017/9_stream.py:20-37 | a comma between things does nothing to the scan |
| Stream.ScanOfThing | 2017/9_stream.py:11-39 | for any well-formed stream the scan returns exactly the sum of group depths (the outermost at depth 1) and the number of uncancelled garbage characters, and ends at depth 0 |
| Stream.DepthAppend | 2017/9_stream.py:20 | two pieces that each keep the depth at or above a bound, scanned in turn, keep it there together |
| Stream.DepthToken | 2017/9_stream.py:20-37 | one token keeps the bound when the states before and after it do |
| Stream.BodyDepth | 2017/9_stream.py:24-30 | inside well-formed garbage the depth never moves |
| Stream.ThingDepth | 2017/9_stream.py:11-39 | scanning a well-formed thing from outside garbage never takes the depth below where it started |
| Stream.GroupDepth | 2017/9_stream.py:33-37 | a group raises the depth by one, keeps it there over its children and only its own `}` brings it back |
| Stream.ListDepth | 2017/9_stream.py:20-37 | comma-separated things keep the depth at or above the starting depth |
| Stream.ScanDepth | 2017/9_stream.py:33-37 | on a well-formed stream every `}` closes an earlier `{`: the depth is never negative at any point of the scan |
| Stream.ValidBodyAppend | 2017/9_stream.py:50-54 | two garbage bodies in a row form one |
| Stream.PlainBody | 2017/9_stream.py:50-54 | characters other than `!` and `>` form a garbage body |
| Stream.ExampleBodyValid | 2017/9_stream.py:59 | the garbage of the example is well-formed, with every `>` but the last cancelled |
| Stream.ExampleRender | 2017/9_stream.py:59 | the example is one group holding one group holding one piece of garbage |
| Stream.ExampleScore | 2017/9_stream.py:59 | `{{<a!>},{<a!>},{<a!>},{<ab>}}` scores 3 |
| MemoryReallocation.MaxBank | 2017/6_memory_reallocation.py:36-40 | `max_bank` of an empty list raises ValueError; otherwise it gives an index of the list and the value held there |
| MemoryReallocation.MaxBankFirstMax | 2017/6_memory_reallocation.py:36-40 | that value is the maximum and the index is the first holding it, so ties go to the lowest-numbered bank |
| MemoryReallocation.Deal | 2017/6_memory_reallocation.py:29-32 | dealing keeps the number of banks |
| MemoryReallocation.DealSum | 2017/6_memory_reallocation.py:29-32 | dealing `v` blocks adds exactly `v` blocks in total (none for `v <= 0`) |
| MemoryReallocation.DealShares | 2017/6_memory_reallocation.py:29-32 | after dealing `v` blocks from `pos`, each bank has gained its share: `v div n`, plus one for each of the first `v mod n` banks after `pos` |
| MemoryReallocation.Redistributed | 2017/6_memory_reallocation.py:23-34 | one cycle keeps the number of banks |
| MemoryReallocation.RedistributedSum | 2017/6_memory_reallocation.py:23-34 | when some bank is not negative, a cycle keeps the total number of blocks |
| MemoryReallocation.RedistributedBanks | 2017/6_memory_reallocation.py:23-34 | after a cycle each bank holds its old blocks (none for the emptied fullest bank) plus its share of the fullest bank's blocks, dealt from the bank after it |
| MemoryReallocation.RedistributionBanks | 2017/6_memory_reallocation.py:23-34 | the method fails exactly on an empty list, leaving it alone, and otherwise leaves the array as one cycle's banks |
| MemoryReallocation.SumUpdate | 2017/6_memory_reallocation.py:28-31 | writing one bank changes the total by the difference |
| MemoryReallocation.SignatureCollision | 2017/6_memory_reallocation.py:19-21 | the signature joins the numbers with no separator, so the different banks `[1, 11]` and `[11, 1]` share the signature "111" |
| MemoryReallocation.States | 2017/6_memory_reallocation.py:13-16 | the banks after `k` cycles, always as many as at the start |
| MemoryReallocation.TraceStates | 2017/6_memory_reallocation.py:13-16 | a trace of consecutive cycles holds the banks after `k` cycles at position `k` |
| MemoryReallocation.TraceExtend | 2017/6_memory_reallocation.py:15 | one more cycle extends a trace |
| MemoryReallocation.TracesAgree | 2017/6_memory_reallocation.py:13-16 | two traces from the same banks agree wherever both are defined |
| MemoryReallocation.DistinctPositions | 2017/6_memory_reallocation.py:13 | in a trace with pairwise different keys, equal keys mean the same position |
| MemoryReallocation.RepeatBound | 2017/6_memory_reallocation.py:13-16 | no repeat-free trace is longer than the trace that ends at the first repeat |
| MemoryReallocation.RepeatUnique | 2017/6_memory_reallocation.py:13-17 | the trace ending at the first repeat, and the position first repeated, are unique |
| MemoryReallocation.SignaturesDistinct | 2017/6_memory_reallocation.py:13-14 | a history of distinct signatures means states of distinct keys |
| MemoryReallocation.TableExtend | 2017/6_memory_reallocation.py:13-14 | recording an unseen signature under the current cycle keeps `reallocation_map` exactly the history's signature-to-cycle table, and the history free of repeats |
| MemoryReallocation.TableRepeats | 2017/6_memory_reallocation.py:11-14 | the history behind such a table has no repeats |
| MemoryReallocation.TableHit | 2017/6_memory_reallocation.py:13-17 | a signature found in the table was recorded at the cycle it maps to |
| MemoryReallocation.SignaturesExtend | 2017/6_memory_reallocation.py:13-16 | the history of signatures grows by the signature of the next state |
| MemoryReallocation.TakeDistinct | 2017/6_memory_reallocation.py:13-16 | the states recorded so far have distinct signatures |
| MemoryReallocation.Found | 2017/6_memory_reallocation.py:13-17 | when the loop stops, `(cycle, cycle - reallocation_map[sig])` is the answer: the trace's last state is the first whose signature was seen, and the loop length is the distance back to it |
| MemoryReallocation.Reallocation | 2017/6_memory_reallocation.py:5-17 | empty banks raise ValueError; otherwise the result is the number of cycles until the first repeated signature, and the length of the loop, for the unique trace of cycles from the given banks, with the banks left in the last state; without a repeat within the fuel the trace seen is repeat-free |
| Registers.LookupNames | 2017/8_registers.py:20 | `Condition.lookup` knows exactly the six operator names, each bound to its comparison |
| Registers.NegateCompare | 2017/8_registers.py:20 | the six comparisons come in complementary pairs (`<` and `>=`, `<=` and `>`, `==` and `!=`) |
| Registers.Satisfy | 2017/8_registers.py:28-31 | `satisfy` raises KeyError exactly for an unknown operator, and otherwise compares the register's value (0 if never written) with the condition's value |
| Registers.Execute | 2017/8_registers.py:41-50 | `execute` raises exactly when its condition does; a failed condition gives the register's current value, `inc` adds the amount and any other action subtracts it |
| Registers.Parsed | 2017/8_registers.py:55-59 | each line is parsed on its own |
| Registers.ParseRender | 2017/8_registers.py:56-59 | parsing the seven space-separated words of an instruction reads it back, for names without spaces |
| Registers.MaxWritten | 2017/8_registers.py:54-62 | the largest of 0 and the values written: it bounds them all and is 0 or one of them |
| Registers.RunHeld | 2017/8_registers.py:54-65 | `max_helded` is the largest of 0 and every value stored by the run |
| Registers.RunUntouched | 2017/8_registers.py:61-63 | a register that is never a target keeps its value, 0 if it never had one |
| Registers.RunStops | 2017/8_registers.py:55-63 | once an instruction raises, the instructions after it change nothing |
| Registers.Machine.ParseAndExecInstructions | 2017/8_registers.py:52-65 | the loop leaves the registers as the run does, and returns `max_helded`, or the first exception the parse or the execution raises |
| RecursiveCircus.LastArrow | 2017/7_recursive_circus.py:75 | the greedy `.*(?<=-> )` stops just after the last `-> ` of the line, and fails when there is none |
| RecursiveCircus.LineText | 2017/7_recursive_circus.py:75 | what `.` can match: the line up to its first newline, which holds no newline |
| RecursiveCircus.ParseDisc | 2017/7_recursive_circus.py:75-77 | a line the pattern does not match raises AttributeError at `matches.group` |
| RecursiveCircus.ParseWeighed | 2017/7_recursive_circus.py:75-83 | the text after the name fails only with AttributeError |
| RecursiveCircus.JoinChars | 2017/7_recursive_circus.py:79 | a `, `-joined list of names is non-empty and holds only word characters, commas and spaces |
| RecursiveCircus.OnlyArrow | 2017/7_recursive_circus.py:75 | in ` -> ` followed by a list of names, the last arrow is the only one |
| RecursiveCircus.LineOf | 2017/7_recursive_circus.py:75 | `.` stops at the line's newline |
| RecursiveCircus.SubDiscsRender | 2017/7_recursive_circus.py:78-81 | the sub-disc list after `)` reads back as the names written there, `None` (no children) when there are none |
| RecursiveCircus.ParseName | 2017/7_recursive_circus.py:75-76 | the name group is the whole run of word characters before ` (` |
| RecursiveCircus.ParseWeight | 2017/7_recursive_circus.py:75-83 | after ` (`, a run of digits and `)` the weight is the digits' value and the children are read from the rest |
| RecursiveCircus.ParseRender | 2017/7_recursive_circus.py:75-83 | every disc with word-character names, written in the input's layout, parses back to itself |
| RecursiveCircus.IndexOf | 2017/7_recursive_circus.py:34 | a dict lookup finds the first entry with the key, or none exists |
| RecursiveCircus.Put | 2017/7_recursive_circus.py:34 | `d[k] = v` updates an existing key in place and appends a new one last, keeping keys distinct |
| RecursiveCircus.PutValueSet | 2017/7_recursive_circus.py:34-36 | after `d[k] = v` the dict is non-empty and `v` is among its values |
| RecursiveCircus.ValueSetNonEmpty | 2017/7_recursive_circus.py:36 | a non-empty dict has at least one distinct value |
| RecursiveCircus.OneValue | 2017/7_recursive_circus.py:36 | `len(set(d.values())) == 1` on a non-empty dict holds exactly when all its values agree |
| RecursiveCircus.Checks | 2017/7_recursive_circus.py:29-31 | each child's name is looked up and checked, in list order |
| RecursiveCircus.LeafBalanced | 2017/7_recursive_circus.py:25-26 | a program without sub-discs is balanced, with an empty map |
| RecursiveCircus.ScanThrough | 2017/7_recursive_circus.py:29-34 | the loop runs to its end exactly when every child is found and balanced |
| RecursiveCircus.ScanStep | 2017/7_recursive_circus.py:34 | a balanced child adds `sum(c_map.values()) + child_disc.weight` under its name |
| RecursiveCircus.ScanKeys | 2017/7_recursive_circus.py:28-34 | the loop's map has distinct keys, and is empty exactly when there are no children |
| RecursiveCircus.PutFresh | 2017/7_recursive_circus.py:34 | a new key is appended |
| RecursiveCircus.ScanEntries | 2017/7_recursive_circus.py:28-34 | for a list without repeated names, the map holds one entry per child, in order, with its tower weight |
| RecursiveCircus.ScanStops | 2017/7_recursive_circus.py:30-33 | otherwise the loop stops at the first child that is missing (KeyError), fails, or is unbalanced, and returns what that child gave |
| RecursiveCircus.ScanPassOn | 2017/7_recursive_circus.py:32-33 | once the loop has stopped, later children change nothing |
| RecursiveCircus.ScanFail | 2017/7_recursive_circus.py:30-33 | the first child that does not pass decides the outcome |
| RecursiveCircus.ScanShaped | 2017/7_recursive_circus.py:28-36 | when the children's results are well-shaped, so is the parent's |
| RecursiveCircus.FailedShaped | 2017/7_recursive_circus.py:30-33 | a failing child hands on a well-shaped result |
| RecursiveCircus.BalanceShape | 2017/7_recursive_circus.py:19-36 | `check_balance` raises only KeyError or RecursionError; its map has distinct keys; True comes with at most one distinct weight and False with at least two, the map of the disc where the balance fails |
| RecursiveCircus.Weights | 2017/7_recursive_circus.py:29-34 | the tower weight on each child of a disc, unknown for a missing name |
| RecursiveCircus.SubsetCard | 2017/7_recursive_circus.py:36 | a subset is no larger |
| RecursiveCircus.SumsAgree | 2017/7_recursive_circus.py:34 | the sum of a map's values is the sum of the known weights it records |
| RecursiveCircus.ScanAgrees | 2017/7_recursive_circus.py:28-36 | when each child's result agrees with its reference weight and balance, the loop's verdict is True exactly when all children are balanced, their weights known and all equal, and then the map sums to their total |
| RecursiveCircus.BalanceReference | 2017/7_recursive_circus.py:19-36 | on a tree of finite depth with all names present and no repeats, `check_balance` never raises; it returns True exactly when every disc of the tower carries towers of equal weight, and then the disc's own weight plus its map's total is the tower's weight |
| RecursiveCircus.BalanceLevel | 2017/7_recursive_circus.py:28-36 | one level of that induction |
| RecursiveCircus.BalanceUnfold | 2017/7_recursive_circus.py:25-36 | the check of a disc with children is the verdict of the loop over them |
| RecursiveCircus.ReferenceUnfold | 2017/7_recursive_circus.py:19-36 | a disc is balanced exactly when all its children are, with equal known weights; its tower weight is then its own plus theirs |
| RecursiveCircus.GroupIndex | 2017/7_recursive_circus.py:46 | `value in weight_count` finds the group of that weight, or none exists |
| RecursiveCircus.GroupsOf | 2017/7_recursive_circus.py:45-49 | no group of `weight_count` is empty |
| RecursiveCircus.KeysWithEntries | 2017/7_recursive_circus.py:45-49 | a key listed under a weight has that weight |
| RecursiveCircus.KeysWithNone | 2017/7_recursive_circus.py:45-49 | no key is listed under a weight nobody has |
| RecursiveCircus.GroupsSpec | 2017/7_recursive_circus.py:43-49 | `weight_count` lists, for each weight, exactly the keys with it in dict order; each weight has one group, and every weight present has one |
| RecursiveCircus.KeysWithLast | 2017/7_recursive_circus.py:45-49 | one more entry adds its key to its own weight's list only |
| RecursiveCircus.AddRight | 2017/7_recursive_circus.py:46-49 | one more entry keeps the grouping right |
| RecursiveCircus.AddKeys | 2017/7_recursive_circus.py:46-49 | each group still lists exactly its keys |
| RecursiveCircus.AddDistinct | 2017/7_recursive_circus.py:46-49 | no weight gets a second group |
| RecursiveCircus.AddCovers | 2017/7_recursive_circus.py:46-49 | every weight still has a group |
| RecursiveCircus.Least | 2017/7_recursive_circus.py:51-53 | the stable `sorted(..., key=len)` puts first the earliest group of fewest keys; skipping that group gives the second; there is none exactly when too few groups are left |
| RecursiveCircus.UnbalanceErrors | 2017/7_recursive_circus.py:51-57 | `find_unbalance_disc` raises IndexError exactly when all the weights agree (fewer than two groups), and otherwise can only raise KeyError |
| RecursiveCircus.UnbalanceReport | 2017/7_recursive_circus.py:38-63 | a report names a disc of the map with its own weight; its total weight is one held by the fewest discs, it is the first of those, and the difference to another weight present is non-zero |
| RecursiveCircus.Circus.FindUnbalanceDisc | 2017/7_recursive_circus.py:38-63 | the loop and the sort compute `Unbalance` |
| RecursiveCircus.Parsed | 2017/7_recursive_circus.py:73-75 | each line is parsed on its own |
| RecursiveCircus.NameSet | 2017/7_recursive_circus.py:88 | `set(names)` holds exactly the names |
| RecursiveCircus.LoadParsed | 2017/7_recursive_circus.py:73-84 | the loop finishes exactly when every line parses, and then stores them all in order; otherwise some line's AttributeError stops it |
| RecursiveCircus.LoadError | 2017/7_recursive_circus.py:75-77 | the only exception of the loop is AttributeError |
| RecursiveCircus.NamesLast | 2017/7_recursive_circus.py:84 | the names stored grow by the new disc's name |
| RecursiveCircus.LoadLast | 2017/7_recursive_circus.py:83-84 | a parsed line stores its disc under its name |
| RecursiveCircus.LoadKeys | 2017/7_recursive_circus.py:84 | the map's keys are the old keys and the names parsed |
| RecursiveCircus.LoadKeeps | 2017/7_recursive_circus.py:84 | an old entry not named again is kept |
| RecursiveCircus.LoadNamed | 2017/7_recursive_circus.py:84 | every disc parsed is stored under its own name |
| RecursiveCircus.LoadLastWins | 2017/7_recursive_circus.py:84 | when a name is parsed twice, the later line wins |
| RecursiveCircus.LoadFails | 2017/7_recursive_circus.py:73-77 | once a line fails, later lines change nothing |
| RecursiveCircus.ParentsLast | 2017/7_recursive_circus.py:86-88 | a disc with children adds its name to the parents and its sub-discs to the children |
| RecursiveCircus.ParentsChildren | 2017/7_recursive_circus.py:86-88 | the parents are the names of discs with children, and the children every name in a sub-disc list |
| RecursiveCircus.RootFacts | 2017/7_recursive_circus.py:90-91 | a root candidate is stored under its name and on no disc; with no name parsed twice it has children and is one of the lines |
| RecursiveCircus.Circus.StoreDiscs | 2017/7_recursive_circus.py:70-88 | the loop leaves `DISC_MAP` as `Load` describes, with the parent and child names of the discs parsed |
| RecursiveCircus.Circus.BuildDiscs | 2017/7_recursive_circus.py:65-91 | `build_discs` passes on a line's AttributeError; with no root it raises KeyError (`pop` of an empty set); otherwise it returns the stored disc of some name that has children and stands on no other disc |
| AlchemicalReduction.Kept | 2018/day_5_alchemical_reduction.py:10-11 | the units not of the ignored type, in order, are no more than the polymer |
| AlchemicalReduction.ReducePolymer | 2018/day_5_alchemical_reduction.py:5-17 | the stack loop of `reduce` computes the fully reacted polymer `Reduce` |
| AlchemicalReduction.ReduceInert | 2018/day_5_alchemical_reduction.py:5-17 | the result has no two adjacent units of the same type and opposite polarity left, and no unit of the ignored type |
| AlchemicalReduction.ReduceUnits | 2018/day_5_alchemical_reduction.py:5-17 | every unit of the result comes from the polymer |
| AlchemicalReduction.ReduceLength | 2018/day_5_alchemical_reduction.py:12-15 | reacting removes units in pairs: the result is at most the kept units, shorter by an even number |
| AlchemicalReduction.KeptAll | 2018/day_5_alchemical_reduction.py:5-10 | with no unit ignored, every unit is kept |
| AlchemicalReduction.ReduceInertFixed | 2018/day_5_alchemical_reduction.py:5-17 | a polymer that cannot react and holds no ignored unit is its own reduction |
| AlchemicalReduction.ReduceIdempotent | 2018/day_5_alchemical_reduction.py:5-17 | reducing twice is reducing once |
| AlchemicalReduction.ReduceSameType | 2018/day_5_alchemical_reduction.py:10 | ignoring `a` or `A` is the same |
| AlchemicalReduction.ReduceOntoAppend | 2018/day_5_alchemical_reduction.py:8-15 | reacting a polymer in two pieces, one after the other, is reacting the whole |
| AlchemicalReduction.ShortestAsWrittenUpTo | 2018/day_5_alchemical_reduction.py:20-29 | the loop as written keeps either the empty string or the reduction without one of the unit types seen |
| AlchemicalReduction.ShortestAsWritten | 2018/day_5_alchemical_reduction.py:19-30 | `find_shorest_polymer` as written returns the empty string or a reduction without one of the polymer's types |
| AlchemicalReduction.TraceReduces | 2018/day_5_alchemical_reduction.py:5-17 | a sequence of stacks, each the previous one with the next unit pushed, ends in the reduction |
| AlchemicalReduction.ExampleReduce | 2018/day_5_alchemical_reduction.py:41 | `dabAcCaCBAcCcaDA` reacts to `dabCBAcaDA` |
| AlchemicalReduction.ExampleWithoutC | 2018/day_5_alchemical_reduction.py:49 | without C/c, `dabAcCaCBAcCcaDA` reacts to `daDA`, of length 4 |
| AlchemicalReduction.BabAInert | 2018/day_5_alchemical_reduction.py:5-17 | `babA` cannot react |
| AlchemicalReduction.BabAWithoutB | 2018/day_5_alchemical_reduction.py:5-17 | without `b`, `babA` reacts away completely |
| AlchemicalReduction.BabAWithoutA | 2018/day_5_alchemical_reduction.py:5-17 | without `a` it leaves `bb` |
| AlchemicalReduction.AsWrittenMissesEmpty | 2018/day_5_alchemical_reduction.py:28 | as written, the empty reduction without `b` is taken for "none yet" and replaced, so the function answers `bb` where the shortest is empty |
| AlchemicalReduction.TypesUpTo | 2018/day_5_alchemical_reduction.py:20-26 | the tried set holds the type of every unit seen |
| AlchemicalReduction.TypeIndex | 2018/day_5_alchemical_reduction.py:23-26 | every tried type is the type of some unit seen |
| AlchemicalReduction.FindShortestPolymer | 2018/day_5_alchemical_reduction.py:19-30 | corrected: the result is a reduction without one of the polymer's types (empty for an empty polymer), no other type's removal gives a shorter one, and it is the first type in the polymer that reaches that length, as the strict `>` keeps it |
| SubterraneanSustainability.PotSumShift | 2018/day_12_subterranean_sustainability.py:49-50 | numbering the row from `start + d` adds `d` for every plant |
| SubterraneanSustainability.PotSumAppendEmpty | 2018/day_12_subterranean_sustainability.py:49-50 | empty pots added at the right change no sum |
| SubterraneanSustainability.PotSumPrependEmpty | 2018/day_12_subterranean_sustainability.py:7-8 | empty pots added at the left, with the start moved back by as many, change no sum |
| SubterraneanSustainability.PlantInMeaning | 2018/day_12_subterranean_sustainability.py:6-9 | the plant test on a range holds exactly when some pot in it holds a plant |
| SubterraneanSustainability.PlantInSlice | 2018/day_12_subterranean_sustainability.py:6-9 | that is `'#' in s[lo:hi]` |
| SubterraneanSustainability.FrontTest | 2018/day_12_subterranean_sustainability.py:6 | the left-hand test `'#' in pots[0:5]` looks at the first five pots (fewer on a shorter row) |
| SubterraneanSustainability.BackTest | 2018/day_12_subterranean_sustainability.py:9 | the code's right-hand test `'#' in pots[-5:-1]` looks at the last five pots but the last one, and `pots[-5:]` at all five |
| SubterraneanSustainability.AddPots | 2018/day_12_subterranean_sustainability.py:5-11 | `add_pots_if_need` moves the start back by 5 exactly when a plant is among the first five pots, and otherwise keeps it |
| SubterraneanSustainability.SurroundKeepsPlants | 2018/day_12_subterranean_sustainability.py:7-10 | empty pots on either side, with the start moved back, keep every numbered pot's contents |
| SubterraneanSustainability.PadSurrounds | 2018/day_12_subterranean_sustainability.py:5-11 | the padding is five empty pots in front when the front test holds, and five behind when the back test holds on the front-padded row |
| SubterraneanSustainability.PadKeepsPlants | 2018/day_12_subterranean_sustainability.py:5-11 | padding keeps every numbered pot's contents |
| SubterraneanSustainability.PadPlanted | 2018/day_12_subterranean_sustainability.py:5-11 | padding keeps a row of `#` and `.` |
| SubterraneanSustainability.PadKeepsSum | 2018/day_12_subterranean_sustainability.py:5-11 | padding keeps the pot sum |
| SubterraneanSustainability.QuietBack | 2018/day_12_subterranean_sustainability.py:9 | when the back test fails, the pots it looks at are empty |
| SubterraneanSustainability.PadLastButOne | 2018/day_12_subterranean_sustainability.py:9-31 | after padding, the last pot but one is empty |
| SubterraneanSustainability.TailLastButOne | 2018/day_12_subterranean_sustainability.py:9-10 | the same for the back padding alone |
| SubterraneanSustainability.MarginsOf | 2018/day_12_subterranean_sustainability.py:5-11 | five empty pots at each end give a margined row |
| SubterraneanSustainability.PadMargins | 2018/day_12_subterranean_sustainability.py:5-11 | with the corrected right-hand test, padding always leaves five empty pots at each end |
| SubterraneanSustainability.PadAgrees | 2018/day_12_subterranean_sustainability.py:9 | on a row whose last pot is empty, the two right-hand tests pad alike |
| SubterraneanSustainability.Outcome | 2018/day_12_subterranean_sustainability.py:25-29 | `rules.get(window)` is used when it is a non-empty string, and `.` otherwise; never empty |
| SubterraneanSustainability.OutcomeSingle | 2018/day_12_subterranean_sustainability.py:25-29 | with rules of one pot each, each window gives `#` or `.` |
| SubterraneanSustainability.NextGeneration | 2018/day_12_subterranean_sustainability.py:22-31 | the inner loop builds the generation: the first two pots copied, each pot from 2 to `len - 3` rewritten by its window, then `pots[-2:-1]` |
| SubterraneanSustainability.GrownShape | 2018/day_12_subterranean_sustainability.py:22-29 | after position `k` the new row has `k` pots: the first two copied and each later one the outcome of its window |
| SubterraneanSustainability.GenerationShape | 2018/day_12_subterranean_sustainability.py:22-31 | a generation of a row of four or more pots is one pot shorter; it keeps the first two and the last but one, and rewrites every other pot by its window |
| SubterraneanSustainability.GenerationShort | 2018/day_12_subterranean_sustainability.py:22-31 | on a row of fewer than four pots, no window is rewritten |
| SubterraneanSustainability.GenerationPlanted | 2018/day_12_subterranean_sustainability.py:22-31 | a generation keeps a row of `#` and `.`, and ends in an empty pot when the last pot but one was empty |
| SubterraneanSustainability.SameWindows | 2018/day_12_subterranean_sustainability.py:25 | rows with the same plants have the same windows |
| SubterraneanSustainability.QuietWindow | 2018/day_12_subterranean_sustainability.py:25 | near the ends of a margined row every window is five empty pots |
| SubterraneanSustainability.InnerWindow | 2018/day_12_subterranean_sustainability.py:25 | inside the row, a window of the string is the window of the numbered row |
| SubterraneanSustainability.GenerationSound | 2018/day_12_subterranean_sustainability.py:22-31 | on a margined row, a generation gives every pot number exactly what the puzzle's rule on the unbounded row gives |
| SubterraneanSustainability.StepSound | 2018/day_12_subterranean_sustainability.py:20-31 | with the corrected padding, one step of `grow` is exactly one generation of the unbounded row |
| SubterraneanSustainability.StepEndsEmpty | 2018/day_12_subterranean_sustainability.py:20-31 | after a step the row is `#` and `.` and its last pot is empty |
| SubterraneanSustainability.LostPlant | 2018/day_12_subterranean_sustainability.py:9-31 | as written, a plant that the rule gives in the last pot is lost when the row ends in `....#` |
| SubterraneanSustainability.LostPlantExample | 2018/day_12_subterranean_sustainability.py:9-31 | for `#....#` and the rule `..#.. => #`, the code leaves pot 5 empty after one step where the rule puts a plant |
| SubterraneanSustainability.RunSound | 2018/day_12_subterranean_sustainability.py:19-31 | with the corrected padding, the row after `g` steps is the unbounded row after `g` generations |
| SubterraneanSustainability.RunAgrees | 2018/day_12_subterranean_sustainability.py:9-31 | from a row whose last pot is empty, the code's padding and the corrected one give the same runs |
| SubterraneanSustainability.IterateAgrees | 2018/day_12_subterranean_sustainability.py:19 | two steps that agree on such rows, and keep them so, give the same runs |
| SubterraneanSustainability.History | 2018/day_12_subterranean_sustainability.py:34 | one change per step run |
| SubterraneanSustainability.HistoryEntries | 2018/day_12_subterranean_sustainability.py:33-35 | entry `j` of the changes is the change of step `j + 1` |
| SubterraneanSustainability.Recent | 2018/day_12_subterranean_sustainability.py:34-38 | the window of changes holds at most fifty |
| SubterraneanSustainability.RecentEntries | 2018/day_12_subterranean_sustainability.py:34-38 | the window holds the changes of the last steps, in order |
| SubterraneanSustainability.RecentStep | 2018/day_12_subterranean_sustainability.py:34-38 | each step appends its change and drops the oldest beyond fifty |
| SubterraneanSustainability.RecentBounded | 2018/day_12_subterranean_sustainability.py:37-38 | the window never holds more than fifty changes, and its last is the latest change |
| SubterraneanSustainability.OneValue | 2018/day_12_subterranean_sustainability.py:42 | `len(set(s)) == 1` holds exactly when the list is non-empty and all its entries equal the last |
| SubterraneanSustainability.StableMeaning | 2018/day_12_subterranean_sustainability.py:42-44 | the stop test holds exactly when fifty steps have run and the sum grew by the same amount in each of the last fifty |
| SubterraneanSustainability.First | 2018/day_12_subterranean_sustainability.py:19-44 | the first stable step found lies between 1 and the steps run |
| SubterraneanSustainability.FirstLeast | 2018/day_12_subterranean_sustainability.py:42-44 | it is the first step that passes the test, and none is found only when no step passes |
| SubterraneanSustainability.FirstSticks | 2018/day_12_subterranean_sustainability.py:42-44 | once found, later steps do not change it |
| SubterraneanSustainability.SumLinear | 2018/day_12_subterranean_sustainability.py:46-47 | while every change is `c`, the sum grows by `c` a step |
| SubterraneanSustainability.ExtrapolatedExact | 2018/day_12_subterranean_sustainability.py:46-47 | the extrapolated sum is the true sum after `gen_num` steps whenever the steady change goes on to the end, and always when no stable step came |
| SubterraneanSustainability.ExtrapolatedAt | 2018/day_12_subterranean_sustainability.py:46-47 | stopped at step `g`, the answer adds the last change once for every step left |
| SubterraneanSustainability.ExitValue | 2018/day_12_subterranean_sustainability.py:43-47 | the values at the loop's exit give the reported result |
| SubterraneanSustainability.RecordChange | 2018/day_12_subterranean_sustainability.py:33-44 | the bookkeeping appends the change, keeps at most fifty and applies the stop test |
| SubterraneanSustainability.GrowStep | 2018/day_12_subterranean_sustainability.py:20-31 | the padding and the generation body make one step |
| SubterraneanSustainability.RunNext | 2018/day_12_subterranean_sustainability.py:19-31 | the row after `g` steps is one step after the row after `g - 1` |
| SubterraneanSustainability.GrowIteration | 2018/day_12_subterranean_sustainability.py:19-44 | one pass of the loop keeps the row, the sum and the window of changes in step with the run, and says whether the sums are stable |
| SubterraneanSustainability.GrowLoop | 2018/day_12_subterranean_sustainability.py:13-44 | the loop stops at the first stable step, or after `gen_num` steps, with the row of that step and its window of changes |
| SubterraneanSustainability.GrowEnd | 2018/day_12_subterranean_sustainability.py:46-47 | the values the loop stops with give `grow`'s answer |
| SubterraneanSustainability.Grow | 2018/day_12_subterranean_sustainability.py:13-47 | `grow` returns the row where it stopped and the sum extrapolated from the first stable step; with `gen_num < 1` it raises IndexError |
| ChocolateCharts.SumDigits | 2018/day_14_chocolate_charts.py:10-11 | `str` of a sum of two digits has one digit below 10 and two otherwise, and reads back as that sum |
| ChocolateCharts.Round | 2018/day_14_chocolate_charts.py:10-13 | a round appends one recipe, or two when the sum reaches 10, and keeps the board before them |
| ChocolateCharts.RoundMoves | 2018/day_14_chocolate_charts.py:10-13 | the recipes appended spell the sum of the two current scores, and each elf moves forward by one plus its score, wrapping round the longer board |
| ChocolateCharts.StartBoard | 2018/day_14_chocolate_charts.py:6-8 | the board starts as `37` with the elves on its two recipes |
| ChocolateCharts.FirstRound | 2018/day_14_chocolate_charts.py:37-43 | after the first round the board is `3710` and the elves are back on 3 and 7 |
| ChocolateCharts.RoundsPrefix | 2018/day_14_chocolate_charts.py:9-13 | rounds only append: after `n` rounds the board is at least `n` longer and starts with the old board |
| ChocolateCharts.BoardsStart | 2018/day_14_chocolate_charts.py:9-13 | after any round the board starts with `3710` |
| ChocolateCharts.NextRecipesAfter | 2018/day_14_chocolate_charts.py:18-20 | ValueError exactly when `num` is not an integer; otherwise None until the board is longer than `int(num) + 10`, then the ten recipes after the first `int(num)` |
| ChocolateCharts.Tail | 2018/day_14_chocolate_charts.py:23 | `recipes[-len(num)-1:]` is the last `len(num) + 1` recipes, or the whole board if it is shorter |
| ChocolateCharts.TailSlice | 2018/day_14_chocolate_charts.py:23 | that is Python's slice |
| ChocolateCharts.SuffixOccurrence | 2018/day_14_chocolate_charts.py:23-24 | an occurrence in a suffix is an occurrence in the board |
| ChocolateCharts.SuffixContains | 2018/day_14_chocolate_charts.py:23-24 | so `num` seen at the end is somewhere in the board |
| ChocolateCharts.RecipesMadeFor | 2018/day_14_chocolate_charts.py:22-24 | None exactly when `num` is not in the last `len(num) + 1` recipes; otherwise the first index where `num` occurs |
| ChocolateCharts.SearchGoesOn | 2018/day_14_chocolate_charts.py:9-16 | a round whose verdict lets the loop continue hands over to the next board |
| ChocolateCharts.SearchFirst | 2018/day_14_chocolate_charts.py:9-16 | an answer is the verdict of the first round whose verdict passes the test, and every earlier round let the loop go on |
| ChocolateCharts.SearchRaised | 2018/day_14_chocolate_charts.py:9-16 | an exception is raised by some round's verdict |
| ChocolateCharts.SearchNever | 2018/day_14_chocolate_charts.py:9-16 | when every round keeps an invariant and lets the loop go on, no answer ever comes |
| ChocolateCharts.SearchNeverAfter | 2018/day_14_chocolate_charts.py:9-16 | the same from the second board on |
| ChocolateCharts.RecipesErrors | 2018/day_14_chocolate_charts.py:5-19 | `make_recipes` only runs out of rounds, or raises ValueError for a `num` that `next_x_recipes_after` cannot read |
| ChocolateCharts.NextTenAnswer | 2018/day_14_chocolate_charts.py:5-20 | with `next_x_recipes_after`, the answer is the ten recipes after the first `int(num)` on the first board longer than `int(num) + 10` |
| ChocolateCharts.PlayRound | 2018/day_14_chocolate_charts.py:10-13 | the loop body keeps the board valid and plays one round |
| ChocolateCharts.RoundOutcome | 2018/day_14_chocolate_charts.py:10-16 | after a round, the stopper's error, its passing verdict, or the rest of the search decides |
| ChocolateCharts.PendingStart | 2018/day_14_chocolate_charts.py:6-9 | the loop starts with the whole answer pending |
| ChocolateCharts.Turn | 2018/day_14_chocolate_charts.py:9-16 | one pass of the loop body ends the loop with the answer or keeps it pending |
| ChocolateCharts.RunRounds | 2018/day_14_chocolate_charts.py:9-16 | the loop returns the answer |
| ChocolateCharts.MakeRecipes | 2018/day_14_chocolate_charts.py:5-16 | `make_recipes` returns what the specification search gives within the fuel |
| ChocolateCharts.StartOccurrence | 2018/day_14_chocolate_charts.py:24 | a `num` opening the board is found at index 0 |
| ChocolateCharts.StaysAtStart | 2018/day_14_chocolate_charts.py:9-16 | a board opened by `num` stays so, and its verdict 0 is falsy, so the loop goes on |
| ChocolateCharts.AlwaysAtStart | 2018/day_14_chocolate_charts.py:9-16 | that holds from every such board |
| ChocolateCharts.FirstRoundAtStart | 2018/day_14_chocolate_charts.py:9-16 | a prefix of `3710` opens the board after the first round |
| ChocolateCharts.MadeForStartNeverAnswers | 2018/day_14_chocolate_charts.py:15 | as written, `if sv:` takes the index 0 for "no answer", so for `num` a prefix of `3710` (such as `3`) the loop never returns |
| ChocolateCharts.MadeForAnswer | 2018/day_14_chocolate_charts.py:5-24 | corrected (`if sv is not None`): the answer is the index of the first occurrence of `num` on the first board whose end shows it, and 0 for a prefix of `3710` |
| ChocolateCharts.MadeForVerdict | 2018/day_14_chocolate_charts.py:14-24 | the verdict of the recipe-count stopper never raises |
| ChocolateCharts.StartAnswer | 2018/day_14_chocolate_charts.py:24 | a prefix of `3710` first occurs at index 0 on every board after the first round |
| MineCart.HeadingOf | 2018/day_13_mine_cart.py:167-172 | a glyph names a heading exactly when it is one of `<>v^`, and the heading prints back as that glyph |
| MineCart.CornerTable | 2018/day_13_mine_cart.py:5-18 | each curve `/` or `\\` swaps a vertical heading for a horizontal one and back, and taking the same curve twice undoes it |
| MineCart.IntersectionTable | 2018/day_13_mine_cart.py:19-41 | at a crossing "straight" keeps the heading, left and right each turn a quarter and undo one another |
| MineCart.StepFacts | 2018/day_13_mine_cart.py:65-75 | one move lands the cart on the adjacent cell it faces; a curve redirects it by the curve table, a crossing by the turn its counter selects and bumps the counter, anything else keeps heading and counter |
| MineCart.IntersectionCycle | 2018/day_13_mine_cart.py:71-72 | the crossing turns cycle left, straight, right, and three consecutive crossings bring a heading back |
| MineCart.Cart.constructor | 2018/day_13_mine_cart.py:44-49 | a new cart sits at its coordinates with its heading, no crossings taken and not crashed |
| MineCart.Cart.NextTrack | 2018/day_13_mine_cart.py:51-59 | the next cell is one step away, in the direction the cart faces |
| MineCart.Track.constructor | 2018/day_13_mine_cart.py:62-63 | the track keeps the grid it was built from |
| MineCart.Track.MoveCart | 2018/day_13_mine_cart.py:65-75 | the cart's new position, heading and counter are one step of the movement rule; an off-grid cell (Python's IndexError) leaves the cart unchanged; the crash flag is untouched |
| MineCart.CheckCrashCart | 2018/day_13_mine_cart.py:77-79 | the answer is the first other, uncrashed cart on the same cell, or none when no such cart exists |
| MineCart.InsertPermutes | 2018/day_13_mine_cart.py:81-82 | inserting a cart into a key-ordered list adds exactly that cart |
| MineCart.InsertSorted | 2018/day_13_mine_cart.py:81-82 | inserting into a key-ordered list keeps it ordered |
| MineCart.SortByKey | 2018/day_13_mine_cart.py:81-82 | a stable sort by a key: a permutation of its input, ordered by the key |
| MineCart.SortCarts | 2018/day_13_mine_cart.py:81-82 | the carts are a permutation of the input in reading order, row `y` first and column `x` second |
| MineCart.PositionKeys | 2018/day_13_mine_cart.py:82 | each cart's key is its `(y, x)` |
| MineCart.SortCartsStates | 2018/day_13_mine_cart.py:81-82 | `sort_carts` returns only input carts, and their values are the input's values sorted by `(y, x)` |
| MineCart.StatesInsert | 2018/day_13_mine_cart.py:81-82 | inserting a cart keyed by its position mirrors inserting its value by position |
| MineCart.StatesSort | 2018/day_13_mine_cart.py:81-82 | sorting carts keyed by position sorts their values by position |
| MineCart.StatesKeep | 2018/day_13_mine_cart.py:99-103 | the values of the carts kept are the values kept |
| MineCart.KeepLength | 2018/day_13_mine_cart.py:88-103 | the surviving list and the crashed carts together account for every cart |
| MineCart.KeepMembers | 2018/day_13_mine_cart.py:88-103 | a cart survives exactly when it is in the list and has not crashed |
| MineCart.KeepDistinct | 2018/day_13_mine_cart.py:88-103 | the survivors of a list without repeats have no repeats |
| MineCart.RemoveLast | 2018/day_13_mine_cart.py:99-100 | removing a cart on the list commutes with appending another |
| MineCart.RemoveAbsent | 2018/day_13_mine_cart.py:99-100 | removing a cart that is not on the list changes nothing |
| MineCart.KeepCrash | 2018/day_13_mine_cart.py:97-100 | marking one more cart crashed removes exactly it from the survivors, which is what `safe_carts.remove(cc)` does |
| MineCart.RemoveLast0 | 2018/day_13_mine_cart.py:99-102 | removing the cart just appended restores the list |
| MineCart.CountTrueSet | 2018/day_13_mine_cart.py:97-98 | marking an uncrashed cart crashed adds one to the crash count |
| MineCart.KeepPrefix | 2018/day_13_mine_cart.py:89-102 | extending the pass by one cart appends it to the survivors exactly when it has not crashed |
| MineCart.FirstHit | 2018/day_13_mine_cart.py:77-79 | over the states of a pass, the first cart from a given index on that shares the cell of cart `i` and has not crashed |
| MineCart.PassStuck | 2018/day_13_mine_cart.py:89-92 | once a pass has stopped on an off-grid move it stays stopped |
| MineCart.VisitMoves | 2018/day_13_mine_cart.py:89-102 | visiting one cart moves only that cart, by one step, skips carts already crashed, and never un-crashes a cart |
| MineCart.VisitCrashes | 2018/day_13_mine_cart.py:93-100 | one visit makes at most one collision, which crashes exactly two carts; the first crash is recorded once and is the cell of a crashed cart |
| MineCart.PassMoves | 2018/day_13_mine_cart.py:89-102 | after visiting carts `0..i` each later cart is where it started and each earlier surviving cart has taken exactly one step |
| MineCart.PassCrashes | 2018/day_13_mine_cart.py:89-102 | after a partial pass the crashed carts are twice the collisions, and the first crash, once set, never changes and is the cell of a crashed cart |
| MineCart.States | 2018/day_13_mine_cart.py:43-49 | the states list reads the position, heading and counter of each cart, in order |
| MineCart.CrashLookup | 2018/day_13_mine_cart.py:77-93 | looking up a collision among the cart objects agrees with the lookup on their states |
| MineCart.MarkCrashed | 2018/day_13_mine_cart.py:97-98 | both carts are marked crashed and neither moves |
| MineCart.CrashBookkeeping | 2018/day_13_mine_cart.py:97-100 | crashing an earlier survivor together with the current cart leaves the survivors minus the earlier one |
| MineCart.Collide | 2018/day_13_mine_cart.py:94-100 | handling a collision marks both carts crashed, records the first crash once, and keeps the survivor list in step with the pass |
| MineCart.MoveOne | 2018/day_13_mine_cart.py:89-102 | the loop body over one cart does what one visit of the pass specifies, or reports the off-grid move |
| MineCart.TickOnce | 2018/day_13_mine_cart.py:88-103 | one round of the `while True` loop moves the carts as the pass specifies, leaves the uncrashed carts in order as survivors, and fails with IndexError exactly when a cart runs off the grid |
| MineCart.PassOutcome | 2018/day_13_mine_cart.py:88-103 | after a round, survivors plus twice the collisions is the number of carts, survivors are the uncrashed carts, each moved once, and a new first crash is the cell of a crashed cart |
| MineCart.AllFalseCount | 2018/day_13_mine_cart.py:49 | before any move no cart has crashed |
| MineCart.DistinctCount | 2018/day_13_mine_cart.py:81-82 | a list without repeats holds each cart at most once |
| MineCart.PermutationDistinct | 2018/day_13_mine_cart.py:107 | sorting the survivors keeps them free of repeats |
| MineCart.SurvivorsPermute | 2018/day_13_mine_cart.py:107 | reordering the survivors keeps the accounting between rounds |
| MineCart.LastSurvivor | 2018/day_13_mine_cart.py:104-108 | when one cart is left, an odd number of carts started, a first crash is reported exactly when there were several, it is the cell of a crashed cart, and the last cart is the only one that never crashed |
| MineCart.Round | 2018/day_13_mine_cart.py:87-107 | a round is the value-level pass from the carts' values at its start: it fails with IndexError exactly when that pass does, reports that pass's first crash (keeping one already recorded), its survivors carry the values the pass leaves running, and the survivor accounting is kept |
| MineCart.Tick | 2018/day_13_mine_cart.py:84-108 | the answer is exactly `Run` from the carts' starting values with no crash recorded; on success an odd number of carts started, a first crash is reported exactly when there were several, it is the cell of a crashed cart, and the survivor is the only cart that never crashed |
| MineCart.Run | 2018/day_13_mine_cart.py:84-108 | the whole run on values (passes, survivors sorted by `(y, x)` between them, stop at one survivor) fails only with IndexError or OutOfFuel |
| MineCart.RunStep | 2018/day_13_mine_cart.py:87-107 | one pass of the run: a single survivor ends it with the pass's first crash and its cell, otherwise the sorted survivors start the next pass |
| MineCart.NextStates | 2018/day_13_mine_cart.py:103-107 | the next pass starts from as many carts as survived |
| MineCart.RunKeepsFirstCrash | 2018/day_13_mine_cart.py:95-96 | once a first crash is recorded the run reports it, whatever later passes do |
| MineCart.RunFirstCrash | 2018/day_13_mine_cart.py:86-107 | the reported first crash is the one the first pass with a collision records; a pass without collision that leaves several carts hands on to the next pass |
| MineCart.RunParity | 2018/day_13_mine_cart.py:97-105 | each collision removes two carts, so a finished run started from an odd number of carts and reports a crash exactly when one was recorded or more than one cart started |
| MineCart.RunFuel | 2018/day_13_mine_cart.py:87-105 | more fuel does not change a finished run |
| MineCart.Underlying | 2018/day_13_mine_cart.py:167-174 | a cart glyph sits on a straight piece in its direction and every other character is its own track |
| MineCart.RowCartsFacts | 2018/day_13_mine_cart.py:166-174 | the carts of a row stand on cart glyphs of that row, left to right, none at a crossing yet, and every cart glyph yields one |
| MineCart.GridCartsOnGlyphs | 2018/day_13_mine_cart.py:164-175 | every cart read from the map stands on a cart glyph of its heading |
| MineCart.GridCartsOrdered | 2018/day_13_mine_cart.py:164-175 | carts are read in reading order, row by row and column by column |
| MineCart.GridCartsComplete | 2018/day_13_mine_cart.py:164-175 | every cart glyph of the map yields a cart |
| MineCart.RowGrid | 2018/day_13_mine_cart.py:165-175 | each row of the grid is the row with its cart glyphs replaced by the track beneath |
| MineCart.Grid | 2018/day_13_mine_cart.py:164-175 | the grid has one row per line, each the row's track |
| MineCart.ParseRow | 2018/day_13_mine_cart.py:165-175 | parsing a row gives its track and fresh, uncrashed, distinct carts, one per cart glyph, left to right |
| MineCart.DistinctConcat | 2018/day_13_mine_cart.py:164-175 | the carts of separate rows have no repeats together |
| MineCart.ParseMap | 2018/day_13_mine_cart.py:164-177 | parsing the map gives its track grid and the carts of every row in reading order, fresh and uncrashed |
| MineCart.StatesConcat | 2018/day_13_mine_cart.py:164-175 | the states of joined cart lists are the joined states |
| NoMatterSlice.RowCells | 2018/day_3_no_matter_slice.py:18-20 | row `row` of a claim's inches holds its `width` cells, left to right |
| NoMatterSlice.RowsFromShape | 2018/day_3_no_matter_slice.py:17-20 | the inches from a given row down are `(height - row) * width` cells, exactly the claim's cells at or below that row, in reading order |
| NoMatterSlice.InchesShape | 2018/day_3_no_matter_slice.py:17-20 | `get_inches` lists `width * height` cells, exactly those of the rectangle, row by row, each once |
| NoMatterSlice.FitsMeaning | 2018/day_3_no_matter_slice.py:37-46 | a claim fits the 1000 by 1000 sheet exactly when every one of its cells does |
| NoMatterSlice.FieldsLayout | 2018/day_3_no_matter_slice.py:24-27 | a line laid out as literal separators with digit runs between them reads back those runs' values |
| NoMatterSlice.FieldsShape | 2018/day_3_no_matter_slice.py:24-27 | anything the field reader accepts is such a layout |
| NoMatterSlice.ParseClaim | 2018/day_3_no_matter_slice.py:23-34 | a line the pattern rejects fails as the AttributeError of `matches.group` on `None` |
| NoMatterSlice.ParseClaimAccepts | 2018/day_3_no_matter_slice.py:7-34 | `#id @ x,y: wxh` with decimal digit runs, optionally ending in a newline, parses to the claim of those values |
| NoMatterSlice.ParseClaimShape | 2018/day_3_no_matter_slice.py:7-34 | every line that parses has that layout, so the pattern is matched in both directions |
| NoMatterSlice.ParseFormat | 2018/day_3_no_matter_slice.py:22-34 | printing a claim in the puzzle's format, with or without the newline `readlines` keeps, parses back to it |
| NoMatterSlice.CollectOk | 2018/day_3_no_matter_slice.py:40-41 | all lines are read exactly when every one parses, each to its own claim |
| NoMatterSlice.CollectError | 2018/day_3_no_matter_slice.py:40-41 | a failure is the error of the first line that does not parse |
| NoMatterSlice.ReadClaim | 2018/day_3_no_matter_slice.py:7-46 | reading a claim fails with AttributeError on a malformed line and with IndexError when the claim runs off the sheet |
| NoMatterSlice.CoverMeaning | 2018/day_3_no_matter_slice.py:36-48 | a cell is covered at least once exactly when some claim holds it, at least twice exactly when two claims do |
| NoMatterSlice.CoverNext | 2018/day_3_no_matter_slice.py:40-46 | one more claim adds one to the cover of each of its cells and nothing elsewhere |
| NoMatterSlice.MarkInch | 2018/day_3_no_matter_slice.py:43-46 | marking one inch: a used inch goes into the overlap set, a fresh one is marked used |
| NoMatterSlice.OffSheet | 2018/day_3_no_matter_slice.py:42-43 | an inch off the sheet means the claim does not fit |
| NoMatterSlice.InchNew | 2018/day_3_no_matter_slice.py:42 | each inch of a claim is visited once |
| NoMatterSlice.MarkClaim | 2018/day_3_no_matter_slice.py:41-46 | marking a claim fails exactly when it runs off the sheet, and otherwise keeps the used grid and the overlap set equal to the cells covered once and twice |
| NoMatterSlice.GetOverlapArea | 2018/day_3_no_matter_slice.py:36-48 | fails exactly when reading the claims fails, with that error; otherwise the set holds exactly the cells claimed by two or more claims |
| NoMatterSlice.MeetShares | 2018/day_3_no_matter_slice.py:58-62 | two claims are flagged against each other exactly when they share a cell |
| NoMatterSlice.MeetSymmetric | 2018/day_3_no_matter_slice.py:59-62 | overlap between two claims is symmetric |
| NoMatterSlice.IdList | 2018/day_3_no_matter_slice.py:52-56 | the ids in claim order |
| NoMatterSlice.IdsMeaning | 2018/day_3_no_matter_slice.py:58-64 | the list at a cell holds exactly the ids of claims covering it |
| NoMatterSlice.IdsNext | 2018/day_3_no_matter_slice.py:64 | a new claim appends its id to each of its cells |
| NoMatterSlice.RaiseFlags | 2018/day_3_no_matter_slice.py:61-62 | flagging the ids at a cell sets exactly those flags and keeps the others |
| NoMatterSlice.TouchesNext | 2018/day_3_no_matter_slice.py:58-60 | a claim touches the inches so far plus one more exactly when it touched them or covers the new one |
| NoMatterSlice.ListInch | 2018/day_3_no_matter_slice.py:58-64 | visiting an inch records the id there and flags its earlier owners and the new claim when it was already used |
| NoMatterSlice.ListClaim | 2018/day_3_no_matter_slice.py:55-64 | recording a claim fails exactly when it runs off the sheet; otherwise each earlier claim is flagged when it meets a later one |
| NoMatterSlice.FindClear | 2018/day_3_no_matter_slice.py:66-68 | the answer is the first claim in insertion order that is not flagged, or none when every one is |
| NoMatterSlice.Register | 2018/day_3_no_matter_slice.py:56 | a new id enters the map unflagged, at the end of the insertion order |
| NoMatterSlice.UniquePrefix | 2018/day_3_no_matter_slice.py:52-56 | a prefix of claims with distinct ids has distinct ids |
| NoMatterSlice.AddClaim | 2018/day_3_no_matter_slice.py:54-64 | one iteration of the claiming loop keeps the grid, map, flags and insertion order in step with the claims so far |
| NoMatterSlice.GetNonOverlap | 2018/day_3_no_matter_slice.py:50-68 | fails exactly when reading the claims fails; the claim returned is one of the input, and with distinct ids it is the first claim that meets no other, or none when every claim meets another |
| NoMatterSlice.ClearIsAlone | 2018/day_3_no_matter_slice.py:66-68 | the first unflagged claim is the first that overlaps no other |
| NoMatterSlice.ExampleLine | 2018/day_3_no_matter_slice.py:101 | `#1 @ 1,3: 4x4` read with its newline is claim 1 at (1,3), 4 by 4 |
| NoMatterSlice.ExampleOverlap | 2018/day_3_no_matter_slice.py:101-115 | in the puzzle's example the overlap is the four cells marked X and claim 3 is the one that overlaps nothing |
| ChronalCharge.CalculatePower | 2018/day_11_chronal_charge.py:105-108 | a cell's power level lies between -5 and 4 |
| ChronalCharge.PowerIsHundredsDigit | 2018/day_11_chronal_charge.py:105-108 | the power level is the hundreds digit of `((x + 10) * y + serial) * (x + 10)` minus 5, with Python's floor division and modulo |
| ChronalCharge.PowerExample | 2018/day_11_chronal_charge.py:136-143 | the cell at 3,5 with serial 8 has power 4 |
| ChronalCharge.BlockWider | 2018/day_11_chronal_charge.py:40-44 | a block one column wider adds that column's sum |
| ChronalCharge.SquareGrows | 2018/day_11_chronal_charge.py:84-101 | the square of side `n` is the square of side `n - 1`, the bottom row and right column of length `n - 1`, and the corner cell, which is the recurrence the cache relies on |
| ChronalCharge.RowBounds | 2018/day_11_chronal_charge.py:47-51 | a row sum of `n` cells lies between `-5n` and `4n` |
| ChronalCharge.BlockBounds | 2018/day_11_chronal_charge.py:40-45 | a block sum lies between -5 and 4 times its area |
| ChronalCharge.SquareBounds | 2018/day_11_chronal_charge.py:40-45 | a square's power lies between -5 and 4 times its area |
| ChronalCharge.SquareExample | 2018/day_11_chronal_charge.py:149-151 | with serial 18 the 3 by 3 square at 33,45 has power 29 |
| ChronalCharge.Power.constructor | 2018/day_11_chronal_charge.py:6-14 | a fresh cell records its coordinates and serial with every cache empty |
| ChronalCharge.Power.GetPower | 2018/day_11_chronal_charge.py:16-20 | a cell's power is the power level of its coordinates |
| ChronalCharge.Power.CalculateSquarePower | 2018/day_11_chronal_charge.py:40-45 | caches the sum of the `size` by `size` square from this cell and leaves the other caches alone |
| ChronalCharge.Power.CalculateRowPower | 2018/day_11_chronal_charge.py:47-51 | caches the sum of the `size` cells to the right from this cell |
| ChronalCharge.Power.CalculateColPower | 2018/day_11_chronal_charge.py:53-57 | caches the sum of the `size` cells downward from this cell |
| ChronalCharge.Power.GetPreviousSqrtPower | 2018/day_11_chronal_charge.py:22-26 | a truthy cached square is returned as it is; an empty or zero cache is recomputed for `size` and kept |
| ChronalCharge.Power.GetPreviousRowPower | 2018/day_11_chronal_charge.py:34-38 | a truthy cached row is returned as it is; otherwise the row is recomputed and kept |
| ChronalCharge.Power.GetPreviousColPower | 2018/day_11_chronal_charge.py:28-32 | a truthy cached column is returned as it is; otherwise the column is recomputed and kept |
| ChronalCharge.PowerGrid.constructor | 2018/day_11_chronal_charge.py:60-61 | `h` rows of `w` cells, the cell at `[x-1][y-1]` having coordinates `x, y`, with empty caches |
| ChronalCharge.PowerGrid.GetCellPowers | 2018/day_11_chronal_charge.py:63-64 | the lookup succeeds exactly when `x - 1` and `y - 1` are valid Python indices, negative ones counting from the end, and otherwise raises IndexError; in range it is the cell at `x, y` |
| ChronalCharge.PowerGrid.SetCellPowers | 2018/day_11_chronal_charge.py:66-67 | a store under the same index rule puts the cell where the lookup finds it and changes no other slot |
| ChronalCharge.CalculateSquarePower | 2018/day_11_chronal_charge.py:81-103 | given caches that hold the smaller square, bottom row and right column (or are falsy and get recomputed), the result is the power of the `size` square; the cell's square, row and column caches grow as the source writes them |
| ChronalCharge.Try | 2018/day_11_chronal_charge.py:74 | one scan step computes the square at the current corner and keeps the caches ready for the next one |
| ChronalCharge.FindMaxPowerSquare | 2018/day_11_chronal_charge.py:69-79 | the index is none with power 0 exactly when no square of the size has positive power; otherwise it is the first corner in scan order of a square of largest power, with that power |

Where the repository's description and its code differ, the model follows the code:

- 2018 day 13: a cart that reaches a character other than `/`, `\` and `+` keeps its heading, whatever that character is, and an empty cell raises no error of its own.  When no cart survives a tick, `tick` loops for ever; the model runs out of fuel.
- 2018 day 14: `make_recipes` tests the stopper's result with `if sv:`, so an answer of 0 does not stop it (see Findings).

## Left out

- Every solver's `main`: argument parsing, file reading and printing.  The mine-cart parse loop is the one part of a `main` that is modelled (`MineCart.ParseMap`).  In 2017 day 11, `main` splits the line on `,` and keeps the trailing newline on the last direction, which would make `cal_steps` raise KeyError; the model starts from the list of directions.
- `printTrack` of 2018 day 13, which only renders the track for debugging.
- 2017 day 3 (spiral memory), which is built on floating-point `math.sqrt` and `math.pow`.
- Python's `re` engine: the two fixed patterns (the claim line of 2018 day 3 and the disc line of 2017 day 7) are hand-written parsers over these exact layouts, with `\d` the ASCII digits and `\w` the ASCII letters, digits and `_`.
- `str.upper` is modelled on ASCII letters only; other characters are left as they are, without Unicode case rules.
- `int(str)` is modelled for an optional sign and ASCII digits around optional whitespace; underscores between digits and non-ASCII digits, which Python also accepts, are not.
- Termination of the unbounded loops: `tick` (2018 day 13), `make_recipes` (2018 day 14), `find_exit` (2017 day 5) and `reallocation` (2017 day 6) take a `fuel` bound and report `OutOfFuel` when it runs out, so the model says nothing about runs longer than the fuel.  The recursion of `check_balance` (2017 day 7) is bounded the same way, reporting Python's RecursionError.
- MineCart.Tick: carts and their values are sorted by the same insertion sort, so `Tick` and `Run` agree exactly; that this sort keeps carts with equal keys in list order, as Python's stable `sorted` does, is not stated.
- MineCart.SortCarts: stability is not part of its contract, for the same reason.
- HexEd.CalSteps: the `direction_count` dictionary is a sequence of six counts indexed by the direction's value, so its iteration order is the enum's order; the final sum does not depend on that order.
- CorruptionChecksum.ChecksumByDivisible: `int(value / t_value)` goes through a float in Python; the model uses exact integer division, which agrees for magnitudes below 2^53 and not beyond.
- MemoryReallocation.Reallocation: the signature is the source's own: the decimal numbers joined with no separator, so different banks can share a signature (`MemoryReallocation.SignatureCollision`) and the loop stops at the first repeated signature rather than the first repeated state.
- NoMatterSlice.GetNonOverlap: when two claims share an id, `claim_map` keeps only the later one; the contract then only says the result is one of the claims, not that it is the first alone.
- ChronalCharge.FindMaxPowerSquare: it requires a grid of at least 300 by 300, a size of at least 1 and, above size 1, that every corner's caches can be used for size `size - 1`.  For a size of 0 or less the source raises IndexError from `get_cell_powers(1, 301)` (2018/day_11_chronal_charge.py:64) or earlier; that error path is not modelled.  The main's range search (2018/day_11_chronal_charge.py:180-181) calls it for sizes 1, 2, … in turn on the same grid, and a cell's caches stop growing once it is no longer a corner (a size above `301 - max(x, y)`); so from size 3 on, a corner near the right or bottom edge (at size 3, corner (298, 1) reads the column cache of (300, 1), still of length 1) finds a cache of a smaller size than `size - 1`, used whenever it is non-zero; the precondition does not hold there and the model says nothing about what that search returns.
- ChronalCharge.Power.GetPower: the source recomputes the power when the stored value is falsy (0); since the recomputation gives the same value, the model keeps the power as a value fixed at construction.
- ChronalCharge.PowerGrid.GetCellPowers: the off-grid coordinates `find_max_power_square` never uses are modelled as Python's negative indexing inside the grid and IndexError beyond it; the grid's cells are only proved to carry their own coordinates for positions inside it.
- RecursiveCircus.Circus.BuildDiscs: `set.pop` takes some element of the set of roots; the model takes a root of its own choosing and proves what holds of any root.
- Registers: the module-level `REGISTERS` dictionary is the field of a `Machine` object; a new machine starts with it empty, as the module does, and later runs carry it over.
- Trampolines.ExampleRule1 and Trampolines.ExampleRule2 are stated for the puzzle's five-offset list only.
- The extrapolation of 2018 day 12 (the sum grown by the same amount for fifty steps is assumed to keep growing so) is a heuristic; `SubterraneanSustainability.ExtrapolatedExact` states when it gives the true sum, not that it always does.

## Findings

| source | as written | input that shows it | evidently intended | confidence | as-written member | corrected member |
|---|---|---|---|---|---|---|
| 2018/day_5_alchemical_reduction.py:28 | `if not shortest or len(shortest) > len(reduced):` treats an empty reduction already kept as "nothing yet", and replaces it | polymer `babA`: without `b` it reacts to the empty string, without `a` to `bb`; the function returns `bb` | the shortest reduction over all unit types, here the empty string | not executed | AlchemicalReduction.AsWrittenMissesEmpty | AlchemicalReduction.FindShortestPolymer |
| 2018/day_14_chocolate_charts.py:15 | `if sv:` takes the index 0 returned by `num_of_recipes_made_for` for "not found" | `num` is `3` (any prefix of `3710`): it is found at index 0 on every board and the loop never returns | stop on any answer that is not `None`, returning 0 | not executed | ChocolateCharts.MadeForStartNeverAnswers | ChocolateCharts.MadeForAnswer |
| 2018/day_12_subterranean_sustainability.py:9 | the right padding tests `'#' in pots[-5:-1]`, leaving out the last pot, and each generation appends only `pots[-2]` | row `#....#` from pot 0 with the rule `..#.. => #`: the plant in pot 5 should give a plant in pot 5, but the step leaves it empty | pad when a plant is among the last five pots (`pots[-5:]`), so every plant keeps four empty pots to its right | not executed | SubterraneanSustainability.LostPlantExample | SubterraneanSustainability.RunSound |
