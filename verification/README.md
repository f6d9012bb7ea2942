# Verified model of TinyRcon's text library and registries

TinyRcon administers game servers. Its header `stl_helper_functions.hpp` holds a hand-written text and sequence
library; `game_server.h`, `autoupdate.h` and `tiny_rcon_client_application.h` hold the ban lists, the packing of program
versions and the user registry. This project models those pieces in Dafny and proves what they keep, where they agree
with each other, and exactly when they fail to.

Each loop of the source is a method with invariants, proved against a specification function; the laws are lemmas about
those functions. In-place editing is on `array`s, and the ban list and the user registry are classes.

| file | contents |
|---|---|
| `TextSearch.dfy` | `find`, `find_first_of`, the scan over needle parts |
| `Splitting.dfy`, `Joining.dfy` | `str_split`, the iterator-based `split`, `str_join`, and their laws |
| `Replacing.dfy` | `str_replace_all`, `str_replace_first_n`, capacity in `size_t` arithmetic |
| `FixedBuffer.dfy` | insert, prepend, append, erase and replace inside a NUL-terminated array |
| `Rearranging.dfy` | `stable_partition`, `stable_gather` |
| `LongestWord.dfy` | `find_first_sequence_of_allowed_elements`, `find_longest_word` |
| `Numbers.dfy` | `to_u32string`, `stoi` |
| `Comparing.dfy` | `str_compare` |
| `BanRegistry.dfy` | one ban list of the game server (the three lists have the same code) |
| `Versions.dfy` | the two `get_version_number` overloads |
| `UserRegistry.dfy` | `get_user_for_name`, `get_player_for_name` |
| `Wrappers.dfy` | result types, wrap-around of `size_t` and `unsigned long` |

Where the obvious contract does not hold, the code is modelled as it is and the exact condition is proved:

- `str_join` of no items with a non-empty glue throws, so the round trip excludes only the empty text.
- `str_replace_first_n` with count 0 replaces one needle.
- `stable_partition` returns the end for a single element that fails the predicate.
- `str_erase_n_chars` clamps with a sum that can wrap around in `size_t`; before the end of the text a count of `npos`
  is defined only at position 0. At the end of the text a count that wraps around copies the text's own tail behind
  it. A start behind the text is not refused: the returned count is wrapped.
- An empty needle part between separator tokens ends the splitting: only the parts listed before it are still taken
  off at the front, so with the parts "a" and "" the text "aab" becomes "", "" and "b". A one-character token leaves
  an empty part exactly when the needle starts or ends with it or holds two in a row.
- A text with an embedded NUL is cut short when it is inserted into an array. `str_compare` fails to be transitive exactly
  when both outer strings continue the middle one with a NUL and compare the other way behind it; 0 is not carried over
  the middle string exactly when both outer ones continue it with a NUL, differ, and neither continues the other so.
- `to_u32string` overruns its 32 slots for the smallest int in binary; `stoi` steps past the end of the text "0" in
  binary and hexadecimal. Both are preconditions of the methods.
- A ban removal also drops every vector entry behind the removed one. The evident intent, equal map and vector, is
  met exactly by removals of the last entry; the bans behind an earlier removal stay in the map, cannot be added again
  and are never reported.
- Packed version numbers order all versions with `major` up to m and the other fields up to b exactly when b is at most
  99 and m * 1000000 + b * 10101 stays below 2^32: every `major` up to 4293 with two-digit fields behind it. The update
  check (TinyRconClient/src/autoupdate.cpp:411-418) reads components of any length, so larger ones do reach the packing.
- Two player lookups can share an object without naming the same player: the cleaned name "bob_1.2.3.4" without a valid
  address has the key of "bob" at 1.2.3.4.

## Model

| member | source | states |
|---|---|---|
| TextSearch.StrFindFirstNeedlePosition | TinyRconClient/include/stl_helper_functions.hpp:10850-10869 | nothing occurs between the start and the reported position, the part found there is the one listed first among those that occur there, and "not found" means that no part occurs and comes with length 0 |
| TextSearch.EarliestIsUnique | TinyRconClient/include/stl_helper_functions.hpp:10857-10868 | at most one position and length meet that description, so the scan has one possible answer |
| TextSearch.FirstHitOfSingles | TinyRconClient/include/stl_helper_functions.hpp:10850-10869 | with the separator characters as one-character parts the scan finds what `std::find_first_of` finds |
| Splitting.BuildNeedleParts | TinyRconClient/include/stl_helper_functions.hpp:10979-11009 | the needle parts are the needle, its characters, or its keep-empties pieces between separator tokens |
| Splitting.StrSplit | TinyRconClient/include/stl_helper_functions.hpp:10893-11047 | for every text, needle, token, mode and `max_count`, the result is the first `max_count` pieces of the unlimited split (all of them when there are fewer), none of them empty when empties are ignored; the loop ends even when a needle part is empty |
| Splitting.SplitAtParts | TinyRconClient/include/stl_helper_functions.hpp:11011-11046 | the cutting loop alone, for any list of needle parts: the first `max_count` pieces of the split at those parts |
| Splitting.Split | TinyRconClient/include/stl_helper_functions.hpp:11223-11292 | the iterator ranges themselves, with the same limit: the first `max_count` ranges of the unlimited split, which denote the pieces that `StrSplit` returns without a separator token, none of them empty when empties are ignored |
| Splitting.NextSeparatorIsFirstHit | TinyRconClient/include/stl_helper_functions.hpp:11266-11285 | `std::search` and `std::find_first_of` advance to the position the needle-part scan of `str_split` finds, and the step is the length of the part found |
| Splitting.NeedlePartsIff | TinyRconClient/include/stl_helper_functions.hpp:10979-11009 | the needle parts are the needle itself, one part for each of its characters, or the one leftmost split of the needle at the token |
| Splitting.SplitAtIff | TinyRconClient/include/stl_helper_functions.hpp:11014-11046 | for any parts and both empty-piece settings, a list of ranges is the split if and only if it holds, from left to right, exactly the stretches around cuts each of which takes the earliest part (listed first on ties) behind the cut before it |
| Splitting.RangesOfIff | TinyRconClient/include/stl_helper_functions.hpp:11223-11292 | the same for every text, needle, token, mode and setting: nothing for an empty text, the single characters for an empty needle, and the stretches around the cuts at the needle parts otherwise |
| Splitting.PiecesOfIff | TinyRconClient/include/stl_helper_functions.hpp:10893-11047 | in every mode and setting the pieces of the unlimited split are what the text holds in exactly those ranges |
| Splitting.AllRangesDenote | TinyRconClient/include/stl_helper_functions.hpp:11223-11292 | in every mode the ranges lie inside the text and denote the pieces one by one |
| Splitting.PiecesConserve | TinyRconClient/include/stl_helper_functions.hpp:10893-11047 | in every mode, keeping empties, the pieces and the separators in turn are the text, and a separator is the needle, a character of it, or one of its parts between tokens |
| Splitting.IgnoreFiltersPieces | TinyRconClient/include/stl_helper_functions.hpp:11021-11030 | in every mode, ignoring empties returns the keep-empties pieces without the empty ones |
| Splitting.NonEmptyAppend | TinyRconClient/include/stl_helper_functions.hpp:11021-11030 | dropping the empty pieces is done piece by piece, so the order of the others stays |
| Splitting.AnyPartPiecesAreClean | TinyRconClient/include/stl_helper_functions.hpp:10893-11047 | no piece of an any-part split without a token holds a character of the needle, with either setting |
| Splitting.SplitConserves | TinyRconClient/include/stl_helper_functions.hpp:11014-11044 | with empties kept, for every list of needle parts, the pieces and the separators between them, taken in turn, are the text, and every separator is a non-empty needle part |
| Splitting.IgnoreDropsEmpties | TinyRconClient/include/stl_helper_functions.hpp:11021-11030 | ignoring empties gives the keep-empties pieces without the empty ones and changes nothing else |
| Splitting.PiecesOmitParts | TinyRconClient/include/stl_helper_functions.hpp:11014-11044 | unless a needle part is empty, no piece contains any part, with either empty-piece setting; this covers the multi-character parts between separator tokens |
| Splitting.EmptyPartStops | TinyRconClient/include/stl_helper_functions.hpp:11018-11019 | an empty part ends the splitting: only parts listed before it are taken off, one directly behind the other, and the last piece starts with none of them; ignoring empties leaves at most that piece |
| Splitting.EmptyPartLeavesIff | TinyRconClient/include/stl_helper_functions.hpp:11014-11044 | with an empty part, some text leaves a piece that contains a given non-empty part if and only if that part occurs in some text that starts with no part listed before the empty one |
| Splitting.FreeCharacterKeepsPart | TinyRconClient/include/stl_helper_functions.hpp:11014-11044 | a character that starts no part listed before the empty one, put in front of any part, gives a text that is not cut at all |
| Splitting.EmptyPieceIff | TinyRconClient/include/stl_helper_functions.hpp:10984-10999 | for every needle and token, a needle part is empty if and only if the needle ends, or goes on with the token, at its start or behind a token that was cut out |
| Splitting.EmptyNeedlePartIff | TinyRconClient/include/stl_helper_functions.hpp:10979-11009 | a one-character token leaves an empty needle part if and only if the needle is empty, starts or ends with the token, or holds two of them in a row |
| Splitting.AnyCharPiecesAreClean | TinyRconClient/include/stl_helper_functions.hpp:11003-11006 | splitting on any of some characters leaves none of them in a piece |
| Splitting.SplitCharacterised | TinyRconClient/include/stl_helper_functions.hpp:11014-11046 | the keep-empties whole-needle split is exactly the one list of pieces that joins up to the text with the needle leftmost after every piece but the last |
| Splitting.JoinUndoesSplit | TinyRconClient/include/stl_helper_functions.hpp:11334-11353 | `str_join` after a keep-empties whole-needle `str_split` gives the text back if and only if the text is non-empty or the needle is empty |
| Splitting.SplitUndoesJoinIff | TinyRconClient/include/stl_helper_functions.hpp:11014-11046 | the other way round: splitting a non-empty join gives the items back if and only if the glue is leftmost after every item but the last and does not occur in the last |
| Splitting.PiecesOmitNeedle | TinyRconClient/include/stl_helper_functions.hpp:11014-11046 | no piece of a whole-needle split contains the needle, with either empty-piece setting |
| Joining.StrJoin | TinyRconClient/include/stl_helper_functions.hpp:11334-11353 | the items with the glue between neighbours; no items give the empty text, or the out-of-range error of `erase` when the glue is not empty |
| Joining.StreamedIsJoinedPlusGlue | TinyRconClient/include/stl_helper_functions.hpp:11341-11350 | what the stream holds before the erase is the joined text and one glue too many |
| Joining.JoinAppend | TinyRconClient/include/stl_helper_functions.hpp:11334-11353 | joining two non-empty lists of items one after the other puts one glue between their joins |
| Joining.JoinAround | TinyRconClient/include/stl_helper_functions.hpp:11334-11353 | an item stands in the join of any items behind the join of those before it and one glue, and in front of one glue and the join of those after it |
| Replacing.CollectPositions | TinyRconClient/include/stl_helper_functions.hpp:5452-5463 | the collected positions are the leftmost non-overlapping occurrences, all of them or the first n (one even for n = 0) |
| Replacing.Rebuild | TinyRconClient/include/stl_helper_functions.hpp:5492-5505 | copying between the positions with the replacement at each of them |
| Replacing.StrReplaceAll | TinyRconClient/include/stl_helper_functions.hpp:5419-5510 | for a non-empty needle the untouched prefix followed by the pieces of the whole-needle split behind it joined with the replacement, with one replacement fewer than pieces, or the length error when that text is longer than a string can be; the text and 0 for an empty needle; the capacity is the length of the result plus one modulo 2^64 |
| Replacing.StrReplaceFirstN | TinyRconClient/include/stl_helper_functions.hpp:5848-5939 | the same with the replacement at the first n glues (at one even for n = 0) and the needle at the others |
| Replacing.PositionsAreSpaced | TinyRconClient/include/stl_helper_functions.hpp:5452-5463 | the collected positions ascend, do not overlap and stay inside the text, so the rebuilding slices are well formed |
| Replacing.SplicedLength | TinyRconClient/include/stl_helper_functions.hpp:5465-5466 | the characters taken out all come from the text (the unsigned subtraction never borrows), and the result length is what was left plus the replacements |
| Replacing.RequiredSizeIsExact | TinyRconClient/include/stl_helper_functions.hpp:5465-5466 | the capacity computed in wrapping `size_t` arithmetic is the length of the result plus one, modulo 2^64 |
| Replacing.ReplaceAllIsJoinOfSplit | TinyRconClient/include/stl_helper_functions.hpp:5419-5510 | replacing all needles from a start position is the untouched prefix followed by joining the split pieces with the replacement; the count is one less than the number of pieces |
| Replacing.ReplaceIsMixedJoin | TinyRconClient/include/stl_helper_functions.hpp:5848-5939 | replacing the first n needles is joining the split pieces with the replacement at the first n places and the needle itself at the others |
| Replacing.MixedJoinInTwo | TinyRconClient/include/stl_helper_functions.hpp:5921-5934 | laid open: the pieces up to the last replaced needle joined with the replacement, the replacement, and the other pieces joined with the needle |
| Replacing.MixedJoinOfAll | TinyRconClient/include/stl_helper_functions.hpp:5921-5934 | with a count that reaches the last glue the mixed join is the join with the replacement |
| Replacing.FirstNReachesAll | TinyRconClient/include/stl_helper_functions.hpp:5881-5892 | a count of at least the number of occurrences gives the result of `str_replace_all` |
| Replacing.CountIsHonouredIff | TinyRconClient/include/stl_helper_functions.hpp:5881-5892 | exactly min(n, occurrences) needles are replaced if and only if n is at least 1 or nothing occurs, because the loop tests n only after its first round |
| Replacing.ReplaceByItself | TinyRconClient/include/stl_helper_functions.hpp:5848-5939 | replacing needles by the needle gives the text back, for every count and start |
| Replacing.TwoStagesReplaceAll | TinyRconClient/include/stl_helper_functions.hpp:5848-5939 | replacing the first n needles and then all the others, resuming behind the last one replaced, gives the result of `str_replace_all`; the text behind the resuming point is the original one |
| FixedBuffer.LenOf | TinyRconClient/include/stl_helper_functions.hpp:758-772 | the index of the first NUL, or the capacity when there is none |
| FixedBuffer.StrInsert | TinyRconClient/include/stl_helper_functions.hpp:3541-3578 | all cells of the array after the call: unchanged for the size query and for each rejection, and otherwise the head, as many source characters as fit in front of the NUL, the tail, the NUL, and the old cells behind it |
| FixedBuffer.StrPrepend | TinyRconClient/include/stl_helper_functions.hpp:3200-3239 | the same cells and count as `StrInsert` at position 0, with its own answer to the size query |
| FixedBuffer.StrAppend | TinyRconClient/include/stl_helper_functions.hpp:2863-2898 | the same cells and count as `StrInsert` at the end of the text, with its own answer to the size query |
| FixedBuffer.TextAfterInsert | TinyRconClient/include/stl_helper_functions.hpp:3569-3577 | the text read back after an insertion; an embedded NUL in the inserted part cuts it short |
| FixedBuffer.StrEraseNChars | TinyRconClient/include/stl_helper_functions.hpp:6377-6395 | all cells of the array after the call, the returned count and the required capacity, in plain numbers, for every start and count on which the calls are defined: sums that wrap around and starts behind the text included |
| FixedBuffer.TailAndNul | TinyRconClient/include/stl_helper_functions.hpp:6384-6392 | in wrapping `size_t` arithmetic the copied tail starts at the wrapped sum of start and n or at the end of the text, and the NUL goes right behind the copied tail |
| FixedBuffer.ErasesInText | TinyRconClient/include/stl_helper_functions.hpp:6384-6392 | for a start in the text and a sum that does not wrap around, the call is defined and cuts out n characters, clamped to the end of the text |
| FixedBuffer.TextAfterEraseBehind | TinyRconClient/include/stl_helper_functions.hpp:6384-6392 | for a start behind the text the text stays, whatever the count; at the end of the text a count that wraps around appends the tail from the wrapped sum on |
| FixedBuffer.TextAfterErase | TinyRconClient/include/stl_helper_functions.hpp:6385-6394 | the text read back after erasing is the text without the clamped stretch |
| FixedBuffer.ErasedCountIsClampedIff | TinyRconClient/include/stl_helper_functions.hpp:6384-6385 | for every start, length and n, the count is the number of characters behind the start and at most n if and only if the start lies in the text and `start + n` does not wrap around in `size_t` |
| FixedBuffer.ErasedCountInNumbers | TinyRconClient/include/stl_helper_functions.hpp:6384-6385 | the count in numbers that do not wrap around, for every start and n: n itself when the reduced sum does not pass the end, else what is left of the text, or the borrowed difference behind it |
| FixedBuffer.ErasedCountBehindText | TinyRconClient/include/stl_helper_functions.hpp:6384-6392 | for a start behind the text the subtraction borrows: the count takes the start back to the end of the text, so nothing is copied and the NUL goes to the start |
| FixedBuffer.EraseUndoesInsertIff | TinyRconClient/include/stl_helper_functions.hpp:6377-6395 | erasing at the insertion point as many characters as were inserted restores the text if and only if the inserted part holds no NUL or went to the end |
| FixedBuffer.InsertThenErase | TinyRconClient/include/stl_helper_functions.hpp:3541-3578 | on the array itself: inserting, also partially, and then erasing the returned count restores the text if and only if the insertion was rejected, the part that fitted holds no NUL, or it went to the end |
| FixedBuffer.StrReplaceFirst | TinyRconClient/include/stl_helper_functions.hpp:3920-4006 | when the capacity suffices and the needle is found, the array holds the text with that one needle replaced, a NUL, and the old cells behind it; otherwise the array is unchanged and 0 is returned |
| FixedBuffer.FirstOfOne | TinyRconClient/include/stl_helper_functions.hpp:3966-4003 | cutting one needle out by shifting agrees with the position-collecting replacement limited to one |
| FixedBuffer.StrReplaceAllInPlace | TinyRconClient/include/stl_helper_functions.hpp:5093-5187 | if the wrapped capacity exceeds the array, the array is unchanged and 0 is returned; otherwise the array holds the text of the string version, a NUL and the old cells behind it, with the same count, or the text is longer than a string can be, which is the length error, and the array is unchanged |
| Rearranging.StablePartition | TinyRconClient/include/stl_helper_functions.hpp:11549-11587 | for every range and predicate: what satisfies the predicate stands in front of the returned position and the rest behind it, each group from strictly ascending places of the old range and every element once; a single element stays and its end is returned; nothing outside the range changes |
| Rearranging.PartitionPass | TinyRconClient/include/stl_helper_functions.hpp:11561-11586 | one pass moves the kept elements forward and the queued ones behind them and touches nothing outside the range |
| Rearranging.SelectIsStable | TinyRconClient/include/stl_helper_functions.hpp:11540-11546 | each group is taken from strictly ascending places of the input and misses no place that belongs to it |
| Rearranging.PartitionedIsSound | TinyRconClient/include/stl_helper_functions.hpp:11549-11587 | the outcome is a permutation, and an element satisfies the predicate if and only if it stands in front of the boundary |
| Rearranging.StableSplitIff | TinyRconClient/include/stl_helper_functions.hpp:11549-11587 | there is exactly one stable split of a range with one boundary, and it is what one pass makes |
| Rearranging.PartitionedIsIdempotent | TinyRconClient/include/stl_helper_functions.hpp:11549-11587 | partitioning a second time changes nothing |
| Rearranging.PartitionPointIsBoundaryIff | TinyRconClient/include/stl_helper_functions.hpp:11552-11555 | the returned position is the boundary if and only if the range is not a single element that fails the predicate |
| Rearranging.StableGather | TinyRconClient/include/stl_helper_functions.hpp:11636-11702 | for every range, target and binary predicate: the target stays, what matches it is next to it between the returned positions, each of the four groups comes from strictly ascending places on its side of the target, and nothing outside the range changes; with the target at the end nothing changes |
| Rearranging.GatheredIsSound | TinyRconClient/include/stl_helper_functions.hpp:11636-11702 | the target stays in place, the outcome is a permutation, and the returned pair bounds exactly the target and the elements that match it on either side |
| Rearranging.GatheredIsStable | TinyRconClient/include/stl_helper_functions.hpp:11636-11702 | the result of the two passes has each of the four groups in its old order and carries nothing over the target |
| LongestWord.FindFirstSequence | TinyRconClient/include/stl_helper_functions.hpp:1665-1721 | the first maximal run of allowed elements, or the empty range at the end, on each of the three membership paths |
| LongestWord.FindLongestWord | TinyRconClient/include/stl_helper_functions.hpp:1745-1790 | a run of allowed elements than which no allowed stretch is longer and none as long starts earlier; the haystack keeps its elements and is sorted when it can be |
| LongestWord.LeftmostLongestIsUnique | TinyRconClient/include/stl_helper_functions.hpp:1745-1790 | only one range meets that description, so the answer depends on the set of allowed elements and not on the membership path |
| LongestWord.LeftmostLongestBeats | TinyRconClient/include/stl_helper_functions.hpp:1745-1790 | the range holds allowed elements only, and any other stretch of allowed elements is shorter, or as long and not in front of it |
| LongestWord.PathsAgree | TinyRconClient/include/stl_helper_functions.hpp:1665-1721 | haystacks with the same elements give the same word, whether they have `find`, can be sorted, or are searched linearly |
| LongestWord.BinarySearch | TinyRconClient/include/stl_helper_functions.hpp:1692-1706 | on a sorted haystack binary search finds an element if and only if it is there |
| Numbers.ToU32String | TinyRconClient/include/stl_helper_functions.hpp:8661-8766 | the digit text of every 32-bit int whose digits and NUL fit, with every write inside the 32 slots |
| Numbers.DigitsFitIff | TinyRconClient/include/stl_helper_functions.hpp:8667-8754 | digits and NUL fit in the 32 slots for every int and base except the smallest int in binary, and not for that one |
| Numbers.Stoi | TinyRconClient/include/stl_helper_functions.hpp:8862-8984 | the value of the digits behind spaces and prefix with no intermediate `int` overflow, and the reported position, which lies one behind an invalid character |
| Numbers.PrefixOverrunsIff | TinyRconClient/include/stl_helper_functions.hpp:8900-8922 | the prefix test steps past the end of the text if and only if the text is "0" and the base is binary or hexadecimal |
| Numbers.RoundTripIff | TinyRconClient/include/stl_helper_functions.hpp:8661-8984 | for every 32-bit int, base and space setting, parsing the printed digits is defined, and gives the number back if and only if it is not negative; a positive number never prints a leading 0 |
| Numbers.DigitAtPlace | TinyRconClient/include/stl_helper_functions.hpp:8738-8754 | the printed digit k places from the right is the number divided by the k-th power of the base, modulo the base, in upper case |
| Numbers.DigitCountIsExact | TinyRconClient/include/stl_helper_functions.hpp:8738-8754 | there are exactly as many digits as the number needs |
| Numbers.NegativeDigitsMirror | TinyRconClient/include/stl_helper_functions.hpp:8738-8754 | a negative number prints as many characters as its opposite, each as far below '0' as that digit stands for |
| Numbers.TwentySix | TinyRconClient/include/stl_helper_functions.hpp:8667-8754 | 26 prints as 11010, 32, 26 and 1A |
| Numbers.DigitValueIff | TinyRconClient/include/stl_helper_functions.hpp:8926-8979 | a character has a value exactly when it stands there among the base's digits, in upper or lower case |
| Numbers.ReadsWhatIsWritten | TinyRconClient/include/stl_helper_functions.hpp:8862-8984 | spaces if they are ignored, any prefix of the base or none, zeros and the digits of a number in either letter case, followed by anything that is no digit, are read as the number, and the call is defined if and only if the number fits in an `int` |
| Comparing.StrCompare | TinyRconClient/include/stl_helper_functions.hpp:2223-2248 | the comparison result for all strings, embedded NULs included |
| Comparing.CompareIsFirstDifference | TinyRconClient/include/stl_helper_functions.hpp:2236-2247 | a non-zero result is the difference at the first place where the NUL-terminated forms differ |
| Comparing.CompareIsAntisymmetric | TinyRconClient/include/stl_helper_functions.hpp:2223-2248 | swapping the strings negates the result exactly |
| Comparing.CompareIsZeroIff | TinyRconClient/include/stl_helper_functions.hpp:2223-2248 | the result is 0 if and only if the strings are equal or one goes on with a NUL where the other ends |
| Comparing.TransitivityFailsIff | TinyRconClient/include/stl_helper_functions.hpp:2223-2248 | for all strings with a ≤ b ≤ c, a > c if and only if a and c both continue b with a NUL and compare as greater behind those NULs |
| Comparing.CompareIsTransitive | TinyRconClient/include/stl_helper_functions.hpp:2223-2248 | the order is transitive unless both outer strings continue the middle one with a NUL |
| Comparing.NulFreeOrder | TinyRconClient/include/stl_helper_functions.hpp:2223-2248 | on strings without NULs the order is transitive, negative characters included, and 0 in a chain means equality |
| Comparing.EmbeddedNulBreaksTransitivity | TinyRconClient/include/stl_helper_functions.hpp:2223-2248 | the strings [0, 2], [] and [0] meet the exact condition, so transitivity fails on them |
| Comparing.FailureNeedsThreeCharacters | TinyRconClient/include/stl_helper_functions.hpp:2223-2248 | no strings with fewer than three characters in all make transitivity fail |
| Comparing.EqualToBoth | TinyRconClient/include/stl_helper_functions.hpp:2223-2248 | strings that both continue a middle one with a NUL compare as 0 with it, and as different from each other unless they are equal or one continues the other with a NUL |
| Comparing.ZeroIsCarriedOverIff | TinyRconClient/include/stl_helper_functions.hpp:2223-2248 | for all strings with the result 0 between a and b and between b and c, a and c compare as different if and only if both continue b with a NUL, differ, and neither continues the other with a NUL |
| BanRegistry.BanList.AddIpAddress | TinyRconClient/include/game_server.h:512-520 | whether the address was new, and the whole new state of map and vector |
| BanRegistry.BanList.RemoveIpAddress | TinyRconClient/include/game_server.h:522-533 | whether the address was there, and the whole new state: one key leaves the map and no other changes, the vector is cut at the first entry with the address |
| BanRegistry.BanList.GetBannedPlayerData | TinyRconClient/include/game_server.h:421-436 | the first vector entry with the address, or none |
| BanRegistry.AddKeepsSoundIff | TinyRconClient/include/game_server.h:512-520 | from a sound state, an addition that takes effect keeps the state sound if and only if the record carries its key as address or is the map's own record for a ban that the vector has lost |
| BanRegistry.RunKeepsSound | TinyRconClient/include/game_server.h:483-568 | from a sound state, over every run of additions and removals with records keyed by their address, every vector entry is the map's record and no address appears twice |
| BanRegistry.LookupIsSound | TinyRconClient/include/game_server.h:421-436 | after every such run a reported player is the map's record for the address |
| BanRegistry.RemovedIsNotReported | TinyRconClient/include/game_server.h:522-533 | a removed address is not reported by any later lookup until it is added again |
| BanRegistry.RemovalHides | TinyRconClient/include/game_server.h:527-531 | a removal hides exactly the addresses listed at or behind the removed entry |
| BanRegistry.StepStaysInStepIff | TinyRconClient/include/game_server.h:494-505 | from a state in which map and vector agree, they agree after a step if and only if it is not a removal of an entry other than the last |
| BanRegistry.RunStaysInStepIff | TinyRconClient/include/game_server.h:483-568 | map and vector agree after every operation of a run if and only if each of its removals hits nothing or the entry that is last at that moment |
| BanRegistry.EarlyRemovalLosesLast | TinyRconClient/include/game_server.h:527-531 | removing any other entry leaves the last ban in the map but invisible to the lookup |
| BanRegistry.RemovalLosesIff | TinyRconClient/include/game_server.h:522-533 | from a state in step, a removal loses exactly the bans listed behind the removed one: the map keeps them with their records and the lookup does not report them |
| BanRegistry.LostStaysLost | TinyRconClient/include/game_server.h:512-533 | such a ban cannot be added again and stays invisible over every run that does not remove its own address |
| BanRegistry.RunReportsIff | TinyRconClient/include/game_server.h:421-533 | after any run of well-keyed operations a player is reported for an address if and only if some operation added that record and no later one removed an entry listed at or before it |
| BanRegistry.ReportedIff | TinyRconClient/include/game_server.h:421-533 | the same after every prefix of the run |
| BanRegistry.BannedIff | TinyRconClient/include/game_server.h:483-533 | after every prefix of any run the map holds an address if and only if some operation added it and no later one removed it, whatever the vector has lost |
| Versions.GetVersionNumber | TinyRconClient/include/autoupdate.h:42-53 | the four fields spelled in base 100, reduced to 32 bits, for all int fields |
| Versions.GetVersionNumberOfFile | TinyRconClient/include/autoupdate.h:55-72 | for every file name, the maximal digit runs folded in base 100 with 32-bit wrap-around, or the out-of-range error of `stoul` |
| Versions.ScanStep | TinyRconClient/include/autoupdate.h:59-69 | each round of the scan takes exactly the next maximal digit run and loses none behind it |
| Versions.GroupsOfName | TinyRconClient/include/autoupdate.h:59-69 | on names with any number of digit groups the scan finds exactly the groups, whatever digit-free text stands before, between and behind them, none at the ends included |
| Versions.FileVersionOfName | TinyRconClient/include/autoupdate.h:55-72 | for every name the file-name overload gives the base-100 spelling, modulo 2^32, of the numbers its groups show in decimal, zeros in front or not, or the error of `stoul` exactly when one of them exceeds 2^32 - 1 |
| Versions.EveryFileVersion | TinyRconClient/include/autoupdate.h:55-72 | every name there is consists of digit groups and gaps, so that result holds for all of them |
| Versions.DecimalValueIff | TinyRconClient/include/autoupdate.h:67 | a digit text is read as a number if and only if it is that number printed in decimal, perhaps with zeros in front |
| Versions.OverloadsAgree | TinyRconClient/include/autoupdate.h:42-72 | the file-name overload gives every version with non-negative fields, printed with any zeros, gaps, prefix and suffix, the number the other overload gives its fields; this covers the bare "a.b.c.d" strings that the update check hands over |
| Versions.TwoDigitComponents | TinyRconClient/include/autoupdate.h:42-72 | with components of at most two digits that number is the spelling of the fields itself, below 10^8 |
| Versions.OrderHoldsIff | TinyRconClient/include/autoupdate.h:42-53 | for all bounds, numeric order is version order on every two versions within the bounds if and only if the fields behind `major` are at most 99 and the largest version spells a number below 2^32 |
| Versions.NumberOrderIsVersionOrder | TinyRconClient/include/autoupdate.h:42-53 | for any two versions whose fields behind `major` are at most 99 and whose spellings stay below 2^32, numeric order is version order and equal numbers mean equal versions |
| Versions.OverfullFieldCollides | TinyRconClient/include/autoupdate.h:42-53 | a field behind `major` above 99 gives the version the number of a later one, for each of the three fields and all other fields |
| Versions.LargeMajorBreaksOrder | TinyRconClient/include/autoupdate.h:42-53 | when the largest version within the bounds spells 2^32 or more, numeric order is not version order within the bounds |
| Versions.OverfullFieldBreaksOrder | TinyRconClient/include/autoupdate.h:42-53 | when the fields behind `major` may exceed 99, numeric order is not version order within the bounds |
| Versions.DecimalValueBound | TinyRconClient/include/tiny_rcon_client_application.h:115 | a component of one or two digits, as in the file pattern, is at most 99 |
| UserRegistry.Registry.GetUserForName | TinyRconClient/include/tiny_rcon_client_application.h:994-1006 | the object registered under the cleaned name itself; a new one is appended and indexed only when the key is new, and nothing else changes |
| UserRegistry.Registry.GetPlayerForName | TinyRconClient/include/tiny_rcon_client_application.h:1024-1039 | the same for players, with the address appended to the key when it is valid |
| UserRegistry.Registry.PlayerKeysEqualIff | TinyRconClient/include/tiny_rcon_client_application.h:1026-1029 | exactly which two player lookups share an object, given that valid addresses hold no underscore: a cleaned name that ends in an underscore and an address, looked up without a valid address, is the shorter name at that address |
| UserRegistry.Registry.PlayersCollide | TinyRconClient/include/tiny_rcon_client_application.h:1026-1029 | when "bob" and "bob_1.2.3.4" are clean names, the lookup of "bob_1.2.3.4" without a valid address has the key of "bob" at 1.2.3.4 |
| UserRegistry.GrowsInStep | TinyRconClient/include/tiny_rcon_client_application.h:998-1003 | a new object under a new key keeps list and index in bijection |
| UserRegistry.Registry.Serve | TinyRconClient/include/tiny_rcon_client_application.h:994-1039 | over every run of lookups list and index stay in bijection, nobody is dropped, and two lookups return the same object if and only if they are of the same kind with equal keys: for users, equal cleaned names; for players with valid addresses without underscores, equal cleaned names and equal addresses |

## Left out

- Character types, null pointers, locales and case folding: one character type, no null arguments, case-sensitive search.
- The overloads on pointers with a separate capacity, the `const` string overload of `str_replace_all` and `str_split_range`: they repeat the modelled bodies.
- Aliasing between a destination array and its needle, replacement or source text: those are values here.
- FixedBuffer.StrReplaceAllInPlace: demands an array no larger than any C++ object can be; running out of memory is not modelled.
- FixedBuffer.StrInsert: the sum of two object lengths is not wrapped, since no object exceeds half the `size_t` range; a partial insertion that gets as far as the source's subtraction demands a NUL-terminated array there.
- FixedBuffer.StrPrepend: the sum of two object lengths is not wrapped, since no object exceeds half the `size_t` range; a partial prepending that gets as far as the source's subtraction demands a NUL-terminated array there.
- FixedBuffer.StrAppend: the sum of two object lengths is not wrapped, since no object exceeds half the `size_t` range; a partial appending that gets as far as the source's subtraction demands a NUL-terminated array there.
- FixedBuffer.StrEraseNChars: demands room for the tail and its NUL, and for a start before the end of the text a sum with n that does not wrap around (`std::copy` would copy a stretch over itself to the right, which C++ leaves undefined); pointer sums are taken modulo the address space.
- Replacing.StrReplaceAll: demands a text no longer than any C++ object can be; running out of memory is not modelled.
- Replacing.StrReplaceFirstN: demands a text no longer than any C++ object can be; running out of memory is not modelled.
- `FixedBuffer.InsertThenErase` has no counterpart in the source: it makes the two calls in turn to state the law on the array.
- `std::sort`, `std::binary_search`, `std::copy`, `std::copy_backward`, `std::reverse` and `find` are modelled by bodies with the documented effect, not by a particular library's code.
- Predicates that keep state or change elements, and moved-from element values: predicates are pure functions and elements are values.
- Numbers.ToU32String: the modes that prepend or append a base sign are not modelled.
- Numbers.Stoi: demands a call whose behaviour C++ defines (a first character behind the spaces, a prefix inside the text, a value within `int`).
- `str_replace_last_n`, the in-place string `str_insert`, `str_erase_nth`, `str_compare_n` and `find_last_any_of`.
- BanRegistry.BanList.GetBannedPlayerData: the null out-pointer and the address-range lookup are not modelled; changes through the reference getters are not part of a run.
- UserRegistry.Registry.PlayerKeysEqualIff: that valid addresses hold no underscore is a precondition; the validity test (TinyRconClient/src/tiny_rcon_utility_functions.cpp:1184-1210) admits digits, dots and spaces only.
- UserRegistry.Registry: name cleaning and address validity are function parameters; callers that assign through the returned reference are not modelled.
- `UserRegistry.Registry.Serve` has no counterpart in the source: it is the loop over arbitrary lookups that states the law for whole runs.
- The user interface, networking, database, file transfer, MD5 and statistics code.
