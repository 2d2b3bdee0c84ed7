# Algorithms on Strings, modelled in Dafny

This project models the string algorithms of the course repository
"Algorithms on Strings" and proves the properties they promise. The
repository has several solutions to each exercise. Variant files share
most code, so the model has one module per component, not one per file.
Each module says which files share its code.

- **Tries and pattern matching** (`week_1/trie.py`, `trie_matching.py`,
  `trie_matching_extended.py`)
  - `Trie`, `TrieMatching`, `TrieMatchingExtended` model these.
  - A trie is a sequence of edge maps indexed by node label.
  - Ghost node strings, paired with the edge maps, carry the proofs.
- **Suffix trees**
  - `SuffixTree` models the suffix tree built by inserting each suffix
    (`week_1/suffix_tree.py`).
  - `SuffixTreeDebug` models the edge splits of the debugging variant one
    step at a time (`week_1/suffix_tree_debug.py`).
  - `SuffixTreeOrder` models the suffix array read off a suffix tree by a
    pre-order traversal (`week_2/suffix_array_stree.py`).
  - `SuffixTreeFromArray` models the suffix tree built from a suffix array
    and its LCP array (`weeks_3_4/suffix_tree_from_array.py`).
  - `SuffixTreeSpec` holds the shared tree predicates.
- **Burrows–Wheeler transform**
  - `BurrowsWheeler` models the transform by sorted cyclic rotations
    (`week_2/bwt.py`) and the transform read from a suffix array
    (`bwt_from_suffix_array.py`).
- **Suffix arrays**
  - `NaiveSuffixArray` models sorting the suffixes.
  - `CharacterSort` models the counting sort of single characters.
  - `PrefixDoubling` models the character classes, the doubled sort and
    the class update.
  - `SuffixArray` models the builders over them.
  - `suffix_array_long.py`, `bwt_from_suffix_array.py`,
    `suffix_array_matching.py` and `suffix_array_matching_with_bwt.py`
    carry the same doubling code.
- **Inverse transform**
  - `LastToFirst` models the last-to-first mapping and the backward walk.
  - `Starts` models the counting sort of the last column.
  - `InverseMatrix` models the matrix-of-entries inversions:
    `bwtinverse.py`, `bwtinverse_count.py`,
    `bwtinverse_count_improved.py`, `bwtinverse_numpy_2.py`.
  - `RankedWalk` models `bwtinverse_fast.py`.
  - `ColumnRebuild` models the column-by-column rebuild of
    `bwtinverse_naive.py`.
- **Backward search (FM index)**
  - `BackwardSearch` defines the narrowing step that every
    `count_occurrences` variant performs.
  - `SearchStarts` models the two ways the variants compute first rows.
  - `OccurrenceTables` models each variant's occurrence-count table.
  - `BackwardCount` models each variant's counting loop.
  - The variants are `bwmatching_1.py`, `bwmatching_7.py` and
    `bwtmatching_8.py` to `bwtmatching_15.py`.
- **Locating matches**
  - `LocateWithBwt` models backward search combined with the suffix array
    (`suffix_array_matching_with_bwt.py`).
  - `SuffixArraySearch` models binary search over the suffix array
    (`suffix_array_matching.py`).
- **Knuth–Morris–Pratt**
  - `KnuthMorrisPratt` models the prefix function and matching over
    `pattern + '$' + text` (`kmp.py`).
- **Shared vocabulary**
  - `StringSpec`: lexicographic order, counts, suffixes, rotations,
    permutations.
  - `Sorting`: a reference insertion sort and map.
  - `CountingSort`: stable destinations.

Dafny's `string` is `seq<char>`, and `<` on `char` is the code-point order
that Python's string comparison uses. A text is `Terminated` when it is
non-empty, ends in `'$'`, and every other character is greater than `'$'`.
The main programs establish this by appending `'$'`.

Python loops are modelled as Dafny `for` and `while` loops over sequences or arrays.
Each loop is proved against a specification function. Python dicts become
`map`s. Lists indexed by the letters of `"$ACGT"` become `seq`s. The numpy
buffer of `bwtmatching_15.py` becomes an `array2`. Node objects become
entries of a sequence indexed by node number.

## Model

| member | source | states |
|---|---|---|
| BurrowsWheeler.Rotations | week_2/bwt.py:4-9 | entry i is the cyclic rotation of the text starting at i, and every entry has the text's length |
| BurrowsWheeler.CyclicRotations | week_2/bwt.py:4-9 | the loop that builds the rotations returns exactly the list of all cyclic rotations |
| BurrowsWheeler.SortRotations | week_2/bwt.py:12-14 | the sorted rotations are in non-decreasing order and are a rearrangement of the input list |
| BurrowsWheeler.SortedMatrix | week_2/bwt.py:12-14 | the Burrows–Wheeler matrix is sorted, is a permutation of the rotations, and every row has the text's length |
| BurrowsWheeler.ExtractLastColumn | week_2/bwt.py:17-21 | entry i of the result is the last character of row i of the matrix |
| BurrowsWheeler.Bwt | week_2/bwt.py:24-28 | the result is the last column of the sorted rotation matrix and has the same characters as the text |
| BurrowsWheeler.BwtCounts | week_2/bwt.py:24-28 | the transform is a rearrangement of the text's characters |
| BurrowsWheeler.LastColumnOfRotations | week_2/bwt.py:17-21 | before sorting, the last characters of the rotations spell the text rotated right by one |
| BurrowsWheeler.BwtFromSuffixArray | week_2/bwt_from_suffix_array.py:91-93 | entry i is the character before the suffix-array position, cyclically, which is the last character of that rotation |
| BurrowsWheeler.SuffixArrayLastColumn | week_2/bwt_from_suffix_array.py:91-93 | reading `text[pos - 1]` gives the last column of the rotations taken in suffix-array order |
| BurrowsWheeler.BwtFromSuffixArrayCounts | week_2/bwt_from_suffix_array.py:91-93 | for any permutation of positions, the result rearranges the text's characters |
| BurrowsWheeler.SuffixArrayMatrix | week_2/bwt_from_suffix_array.py:73-88 | for a '$'-terminated text, the rotations in suffix-array order are exactly the sorted rotation matrix |
| BurrowsWheeler.BwtFromSuffixArrayIsBwt | week_2/bwt_from_suffix_array.py:91-93 | for a '$'-terminated text, the transform read from the suffix array equals the transform by sorted rotations |
| NaiveSuffixArray.CreateSuffixes | week_2/suffix_array_naive.py:4-8 | entry i pairs the suffix starting at i with i |
| NaiveSuffixArray.NaiveSuffixArrayOf | week_2/suffix_array_naive.py:11-22 | sorting the (suffix, start) pairs and keeping the starts gives a suffix array: every position once, suffixes strictly increasing |
| NaiveSuffixArray.BuildNaiveSuffixArray | week_2/suffix_array_naive.py:11-22 | the method returns the suffix array of the text |
| NaiveSuffixArray.SortedStarts | week_2/suffix_array_naive.py:20-21 | any ordered rearrangement of the (suffix, start) pairs yields a suffix array |
| CharacterSort.IndexOf | week_2/suffix_array_long.py:14-34 | the index returned for a letter holds that letter in the alphabet |
| CharacterSort.StableCharSortMeaning | week_2/suffix_array_long.py:14-34 | a stable character sort is a permutation of the positions, ordered by character, with equal characters in position order |
| CharacterSort.StableCharSortUnique | week_2/suffix_array_long.py:14-34 | the stable character order of a text is unique |
| CharacterSort.TallyByList | week_2/suffix_array_long.py:22-23 | after the tally, each letter's counter is its number of occurrences in the text |
| CharacterSort.AccumulateByList | week_2/suffix_array_long.py:25-26 | after the running sum, each letter's counter is the number of characters up to and including that letter |
| CharacterSort.SortCharacters | week_2/suffix_array_long.py:14-34 | the list-indexed counting sort returns the stable character order of the text |
| CharacterSort.TallyByDict | week_2/suffix_array_long.py:37-55 | the dict-keyed tally counts each letter's occurrences |
| CharacterSort.AccumulateByDict | week_2/suffix_array_long.py:37-55 | the dict-keyed running sum gives each letter the number of characters up to and including it |
| CharacterSort.SortCharactersByDict | week_2/bwt_from_suffix_array.py:12-27 | the dict-keyed counting sort over a sorted alphabet returns the stable character order of the text |
| PrefixDoubling.ComputeCharClasses | week_2/suffix_array_long.py:58-66 | classes start at 0 and go up by one exactly where the sorted character changes |
| PrefixDoubling.CharClassesRank | week_2/suffix_array_long.py:58-66 | after the character sort and its classes, the order is sorted by one-symbol windows and the classes rank them |
| PrefixDoubling.ClassTotals | week_2/suffix_array_long.py:69-83 | the class counters hold, for each class, the number of positions in classes up to and including it |
| PrefixDoubling.SortDoubled | week_2/suffix_array_long.py:69-83 | the new order is the stable counting sort, by class, of the positions shifted back by the window length |
| PrefixDoubling.PlaceShifted | week_2/suffix_array_long.py:78-82 | the backward scatter loop places every shifted position at its stable slot |
| PrefixDoubling.ShiftPermutation | week_2/suffix_array_long.py:76-77 | shifting a permutation of positions back by the window length cyclically gives a permutation |
| PrefixDoubling.DoubledSorted | week_2/suffix_array_long.py:69-83 | if the order is sorted by windows of length L and the classes rank them, the doubled sort is sorted by windows of length 2L |
| PrefixDoubling.UpdateClasses | week_2/suffix_array_long.py:86-98 | classes go up by one between neighbours in the new order exactly where the pair (class, class of the position L ahead) differs |
| PrefixDoubling.ClassAt | week_2/suffix_array_long.py:92-96 | one step of the class update extends the staircase of classes by one row |
| PrefixDoubling.PairDiffersMeaning | week_2/suffix_array_long.py:92-96 | the class pairs differ exactly when the cyclic windows of length 2L differ |
| PrefixDoubling.DoubledClasses | week_2/suffix_array_long.py:86-98 | the updated classes rank the windows of length 2L |
| PrefixDoubling.CycSplit | week_2/suffix_array_long.py:111-115 | a window of length 2L is the window of length L followed by the window of length L that starts L ahead |
| PrefixDoubling.SortedRotations | week_2/suffix_array_long.py:111-115 | once the window length reaches the text length, sorted by windows means sorted by cyclic rotations |
| PrefixDoubling.DoublingRounds | week_2/suffix_array_long.py:111-115 | the doubling loop ends with every position once, in non-decreasing order of cyclic rotation |
| SuffixArray.BuildSuffixArray | week_2/suffix_array_long.py:101-116 | the builder sorts the cyclic rotations; for a one-letter text it returns [0]; for a '$'-terminated text the result is the suffix array |
| SuffixArray.BuildSuffixArrayOver | week_2/bwt_from_suffix_array.py:73-88 | the same, for the alphabet given by the caller |
| SuffixArray.BuildSuffixArrayTail | weeks_3_4/suffix_array_matching.py:71-86 | dropping the first entry leaves the rest of a cyclic order; for a '$'-terminated text, the last position followed by the result is the suffix array |
| SuffixArray.TerminatedSuffixArray | week_2/suffix_array_long.py:101-116 | for a '$'-terminated text, any order sorted by cyclic rotation is the suffix array |
| SuffixArray.BuildersAgree | week_2/suffix_array_naive.py:11-22 | for a '$'-terminated text, the doubling builder and the naive builder give the same array |
| SuffixArray.DollarFirst | weeks_3_4/suffix_array_matching.py:86 | the suffix array of a '$'-terminated text starts with the position of '$' |
| SuffixArray.SuffixOrderDecided | week_2/suffix_array_long.py:101-116 | in a '$'-terminated text, two suffixes in order put their rotations in the same order |
| SuffixArray.RotationVsSuffix | week_2/suffix_array_long.py:101-116 | in a '$'-terminated text, comparing rotations at two distinct positions gives the same answer as comparing their suffixes |
| LastToFirst.LF | week_2/bwtinverse.py:49-65 | the last-to-first map sends row r to the stable sorted slot of the r-th last-column character |
| LastToFirst.LFPermutation | week_2/bwtinverse.py:49-65 | the last-to-first map is a permutation of the rows |
| LastToFirst.FirstColumn | week_2/bwtinverse.py:23 | the first column is sorted and has the same characters as the last column |
| LastToFirst.InBlock | week_2/bwtinverse.py:32-43 | row r's image lies in the block of the sorted column holding its character |
| LastToFirst.FirstColumnAtLF | week_2/bwtinverse.py:32-43 | the first column at LF(r) holds the last-column character of row r, with the same rank among its copies |
| LastToFirst.Walk | week_2/bwtinverse.py:57-62 | every step of the walk from the top row stays inside the matrix |
| LastToFirst.InverseOf | week_2/bwtinverse.py:49-65 | the text spelled by walking back from the top row has the transform's length |
| LastToFirst.InverseFromBack | week_2/bwtinverse.py:57-62 | the i-th character from the end of the inverse is the first-column character at step i of the walk |
| LastToFirst.InverseEnd | week_2/bwtinverse.py:49-65 | the inverse ends with the first character of the sorted column |
| LastToFirst.LFOnSuffixArray | week_2/bwtinverse.py:49-65 | for a '$'-terminated text, LF moves a suffix-array row to the row of the suffix one position earlier |
| LastToFirst.FirstColumnOfTerminated | week_2/bwtinverse.py:23 | for a '$'-terminated text, the sorted column at row q is the text character at the q-th suffix |
| LastToFirst.WalkSpells | week_2/bwtinverse.py:57-62 | a walk that matches a suffix-array-like labelling spells that text |
| LastToFirst.InverseRoundTrip | week_2/bwtinverse.py:49-65 | inverting the transform of a '$'-terminated text gives back the text |
| Starts.TallyAlphabet | week_2/bwtinverse_count.py:32-33 | each counter holds the number of occurrences of its letter of "$ACGT" |
| Starts.ChainStep | week_2/bwtinverse_count.py:38-41 | one link of the position chain: a present letter starts where the previous present letter's block ends; absent letters keep 0 |
| Starts.ComputeStarts | week_2/bwtinverse_count.py:36-41 | each letter's position is its first row in the sorted column, 0 when absent |
| Starts.StartIsFirstRow | week_2/bwtinverse_count.py:36-41 | where a letter occurs, its start is a row holding it, and every row before is smaller |
| Starts.PositionIsLF | week_2/bwtinverse_count.py:44-47 | when the scatter reaches row i, the counter of its letter is exactly LF(i) |
| Starts.ScatterStep | week_2/bwtinverse_count.py:44-47 | one scatter step puts the character at its LF row and moves its letter's counter on by one |
| Starts.ScatteredAll | week_2/bwtinverse_count.py:44-47 | after the full scatter, the output is the sorted column |
| Starts.CountingSortColumn | week_2/bwtinverse_count.py:23-52 | the counting sort returns the sorted first column |
| InverseMatrix.LastIsFirstAtLF | week_2/bwtinverse.py:32-43 | the ranked entry of row r in the last column is the ranked entry of row LF(r) in the first column |
| InverseMatrix.FirstEntriesDistinct | week_2/bwtinverse.py:32-43 | ranked first-column entries differ between rows, so the occurrence dict has one key per row |
| InverseMatrix.MatrixFromColumns | week_2/bwtinverse.py:32-43 | from the sorted column, the loop builds the matrix of ranked (first, last) entries and the index of first entries |
| InverseMatrix.MatrixRow | week_2/bwtinverse.py:32-43 | one row of the loop keeps the matrix, the index and the rank counters consistent |
| InverseMatrix.CreateMatrix | week_2/bwtinverse.py:19-46 | the matrix and the index are the ranked columns of the transform |
| InverseMatrix.WalkStep | week_2/bwtinverse.py:57-62 | at step i the walk reads the i-th character from the end and the index leads to the next row |
| InverseMatrix.WalkRow | week_2/bwtinverse.py:57-62 | one step of the walk keeps the spelled suffix and the current entry right |
| InverseMatrix.WalkMatrix | week_2/bwtinverse.py:49-65 | walking the matrix spells the inverse of the transform |
| InverseMatrix.InverseBwt | week_2/bwtinverse.py:49-65 | the sorted-based inverse returns the inverse of the transform |
| InverseMatrix.CreateMatrixCounting | week_2/bwtinverse_count.py:55-82 | the counting-sort matrix is the same ranked matrix and index |
| InverseMatrix.InverseBwtCounting | week_2/bwtinverse_count.py:85-101 | the counting-sort inverse returns the inverse of the transform |
| InverseMatrix.SinglePassDone | week_2/bwtinverse_count_improved.py:32-79 | once every row has been scattered, the matrix and the index are complete |
| InverseMatrix.CountingSortMatrix | week_2/bwtinverse_count_improved.py:32-79 | the single-pass sort fills the matrix at LF rows and builds the index |
| InverseMatrix.InverseBwtSinglePass | week_2/bwtinverse_count_improved.py:82-98 | the single-pass inverse returns the inverse of the transform |
| RankedWalk.RankCharacters | week_2/bwtinverse_fast.py:46-48 | every transform character is paired with its rank, and the counters tally the letters |
| RankedWalk.JumpIsLF | week_2/bwtinverse_fast.py:78-84 | start of the letter plus rank is LF |
| RankedWalk.DollarTopRow | week_2/bwtinverse_fast.py:78-84 | when '$' occurs, the top row of the sorted column is '$' |
| RankedWalk.WalkLetters | week_2/bwtinverse_fast.py:78-84 | the walk collects the last-column character at each step |
| RankedWalk.WalkOnce | week_2/bwtinverse_fast.py:78-84 | one jump of the walk keeps the collected letters and the next row right |
| RankedWalk.WalkLettersReversed | week_2/bwtinverse_fast.py:78-84 | the collected letters reversed are the inverse with its last character replaced by '$' |
| RankedWalk.WalkSpellsInverse | week_2/bwtinverse_fast.py:78-84 | when '$' occurs, the inverse already ends in '$' |
| RankedWalk.FastInverse | week_2/bwtinverse_fast.py:31-86 | the result has the transform's length and always ends in '$'; when '$' occurs in the transform it is exactly the inverse |
| ColumnRebuild.Singletons | week_2/bwtinverse_naive.py:25 | the first k-mers are the one-character strings of the last column |
| ColumnRebuild.Extend | week_2/bwtinverse_naive.py:32 | zipping appends the r-th column character to the r-th k-mer |
| ColumnRebuild.SortKmersOrders | week_2/bwtinverse_naive.py:34 | the sorted k-mers are in order and rearrange the input |
| ColumnRebuild.Prepare | week_2/bwtinverse_naive.py:20-28 | the start state: one-character k-mers, the sorted column as the first column, and the matrix fitted for one column |
| ColumnRebuild.Advance | week_2/bwtinverse_naive.py:32-37 | one round adds the next column of the sorted rotation matrix and the next result character |
| ColumnRebuild.Finish | week_2/bwtinverse_naive.py:41-42 | the last character completes the top row of the matrix turned by one |
| ColumnRebuild.InverseBwtNaive | week_2/bwtinverse_naive.py:6-42 | for every text with this transform, the result is the top matrix row turned by one; for a '$'-terminated text it is the text |
| ColumnRebuild.FirstFits | week_2/bwtinverse_naive.py:25-28 | the start state agrees with any rotation matrix of the transform |
| ColumnRebuild.NextFits | week_2/bwtinverse_naive.py:32-37 | each round keeps the state in agreement with the rotation matrix, one column further |
| ColumnRebuild.LastFits | week_2/bwtinverse_naive.py:41 | writing the final character gives the top row turned by one |
| ColumnRebuild.KmersStep | week_2/bwtinverse_naive.py:32 | extending the k-mers by a matrix column gives the next-longer turned prefixes |
| ColumnRebuild.SortedKmers | week_2/bwtinverse_naive.py:34 | sorting the turned prefixes gives the prefixes of the sorted matrix |
| ColumnRebuild.ColumnOfSorted | week_2/bwtinverse_naive.py:35 | the last characters of the sorted k-mers are column i of the matrix |
| ColumnRebuild.TopRow | week_2/bwtinverse_naive.py:41-42 | for a '$'-terminated text, the top matrix row is the rotation that starts with '$' |
| ColumnRebuild.TopRowTurned | week_2/bwtinverse_naive.py:41-42 | for a '$'-terminated text, that row turned by one is the text |
| BackwardSearch.Narrow | week_2/bwmatching_1.py:47-72 | a narrowing step keeps a valid interval of rows and never widens it |
| BackwardSearch.Interval | week_2/bwmatching_1.py:47-72 | backward search over the whole pattern gives a valid interval of rows |
| BackwardSearch.MatchCount | week_2/bwmatching_1.py:47-72 | the count is at most the number of rows |
| BackwardSearch.NarrowIsLFImage | week_2/bwmatching_1.py:62-67 | the narrowed interval is exactly the LF image of the rows of the old interval that hold the symbol |
| BackwardSearch.AbsentEmpties | week_2/bwmatching_1.py:62-70 | a symbol absent from the interval's last column empties the interval |
| BackwardSearch.PresentKeeps | week_2/bwmatching_1.py:62-67 | a symbol present in the interval's last column leaves it non-empty |
| BackwardSearch.EmptyStaysEmpty | week_2/bwmatching_1.py:62-70 | once the interval is empty, extending the pattern to the left keeps it empty |
| BackwardSearch.IntervalRows | week_2/bwmatching_1.py:47-72 | for a '$'-terminated text and a '$'-free pattern, row r is in the interval exactly when its suffix begins with the pattern |
| BackwardSearch.IntervalLocates | week_2/bwmatching_1.py:47-72 | the suffix-array entries of the interval are exactly the positions where the pattern occurs |
| BackwardSearch.MatchCountIsOccurrences | week_2/bwmatching_1.py:47-72 | the count equals the number of occurrences of the pattern in the text |
| SearchStarts.FirstIndexStarts | week_2/bwmatching_1.py:24-29 | the dict has exactly the transform's symbols as keys, each mapped to its first row in the sorted column |
| SearchStarts.FirstIndexIsStart | week_2/bwmatching_1.py:24-29 | a first index found in the sorted column is the symbol's start |
| SearchStarts.ZeroTestStarts | week_2/bwtmatching_10.py:31-35 | the list computed with the `== 0` test is, letter by letter, the zero-test start |
| SearchStarts.ZeroTestAgrees | week_2/bwtmatching_10.py:31-35 | when '$' occurs once, the zero test gives the true starts |
| SearchStarts.ZeroTestOnTransform | week_2/bwtmatching_10.py:31-35 | on the transform of a '$'-terminated text, the zero test gives the true starts |
| SearchStarts.ZeroTestMisplacesLeast | week_2/bwtmatching_10.py:31-35 | on "AA" the zero test puts 'A' at row 1, not 0, so the count table is read one row past its end |
| OccurrenceTables.ZeroPairs | week_2/bwmatching_1.py:33-37 | every (symbol, row) key is present and zero |
| OccurrenceTables.IncrementPairs | week_2/bwmatching_1.py:38-40 | after the increments, entry (c, j) is the number of c in the first j rows of the transform |
| OccurrenceTables.PreprocessPairs | week_2/bwmatching_1.py:10-44 | the first-row dict and the (symbol, row) count dict are exact |
| OccurrenceTables.CountsBefore | week_2/bwtmatching_11.py:31-39 | entry j of the list is the number of the symbol in the first j rows |
| OccurrenceTables.PreprocessLists | week_2/bwtmatching_11.py:8-43 | the first-row dict and the per-symbol count lists are exact |
| OccurrenceTables.CountsAfter | weeks_3_4/suffix_array_matching_with_bwt.py:133-140 | the list that starts from [0] and appends after each row holds the same counts |
| OccurrenceTables.PreprocessWithBwt | weeks_3_4/suffix_array_matching_with_bwt.py:111-144 | zero-test starts and exact count lists per letter |
| OccurrenceTables.IncrementColumns | week_2/bwtmatching_10.py:37-41 | the column table indexed [letter][row] holds exact counts |
| OccurrenceTables.PreprocessColumns | week_2/bwtmatching_10.py:13-45 | zero-test starts and the exact column table |
| OccurrenceTables.ScatterRow | week_2/bwtmatching_9.py:45-50 | one row of the scatter places the character at its LF row and copies the counts row forward with its letter incremented |
| OccurrenceTables.PreprocessRows | week_2/bwtmatching_9.py:58-72 | true starts from the counting sort and the exact table indexed [row][letter] |
| OccurrenceTables.FillColumn | week_2/bwtmatching_15.py:56-63 | after one letter's pass, the grid holds that letter's counts too; earlier letters are kept |
| OccurrenceTables.PreprocessGrid | week_2/bwtmatching_15.py:24-67 | zero-test starts and an exact count grid |
| OccurrenceTables.PositionLists | week_2/bwmatching_7.py:53-56 | each letter's list holds the rows, counted from 1, where it occurs, in increasing order |
| OccurrenceTables.PreprocessPositions | week_2/bwmatching_7.py:31-60 | zero-test starts and exact position lists |
| OccurrenceTables.CountingSortPositions | week_2/bwtmatching_8.py:33-62 | true starts from the counting sort and exact position lists |
| OccurrenceTables.PositionsSplit | week_2/bwmatching_7.py:13-28 | in a position list, the entries up to row j are exactly the first Count entries |
| OccurrenceTables.PositionsLength | week_2/bwmatching_7.py:53-56 | a letter's position list has one entry per occurrence |
| BackwardCount.IntervalFromSuffix | week_2/bwmatching_1.py:56-71 | the loop's interval after consuming p[m:] is backward search's interval for that suffix |
| BackwardCount.CountCheckedPairs | week_2/bwmatching_1.py:47-72 | with exact tables, the count is the number of matching rows; an empty transform gives no answer |
| BackwardCount.CountCheckedLists | week_2/bwtmatching_11.py:46-71 | the same, for the per-symbol count lists |
| BackwardCount.CountColumns | week_2/bwtmatching_10.py:48-69 | with true starts and an exact column table, the count is the number of matching rows |
| BackwardCount.CountRows | week_2/bwtmatching_9.py:75-96 | the same, for the [row][letter] table |
| BackwardCount.CountGrid | week_2/bwtmatching_15.py:70-92 | the same, for the grid |
| BackwardCount.BinarySearch | week_2/bwmatching_7.py:13-28 | over a strictly increasing list, the result splits it: the entries before it are at most the key, the rest greater |
| BackwardCount.SplitCount | week_2/bwmatching_7.py:13-28 | that split point is the number of entries at most the key |
| BackwardCount.SearchCounts | week_2/bwmatching_7.py:63-84 | counting a letter's position list up to row j gives its occurrences in the first j rows |
| BackwardCount.SearchStep | week_2/bwtmatching_8.py:90-101 | one narrowing step by binary search gives the interval of the next suffix of the pattern |
| BackwardCount.CountBinarySearch | week_2/bwtmatching_8.py:82-103 | with true starts and position lists, the count is the number of matching rows |
| BackwardCount.RowRangeCount | weeks_3_4/suffix_array_matching_with_bwt.py:147-172 | the row range is absent exactly when nothing matches, and otherwise its width is the count |
| BackwardCount.ReturnOccurrences | weeks_3_4/suffix_array_matching_with_bwt.py:147-172 | the method returns the half-open range of matching rows, or nothing when no row matches |
| LocateWithBwt.BuildIndex | weeks_3_4/suffix_array_matching_with_bwt.py:175-185 | the suffix array, the transform, true starts and exact count lists of a '$'-terminated text |
| LocateWithBwt.CollectRange | weeks_3_4/suffix_array_matching_with_bwt.py:188-195 | adding one range adds exactly the suffix-array entries of its rows |
| LocateWithBwt.CollectAll | weeks_3_4/suffix_array_matching_with_bwt.py:186-196 | the set collects the located rows of every pattern |
| LocateWithBwt.LocatedOccurrences | weeks_3_4/suffix_array_matching_with_bwt.py:175-197 | the located rows of one '$'-free pattern are exactly its occurrences |
| LocateWithBwt.HitsAreOccurrences | weeks_3_4/suffix_array_matching_with_bwt.py:175-197 | the located rows of all patterns are the positions where some pattern occurs |
| LocateWithBwt.AllOccurrences | weeks_3_4/suffix_array_matching_with_bwt.py:175-197 | a position is in the set exactly when some pattern occurs there |
| LocateWithBwt.FindOccurrences | weeks_3_4/suffix_array_matching_with_bwt.py:175-197 | for '$'-free patterns, the result is the set of positions where some pattern occurs |
| SuffixArraySearch.SearchStart | weeks_3_4/suffix_array_matching.py:90-98 | when the windows are sorted, every row before start is below the pattern and none from start on is |
| SuffixArraySearch.SearchEnd | weeks_3_4/suffix_array_matching.py:100-107 | when the windows are sorted, no row up to end is above the pattern and every later row is |
| SuffixArraySearch.PatternMatching | weeks_3_4/suffix_array_matching.py:89-112 | when the windows are sorted, the returned rows are exactly those whose window equals the pattern |
| SuffixArraySearch.TailWindowsSorted | weeks_3_4/suffix_array_matching.py:118 | after dropping the first entry of the cyclic order of text+"$", the windows of any width are sorted |
| SuffixArraySearch.FirstIsDollar | weeks_3_4/suffix_array_matching.py:86 | the dropped first entry is one of the two '$' positions |
| SuffixArraySearch.MatchRowsOccurrences | weeks_3_4/suffix_array_matching.py:115-130 | the rows whose window equals a non-empty '$'-free pattern locate exactly its occurrences |
| SuffixArraySearch.SearchedOccurrences | weeks_3_4/suffix_array_matching.py:119-129 | the range found by the search locates exactly the occurrences |
| SuffixArraySearch.CollectMatches | weeks_3_4/suffix_array_matching.py:119-129 | the collected set is the set of positions where some pattern occurs |
| SuffixArraySearch.FindOccurrences | weeks_3_4/suffix_array_matching.py:115-130 | every result is a position of the text, and for a '$'-terminated text and non-empty '$'-free patterns it is exactly the set of occurrences |
| KnuthMorrisPratt.LongestBorderUnique | weeks_3_4/kmp.py:4-16 | the longest border of a prefix is unique |
| KnuthMorrisPratt.BorderChain | weeks_3_4/kmp.py:9-10 | the borders shorter than a border b are exactly the borders of the prefix of length b |
| KnuthMorrisPratt.FollowBorder | weeks_3_4/kmp.py:9-10 | following the prefix function keeps a candidate border and shrinks it |
| KnuthMorrisPratt.SettleBorder | weeks_3_4/kmp.py:11-15 | where the loop stops, the new value is the longest border of the next prefix |
| KnuthMorrisPratt.ComputePrefixFunction | weeks_3_4/kmp.py:4-16 | each entry is the length of the longest proper border of the prefix ending there |
| KnuthMorrisPratt.PrefixFunctionBounds | weeks_3_4/kmp.py:4-16 | entry 0 is 0, entry i is at most i, and each entry grows by at most one |
| KnuthMorrisPratt.MatchesInText | weeks_3_4/kmp.py:19-32 | with a '$'-free pattern, a full-length border only occurs past the pattern and separator |
| KnuthMorrisPratt.MatchesAreOccurrences | weeks_3_4/kmp.py:19-32 | a full-length border at index x + 2·\|pattern\| is an occurrence at x, and conversely |
| KnuthMorrisPratt.FindPattern | weeks_3_4/kmp.py:19-32 | the result is increasing and lies in the text; for a non-empty pattern with no '$' in pattern or text it holds exactly the occurrences |
| Trie.Walk | week_1/trie.py:19-39 | following a string from a node ends at a node of the trie, if anywhere |
| Trie.WalkSpells | week_1/trie.py:19-39 | a walk from the root succeeds exactly for the strings of the nodes, and ends at the node spelling the string |
| Trie.NewStringFresh | week_1/trie.py:30-35 | a missing edge means the extended string is not yet a node |
| Trie.AddChild | week_1/trie.py:33-35 | adding an edge and a new node keeps the trie a trie and adds exactly the extended string |
| Trie.InsertPattern | week_1/trie.py:25-37 | inserting a pattern adds exactly its prefixes to the node strings |
| Trie.BuildTrie | week_1/trie.py:19-39 | the node strings are exactly the prefixes of the patterns |
| Trie.BuiltWalk | week_1/trie.py:19-39 | a walk from the root succeeds exactly for the empty string and the prefixes of patterns |
| Trie.BuiltTrie | week_1/trie.py:19-39 | walks succeed exactly for the prefixes of patterns, different strings reach different nodes, and there is one node per distinct prefix |
| TrieMatching.PrefixTrieMatching | week_1/trie_matching.py:27-42 | a found string is a prefix of the text ending at a leaf; nothing found means no prefix of the text ends at a leaf |
| TrieMatching.NoLeafBeyond | week_1/trie_matching.py:34-40 | once the walk leaves the trie at an inner node, no longer prefix ends at a leaf |
| TrieMatching.LeafPrefixUnique | week_1/trie_matching.py:27-42 | at most one prefix of the text ends at a leaf |
| TrieMatching.TrieMatchingPositions | week_1/trie_matching.py:45-51 | the positions increase and are exactly those where a prefix of the rest of the text ends at a leaf |
| TrieMatching.LeafIsPattern | week_1/trie_matching.py:5-24 | a leaf string that is a prefix of a pattern is that pattern |
| TrieMatching.LeavesArePatterns | week_1/trie_matching.py:5-24 | for prefix-free patterns, the leaf strings are exactly the patterns |
| TrieMatching.MatchIsOccurrence | week_1/trie_matching.py:45-51 | when the leaves spell the patterns, a match at x is an occurrence of some pattern at x |
| TrieMatching.MatchesAreOccurrences | week_1/trie_matching.py:45-51 | for prefix-free patterns, the matches are exactly the occurrences |
| TrieMatching.SortIncreasing | week_1/trie_matching.py:57 | sorting an increasing list returns it unchanged |
| TrieMatching.Solve | week_1/trie_matching.py:54-59 | the result increases, and for prefix-free patterns it holds exactly the positions where some pattern occurs |
| TrieMatchingExtended.FlagPattern | week_1/trie_matching_extended.py:29 | flagging the node of a pattern records that pattern as ending there |
| TrieMatchingExtended.InsertFlaggedPattern | week_1/trie_matching_extended.py:5-30 | inserting a pattern adds its prefixes and flags its node |
| TrieMatchingExtended.BuildFlaggedTrie | week_1/trie_matching_extended.py:5-30 | the node strings are the prefixes of the patterns, and the flags mark exactly the patterns |
| TrieMatchingExtended.EndsArePatterns | week_1/trie_matching_extended.py:5-30 | a flagged node's string is a pattern, and every pattern's node is flagged |
| TrieMatchingExtended.FlaggedPrefixMatching | week_1/trie_matching_extended.py:33-48 | a found string is the shortest prefix of the text that ends at a flagged node; nothing found means no prefix does |
| TrieMatchingExtended.FlaggedTrieMatching | week_1/trie_matching_extended.py:51-57 | the positions increase and are exactly those where a flagged string starts |
| TrieMatchingExtended.FlaggedMatchesAreOccurrences | week_1/trie_matching_extended.py:51-57 | a flagged match at x is an occurrence of some pattern at x, and conversely, for any patterns |
| TrieMatchingExtended.ListOfSet | week_1/trie_matching_extended.py:63 | the list has no duplicates and the set's elements |
| TrieMatchingExtended.SortUnique | week_1/trie_matching_extended.py:64 | sorting distinct positions gives a strictly increasing list of the same positions |
| TrieMatchingExtended.SolveFlagged | week_1/trie_matching_extended.py:60-66 | the result increases and holds exactly the positions where some pattern occurs, with no restriction on the patterns |
| SuffixTree.LeafSpellsSuffix | week_1/suffix_tree.py:42-74 | each leaf's root path spells the suffix at its start |
| SuffixTree.TreeGrows | week_1/suffix_tree.py:46 | a tree for the first i suffixes stays valid when the loop advances |
| SuffixTree.EdgeOverlap | week_1/suffix_tree.py:59-61 | the overlap is positive and within the edge; the suffix and the edge agree on it; if the overlap stops inside the edge, the next symbols differ; it covers the whole edge only below an inner node |
| SuffixTree.CommonRun | week_1/suffix_tree.py:59-61 | the run counts the common symbols and stops at the first difference |
| SuffixTree.Descend | week_1/suffix_tree.py:62-64 | following a fully matched inner edge keeps the walk state valid one node lower |
| SuffixTree.AddLeaf | week_1/suffix_tree.py:55-57 | hanging a new leaf where the walk finds no edge gives a tree for one more suffix |
| SuffixTree.AttachLeaf | week_1/suffix_tree.py:54-57 | the method adds one leaf, stamped with the suffix start, and keeps the tree valid |
| SuffixTree.SplitEdge | week_1/suffix_tree.py:65-73 | splitting an edge where the suffix leaves it gives a tree for one more suffix |
| SuffixTree.BreakEdgeSound | week_1/suffix_tree.py:65-73 | the split adds an inner node and a leaf stamped with the suffix start, keeps old stamps, and keeps the tree valid |
| SuffixTree.BreakEdge | week_1/suffix_tree.py:65-73 | the method performs that split |
| SuffixTree.InsertSuffix | week_1/suffix_tree.py:47-73 | inserting suffix i adds one or two nodes, the last a leaf stamped i, and keeps every old stamp |
| SuffixTree.BuildTree | week_1/suffix_tree.py:42-74 | when the last symbol is unique, the result is a valid tree with one leaf per suffix spelling that suffix, and between \|text\|+1 and 2\|text\|+1 nodes |
| SuffixTreeDebug.SplitKeepsLabel | week_1/suffix_tree_debug.py:131-182 | a cut strictly inside an edge leaves two non-empty edges that spell the old one |
| SuffixTreeDebug.DownSplitMisplaced | week_1/suffix_tree_debug.py:131-146 | the downward split as written has the right lengths but puts the lower edge's start at the right cut only when the edge is twice the overlap |
| SuffixTreeDebug.DownSplitExample | week_1/suffix_tree_debug.py:134 | on "ABAC$", inserting "AC$", the lower edge as written runs past the end of the text; the correct cut spells "BAC$" |
| SuffixTreeDebug.SplitAboveEmptiesEdge | week_1/suffix_tree_debug.py:147-162 | the split-above branch always leaves the current edge with length 0, so the assert at line 160 fails whenever it runs |
| SuffixTreeDebug.StepLengths | week_1/suffix_tree_debug.py:142-143 | the downward split keeps both lengths positive, and the split of the next node does so exactly when its run stopped inside the edge |
| SuffixTreeDebug.StepKeepsLabels | week_1/suffix_tree_debug.py:128-182 | every cut of the corrected step spells the edge it cut, and the corrected step never takes the split-above branch |
| SuffixTreeOrder.Least | week_2/suffix_array_stree.py:86 | the chosen key is the least of the children's keys |
| SuffixTreeOrder.SortedKeysSound | week_2/suffix_array_stree.py:104 | the sorted children keys are the keys, each once, in increasing order |
| SuffixTreeOrder.PushDescending | week_2/suffix_array_stree.py:100-105 | pushing a node's children in descending key order puts their ascending visit on top of the stack |
| SuffixTreeOrder.PushAscending | week_2/suffix_array_stree.py:84-87 | pushing them in ascending order puts the reverse visit on top |
| SuffixTreeOrder.TraversePreOrder | week_2/suffix_array_stree.py:92-106 | the stack traversal lists the leaves in pre-order with children in ascending key order |
| SuffixTreeOrder.TraversePreOrderReversed | week_2/suffix_array_stree.py:74-89 | the variant that pushes ascending and reverses at the end lists the same leaves |
| SuffixTreeOrder.DescendingIsReversed | week_2/suffix_array_stree.py:74-89 | the descending visit reversed is the ascending visit |
| SuffixTreeOrder.VisitSorted | week_2/suffix_array_stree.py:92-106 | the leaves visited below a node all start with its string and their suffixes come in increasing order |
| SuffixTreeOrder.WalkIsSuffixArray | week_2/suffix_array_stree.py:109-119 | in a tree with one leaf per suffix, the pre-order leaf list is the suffix array |
| SuffixTreeOrder.BuildSuffixArray | week_2/suffix_array_stree.py:109-119 | when the last symbol is unique, building the tree and walking it gives the suffix array |
| SuffixTreeFromArray.CreateNewLeaf | weeks_3_4/suffix_tree_from_array.py:19-24 | the new leaf is the next node, hung below the given node under the suffix's next symbol |
| SuffixTreeFromArray.HungFields | weeks_3_4/suffix_tree_from_array.py:19-24 | hanging a leaf leaves every old node's parent, edge and depth alone |
| SuffixTreeFromArray.HangTree | weeks_3_4/suffix_tree_from_array.py:19-24 | a leaf hung where no edge starts with the next symbol keeps the tree valid and spells the whole suffix |
| SuffixTreeFromArray.BreakEdge | weeks_3_4/suffix_tree_from_array.py:27-37 | the middle node is the next node, inserted on the edge at the given offset |
| SuffixTreeFromArray.BrokenFields | weeks_3_4/suffix_tree_from_array.py:27-37 | breaking an edge changes only the child's edge and parent and the node's entry; depths are kept |
| SuffixTreeFromArray.BreakTree | weeks_3_4/suffix_tree_from_array.py:27-37 | breaking the edge at depth l keeps the tree valid, the middle node spelling the first l symbols |
| SuffixTreeFromArray.NextFollows | weeks_3_4/suffix_tree_from_array.py:61-62 | with a true suffix array and LCP array, each suffix shares exactly lcp symbols with the one before and is greater after them |
| SuffixTreeFromArray.HangSite | weeks_3_4/suffix_tree_from_array.py:54-55 | a node at exactly the LCP depth spells the shared prefix, and every key there is smaller than the new suffix's next symbol |
| SuffixTreeFromArray.BreakSite | weeks_3_4/suffix_tree_from_array.py:56-60 | a node above the LCP depth has the next path node below it, on an edge that contains depth l |
| SuffixTreeFromArray.Climb | weeks_3_4/suffix_tree_from_array.py:52-53 | the climb stops at the deepest node of the rightmost path whose depth is at most the LCP |
| SuffixTreeFromArray.HangBelow | weeks_3_4/suffix_tree_from_array.py:54-55 | hanging the leaf below a node at the LCP depth keeps the tree valid and makes the new leaf end the rightmost path |
| SuffixTreeFromArray.BreakPath | weeks_3_4/suffix_tree_from_array.py:56-60 | breaking the edge below the climb's node gives a middle node at the LCP depth, ready to take the leaf |
| SuffixTreeFromArray.BreakAndHang | weeks_3_4/suffix_tree_from_array.py:56-60 | breaking then hanging keeps the tree valid and makes the new leaf end the rightmost path |
| SuffixTreeFromArray.AddSuffix | weeks_3_4/suffix_tree_from_array.py:51-62 | one round adds the leaf of the next suffix and keeps the tree, the leaves so far and the rightmost path valid |
| SuffixTreeFromArray.LeafRepeatsEnd | weeks_3_4/suffix_tree_from_array.py:52-55 | if the climb stops at the leaf just hung, below the root, the last symbol of the text occurs again before the end |
| SuffixTreeFromArray.HangNotLeaf | weeks_3_4/suffix_tree_from_array.py:52-55 | with a unique last symbol, the climb stops at the root or at a node that already has children, never at the last leaf |
| SuffixTreeFromArray.CompactHung | weeks_3_4/suffix_tree_from_array.py:54-55 | hanging a leaf below the root or below a branching node keeps every non-root node either a listed leaf or a node with two or more children |
| SuffixTreeFromArray.CompactBroken | weeks_3_4/suffix_tree_from_array.py:56-60 | breaking an edge and hanging the leaf below mid_node keeps the tree compact: mid_node gets two children, and the broken node keeps its count |
| SuffixTreeFromArray.Started | weeks_3_4/suffix_tree_from_array.py:46-49 | before the first round, the root alone is a tree with no leaves, the rightmost path is the root, and the first suffix follows the empty one with LCP 0 |
| SuffixTreeFromArray.Round | weeks_3_4/suffix_tree_from_array.py:50-62 | one pass of the loop adds the leaf of the next suffix, keeps the tree and the rightmost path, reads the next LCP, and keeps the tree compact when the last symbol is unique |
| SuffixTreeFromArray.SuffixArrayToSuffixTree | weeks_3_4/suffix_tree_from_array.py:40-63 | given the suffix array and LCP array, the result is a tree of edges into the text, and its i-th leaf, stamped i, spells the suffix at sa[i]; when the last symbol is unique it is also compact: every non-root node is one of those leaves or has two or more children |

## Left out

- Reading stdin, writing stdout and the `__main__` blocks of every file are left out. The model takes and returns values. This includes the module-level input code of `week_1/trie_matching.py` and `week_1/trie_matching_extended.py`.
- Printing is left out: the printing traversals in `suffix_tree.py`, `suffix_tree_debug.py` and `suffix_tree_from_array.py`, debugging prints, and the print in `bwtinverse_naive.py`. They compute nothing the model uses.
- The testing, stress-testing and `heapq` files are not part of this model.
- numpy is left out. In `bwtinverse_numpy_2.py` the record array holds the same entries as the Python-list matrix, so `InverseMatrix.CreateMatrix` and `InverseMatrix.InverseBwt` cover it. The `np.empty` buffer of `bwtmatching_15.py` is an `array2<int>`, whose cells the model also treats as unknown until written. Every cell is written before it is read.
- In `bwtmatching_15.py` each letter's grid column is its value in the `ALPHABET` dict, not its position among the keys. The model uses these values, `'$'` = 0 to `'T'` = 4, as the column indices.
- A `KeyError` or `IndexError` for a symbol outside the alphabet is not modelled. Such members require the text to be over the alphabet (`Over(text, ALPHABET)`).
- Python's negative indices are not modelled. `text[pos - 1]` with `pos == 0` is written as the last character of the rotation.
- `Sorting.Sort` is an insertion sort that stands in for Python's `sorted`. Only the result is modelled (ordered, a rearrangement); timsort's cost is not.
- Node objects are entries of a `seq` and object references are indices. Aliasing between nodes therefore cannot arise. The parent links and node strings used in the proofs are ghost.
- `SuffixTree.BuildTree` requires the text's last symbol to be unique. The source relies on the `'$'` sentinel for this, and without it a suffix could end in the middle of an edge.
- `SuffixTreeDebug` models the three split branches of the debugging `build_tree` as single steps on edge values, not as a whole construction. The proved facts are about those steps.
- `SuffixTreeFromArray.BrokenFields`, `SuffixTreeFromArray.BrokenChildren`, `SuffixTreeFromArray.BreakTree` and `SuffixTreeFromArray.BrokenEdges` assume the broken edge's child differs from the node. `SuffixTreeFromArray.BreakEdge` itself also models that case, in the source's update order. The case cannot arise in a tree, because every child lies deeper than its parent.
- `SuffixTreeFromArray.SuffixArrayToSuffixTree` proves compactness only for a text whose last symbol is unique. Without one it fails: on "AA" the leaf of "AA" hangs below the leaf of "A".
- `SuffixTreeFromArray.SuffixArrayToSuffixTree` takes the LCP array as given by its caller. Computing it is not part of the source file's core.
- `ColumnRebuild` represents the nested tuples of `bwtinverse_naive.py` as strings. The two sort the same way, and the placeholder `""` entries of `result` are written before they are read.
- `InverseMatrix.MatrixFromColumns`, `InverseMatrix.MatrixRow`, `InverseMatrix.CreateMatrix` and `InverseMatrix.InverseBwt` require `'#'` not to occur in the transform. `bwtinverse.py` and `bwtinverse_numpy_2.py` use `'#'` as the "previous letter" before the first row, assuming it lies outside the alphabet. A transform containing `'#'` would get rank 1 at row 0, and `inverse_bwt` would later raise `KeyError`. The model leaves that failure out.
- `CharacterSort.SortCharactersByDict` requires the alphabet to be sorted, as the `ALPHABET` tuple of the source is.
- `ColumnRebuild.InverseBwtNaive` states nothing for an input that is not the transform of any text.
- `BackwardCount.CountColumns`, `BackwardCount.CountRows`, `BackwardCount.CountGrid`, `BackwardCount.CountBinarySearch` and `BackwardCount.ReturnOccurrences` require the true first rows. The zero-test starts of their callers equal them when '$' occurs once: `SearchStarts.ZeroTestAgrees`, and the finding below.
- `KnuthMorrisPratt.FindPattern` proves "exactly the occurrences" only for a non-empty pattern with no '$' in pattern or text. The separator trick needs this.
- `TrieMatching.Solve` proves "exactly the occurrences" only for non-empty, prefix-free patterns. The leaf test of the source needs this.
- `SuffixArraySearch.PatternMatching` states the range only when the windows are sorted. `SuffixArraySearch.TailWindowsSorted` proves that they are, for the array that `find_occurrences` passes in.
- `SuffixArraySearch.FindOccurrences` proves "exactly the occurrences" only for a '$'-terminated text and non-empty '$'-free patterns. The main program appends '$', so `build_suffix_array` runs over text followed by two '$' and drops the first entry of its order.

## Findings

| source | as written | input that shows it | evidently intended | confidence | as-written member | corrected member |
|---|---|---|---|---|---|---|
| week_2/bwtmatching_10.py:31-35 | a letter's start is set only while its entry is still 0, so the smallest letter that occurs twice is moved to the row of its second copy | bwt "AA": 'A' gets start 1 instead of 0, and pattern "AA" then reads the count list past its end | each letter's start is its first row in the sorted column; this is harmless whenever '$' occurs exactly once | not executed | SearchStarts.ZeroTestMisplacesLeast | SearchStarts.FirstIndexStarts |
| week_1/suffix_tree_debug.py:134 | the lower edge of the downward split starts at `current.start + diff`, with `diff = current.length - overlap` | "ABAC$" while inserting "AC$" (i = 2): current = (0, 5), overlap 1, lower edge (4, 4), past the end of the text | the lower edge starts `overlap` symbols into the edge, at (1, 4), spelling "BAC$" | not executed | SuffixTreeDebug.DownSplitExample | SuffixTreeDebug.StepKeepsLabels |
| week_1/suffix_tree_debug.py:160 | the split-above branch runs only once the whole edge matched, then subtracts the overlap from the edge length | "AABAC$" while inserting "AC$" (i = 3): the edge to "A" matches fully, no child starts with 'C', and current's length becomes 0 | with no child to follow, a new leaf is hung below current; no edge is split | not executed | SuffixTreeDebug.SplitAboveEmptiesEdge | SuffixTreeDebug.StepKeepsLabels |
