# Fuzzy name search: a verified model of the matching engine

The service answers a query string with up to ten names from a fixed corpus
that are close to it. Closeness is Levenshtein edit distance on bytes. The
model covers the three pieces of `src/main.rs` that compute the answer:

- `distance.dfy`, module `Distance`: `calc_dist_bytes`. `Dist` is the
  edit-distance recurrence over the cells of the cost grid, and `Lev` is its
  bottom-right cell. `CalcDist` is the source's imperative Wagner-Fischer
  loop. It has two rolling rows held in arrays, and the arrays are exchanged
  after each row. It is proved to return `Lev`. The lemmas are the
  properties of the distance:
  - the base cases and bounds;
  - zero exactly on equal strings;
  - symmetry;
  - the triangle inequality;
  - one substitution costs one;
  - strings with no common byte are as far apart as the longer is long;
  - each grid cell is the distance between prefixes.
- `tokens.dfy`, module `TokenMatcher`: `fuzzy_match`.
  - `SplitWhitespace` is `str::split_whitespace` on bytes.
  - `MinDistance` is the `map(..).min()` over the words; it returns `None` for no word.
  - `FuzzyMatch` is the whole function, with the `usize::MAX` sentinel.
- `ranking.dfy`, module `SearchEngine`: the ranking inside `post_search`.
  - `Candidates` is the scoring `filter_map` and `collect`.
  - `SortByDistance` is the stable in-place `sort_by_key`, written as an insertion sort on an array.
  - `Search` chains them and takes ten.

  Each `Hit` carries its corpus position so that the order among equal
  distances can be stated. The reference answer `Ranking` lays out the kept
  hits distance class by distance class (0, 1, then 2), each class in corpus
  order, and cuts the result after ten. `Search` is proved to return exactly
  `Ranking`. Lemmas then show that `Ranking` is:
  - sound;
  - ordered by distance, then by corpus position;
  - complete up to the cut.
- `scenarios.dfy`, module `Scenarios`: three concrete searches, worked out
  from the general lemmas, and the distance between "kitten" and "sitting",
  worked out row by row over the grid.

Strings are byte sequences (`seq<byte>`), as the source's `as_bytes` views
are. The guard in `fuzzy_match` looks for the character `' '`. Because UTF-8
never uses byte 32 inside another character, this is the same as looking
for byte 32.

One might expect any whitespace in a name to trigger the split. The code
tests only for the space character before splitting, while the split itself
cuts at every whitespace character. The model follows the code. For example, a name whose words are separated by a tab alone is
scored as one string (`TabSeparatedNameScoredWhole`).

## Model

| member | source | states |
|---|---|---|
| Distance.Lev | src/main.rs:186-195 | With an empty first string the distance is the length of the second, and the reverse holds too. The distance is at most the longer length and at least the difference of the lengths. |
| Distance.CalcDist | src/main.rs:186-213 | The rolling-row computation returns `Lev(a, b)`, including the early returns for an empty string. Its loop invariant says `prev` holds finished grid row r - 1 and `curr` holds row r up to column k. |
| Distance.Dist | src/main.rs:197-206 | Defines cell (i, j) of the cost grid. Row 0 holds j and column 0 holds i, as `prev` and `curr[0]` start. An interior cell is the least of the cell above + 1, the cell to the left + 1 and the diagonal + the byte cost (0 for equal bytes, 1 otherwise), combined in the source's order. What a cell means is stated by `DistIsPrefixLev` and its bounds by `DistBounds`. |
| Distance.DistBounds | src/main.rs:197-206 | Every cell (i, j) is at most max(i, j) and at least abs(i - j). |
| Distance.DistIsPrefixLev | src/main.rs:197-210 | Grid cell (i, j) equals `Lev` of the first i bytes of `a` and the first j bytes of `b`. This is what a row of `prev` holds after outer iteration i. |
| Distance.DistOfPrefixes | src/main.rs:200-206 | A cell depends only on the bytes before it: it is unchanged in the grid of any longer prefixes. |
| Distance.DistSelf | src/main.rs:204-206 | The diagonal of the grid of a string against itself is all zero. |
| Distance.LevSelf | src/main.rs:204-206 | A string is at distance 0 from itself. |
| Distance.ZeroStep | src/main.rs:204-206 | An interior cell is 0 exactly when the diagonal cell is 0 and the two bytes are equal. |
| Distance.DistZeroIff | src/main.rs:204-206 | A cell is 0 exactly when the two prefixes are equal. |
| Distance.LevZeroIffEqual | src/main.rs:204-206 | Distance 0 holds exactly when the two strings are equal, in both directions. |
| Distance.DistSymmetric | src/main.rs:200-206 | Exchanging the two strings transposes the grid. |
| Distance.LevSymmetric | src/main.rs:186-213 | The distance does not depend on the order of its arguments. |
| Distance.DistTriangle | src/main.rs:197-206 | For all prefixes, cell (i, k) of `a` against `c` is at most cell (i, j) of `a` against `b` plus cell (j, k) of `b` against `c`. |
| Distance.LevTriangle | src/main.rs:186-213 | The triangle inequality: the distance from `a` to `c` is at most the distance from `a` to `b` plus the distance from `b` to `c`. |
| Distance.LevSubstituteLast | src/main.rs:204-206 | Two equal-length strings that differ only in their last byte are at distance exactly 1. |
| Distance.DistDisjoint | src/main.rs:204-206 | If no byte of `a` occurs in `b`, every cell (i, j) is max(i, j). |
| Distance.LevDisjoint | src/main.rs:186-213 | Two strings with no common byte are as far apart as the longer of the two is long. |
| TokenMatcher.IsWhitespace | src/main.rs:221 | The separators of `split_whitespace` on bytes: tab, line feed, vertical tab, form feed, carriage return and space. Each is an ASCII byte, so it never lies inside the encoding of another character, and the space that the guard on line 216 looks for is one of them. |
| TokenMatcher.WordLength | src/main.rs:221 | The leading run of non-whitespace bytes. It contains no whitespace, and it ends at the end of the string or at a whitespace byte. |
| TokenMatcher.SplitWhitespace | src/main.rs:221 | Every word is non-empty, free of whitespace, and no longer than the string. |
| TokenMatcher.SplitKeepsBytes | src/main.rs:221 | The words laid end to end are the string with its whitespace removed. |
| TokenMatcher.SplitEmptyIff | src/main.rs:221-224 | There is no word exactly when the string is all whitespace. |
| TokenMatcher.SplitSingleWord | src/main.rs:221 | A non-empty string without whitespace is its own single word. |
| TokenMatcher.SplitAt | src/main.rs:221 | Splitting `s + [c] + t` at a whitespace byte `c` gives the words of `s` followed by the words of `t`. |
| TokenMatcher.SplitTwoWords | src/main.rs:216-221 | A "First Last" name contains a space and splits into exactly its two words. |
| TokenMatcher.MinDistance | src/main.rs:222-224 | `None` exactly for no words. Otherwise the value is at most the distance to every word and equals the distance to one of them. |
| TokenMatcher.FuzzyMatch | src/main.rs:215-225 | The score is either the `usize::MAX` sentinel or at most the longer of the query and name lengths. |
| TokenMatcher.FuzzyMatchClosestWord | src/main.rs:220-224 | A name with a space and some word scores at most the distance to each word and exactly the distance to one of them. |
| TokenMatcher.FuzzyMatchNoWord | src/main.rs:216-224 | A name with a space that is all whitespace scores `usize::MAX`. |
| TokenMatcher.FuzzyMatchSingleWord | src/main.rs:216-224 | For a non-empty name without whitespace, the whole-name score equals the closest-word score, so the two strategies agree. |
| TokenMatcher.FuzzyMatchZeroIff | src/main.rs:215-225 | The score is 0 exactly when the query is the name itself (for a name without a space) or one of its words (for a name with a space). |
| TokenMatcher.TabSeparatedNameScoredWhole | src/main.rs:216-218 | The name "ab<TAB>cd" splits into "ab" and "cd", and "ab" is at distance 0 from the query "ab". Because the name has no space, it is scored whole, gets at least 3, and is dropped. |
| SearchEngine.CandidatesFrom | src/main.rs:149-162 | One hit for each name scoring below 3, and only those. Each hit carries its name, the name's `FuzzyMatch` score and its position. Hits come in corpus order. |
| SearchEngine.SwapKeepsClasses | src/main.rs:164 | Exchanging two neighbours with different distances leaves every distance class unchanged. |
| SearchEngine.SameClassesPermutation | src/main.rs:164 | Equal distance classes imply equal multisets: the sort is a permutation. |
| SearchEngine.InsertAt | src/main.rs:164 | One insertion step extends the sorted prefix by one, keeps every distance class in order and leaves the entries after position i untouched. |
| SearchEngine.SortByDistance | src/main.rs:164 | The array ends up sorted by distance and is a permutation of its old contents. Each distance class keeps its old order, which is stability. |
| SearchEngine.SortedIsByDistance | src/main.rs:164 | A sequence sorted by distance, with distances below 3, is its own distance classes laid out in order. So the stable sort's result is unique. |
| SearchEngine.ByDistanceSameClasses | src/main.rs:164 | Sequences with the same distance classes have the same class layout. |
| SearchEngine.WithDistanceIncreasing | src/main.rs:162-164 | A distance class drawn from hits in corpus order stays in corpus order. |
| SearchEngine.ByDistanceOrdered | src/main.rs:149-164 | The class layout of hits in corpus order is ordered by distance, then by corpus position. |
| SearchEngine.Search | src/main.rs:149-168 | Collecting, sorting in place and taking ten returns exactly `Ranking(query, corpus)`. |
| SearchEngine.RankingSound | src/main.rs:151-168 | The answer has at most 10 hits. Each hit names the corpus entry at its position, with that entry's `FuzzyMatch` score, and the score is below 3. |
| SearchEngine.RankingOrdered | src/main.rs:149-168 | The answer is in ascending distance, and equal distances appear in corpus order. |
| SearchEngine.OrderedCut | src/main.rs:168 | Cutting an ordered list after n entries either keeps a given entry or keeps n entries that all rank before it. |
| SearchEngine.RankingComplete | src/main.rs:149-168 | An entry scoring below 3 is in the answer, unless the answer holds 10 hits that all rank before it. |
| SearchEngine.RankingExactFirst | src/main.rs:149-168 | If the first corpus entry scores 0, it heads the answer. |
| SearchEngine.RankingSingleName | src/main.rs:149-168 | A one-name corpus answers with exactly that name, at its score, when the name scores below 3, and with nothing otherwise. |
| SearchEngine.RankingEmptyIff | src/main.rs:149-168 | The answer is empty exactly when no corpus entry scores below 3. |
| Scenarios.FirstNameFindsFullName | src/main.rs:149-168 | The query "Mario" over ["Mario Rossi", "Luca Bianchi"] has "Mario Rossi" first, at distance 0. |
| Scenarios.OneSubstitution | src/main.rs:149-168 | The query "Anne" over ["Anna"] answers exactly ["Anna" at distance 1]. |
| Scenarios.FarNameDropped | src/main.rs:149-168 | The query "abc" over ["Xavier Zorro"] answers nothing, because both words are at least 3 edits away. |
| Scenarios.KittenSitting | src/main.rs:186-213 | The distance between "kitten" and "sitting" is exactly 3. |

## Left out

- The HTTP server, routing and binding (`src/main.rs:15-32`) are network plumbing.
- The static HTML page with its script (`src/main.rs:34-124`) is user interface.
- Reading the corpus from `./names.csv` (`get_names`, `src/main.rs:173-183`) is file I/O. The corpus is a parameter of `Search` and `Ranking`, and nothing is assumed about its entries.
- The request and response structures and their JSON encoding (`src/main.rs:126-141`, `167-170`) are left out. A `Hit` keeps the name and distance and adds the corpus position, which the response does not have.
- The timing of the request (`src/main.rs:144`, `165`) is a wall-clock reading.
- Rayon's parallel iterator (`src/main.rs:150`) is modelled as a sequential pass in corpus order. The only visible effect of the parallel collect is that it keeps that order.
- CalcDist: computes with unbounded integers. The `usize` additions at `src/main.rs:206` cannot overflow for strings that fit in memory.
- SplitWhitespace: cuts only at the six ASCII whitespace bytes that `char::is_whitespace` accepts. The non-ASCII Unicode whitespace characters, which are multi-byte in UTF-8, are not separators in the model.
- SortByDistance: is an insertion sort rather than the merge sort behind `sort_by_key`. Both are stable sorts by distance, so the result is the same (`SortedIsByDistance`), but the number of steps is not modelled.
- FuzzyMatch: the source's `calc_dist_bytes` is called inside an expression. The function uses `Lev`, which `CalcDist` is proved to compute.
