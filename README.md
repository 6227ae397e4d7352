# Flavor matrix recommender, modelled in Dafny

`app.js` is a browser page that loads a flavour matrix from a CSV file. The
first row names the ingredients, the first column names the flavour
features, and each cell is a number. The page ranks ingredients in two ways:
by their similarity to one chosen ingredient, and by how well they fit a
basket of chosen ingredients. This project models the computational core of
that page and proves what each part returns:

- `csv.dfy` (module `Csv`): the `parseCSV` tokenizer. `Scan`, `Flush` and `Parse` specify it as a state machine over the lexer's four variables; `ParseCsv` is the loop itself, proved equal to `Parse`. The lemmas cover quoting, carriage returns, blank lines and parsing serialized rows back (a round trip).
- `matrix.dfy` (module `Matrix`): `buildData`. It covers `String.prototype.trim` over the ECMAScript whitespace set, the ingredient and feature names, one vector per ingredient, and the "CSV missing data rows" error.
- `similarity.dfy` (module `Similarity`): `similarity`. `Accumulate` specifies its loop and `SimilarityOf` its result; `Similarity` is the loop itself.
- `ranking.dfy` (module `Ranking`): what `getSimilar` and `getGroupSuggestions` push into `results`, the stable sort by descending score, and `slice(0, limit)`.
- `app.dfy` (module `App`): the `state` object as a class `Session`. Its methods are `loadData`'s guard-then-assign, the two rankers, `toggleBasket` and the basket clear. Basket membership is proved here.
- `host.dfy` and `wrappers.dfy`: the `settings` constants, the abstract numeric runtime, `Option` and `Result`.

Numbers are exact reals. `Math.sqrt`, `Math.pow` and `Number.parseFloat` are function values of a `Runtime` record, which the model does not interpret. The model relies on only three facts about them:

- the square root of a positive number is positive;
- a power of a non-negative base is non-negative;
- parsing the empty string gives NaN.

A `None` from `parseFloat` stands for NaN or a non-finite value, which `buildData` turns into 0.

The basket is a JavaScript `Set`, which iterates in insertion order, and `getGroupSuggestions` tallies the basket in that order. So the model keeps the basket as a sequence without repetitions: `add` appends and `delete` removes in place.

`Array.prototype.sort` is stable (ECMAScript 2019 and later), and both rankers push their entries in ascending index order. So the comparator `b.score - a.score` orders the results by descending score, with equal scores in ascending index order. `SortByScore` is a stable insertion sort that yields exactly that order.

Two facts about `buildData` that follow from the code:

- `row.length > 0` (app.js:82) removes nothing. A blank line parses to the row `[""]` (`Csv.BlankLineIsOneEmptyCell`), and no parsed row is ever empty (`Csv.ParsedRowsNonEmpty`). So a blank line after the header becomes a feature named `""` whose values are all 0, and a blank first line becomes the header.
- `buildData` does not require an ingredient column: a header with only a first cell loads with no ingredients (`Matrix.BuildData`).

## Model

| member | source | states |
|---|---|---|
| Csv.ParseCsv | app.js:32-79 | The tokenizer loop returns exactly the rows of the state-machine specification `Parse`: empty text gives no rows, and every row it returns has at least one cell. |
| Csv.ParsedRowsNonEmpty | app.js:63-77 | A row is only ever pushed right after a cell, so no parsed row is empty, for any text. |
| Csv.BlankLineIsOneEmptyCell | app.js:65-67 | A newline outside quotes pushes the current cell and then the row, so a blank line yields the row `[""]`, and the text `"\n"` parses to `[[""]]`. |
| Csv.ScanEscaped | app.js:50-60 | Inside quotes, each doubled quote reads as one literal quote, every other character (comma and newline included) is kept literally, and a single quote closes the quoted section. |
| Csv.SerializeRoundTrip | app.js:48-78 | Non-empty rows joined with `,` and each ended with `\n` parse back to themselves. This holds for cells without `,`, `"`, `\n` or `\r`, and for any cells when each is quoted with its quotes doubled. |
| Csv.CrlfParsesAsLf | app.js:68-69 | Outside quotes, carriage returns are ignored: text without quotes parses exactly as the same text with every `\r` removed. |
| Csv.SingleLineAtMostOneRow | app.js:65-77 | Text without a newline parses to at most one row (the final flush), and empty text to none. |
| Csv.QuotedCellExample | app.js:50-64 | `a,"b""c"` parses to the single row `a` and `b"c`: the comma ends a cell and the doubled quote is one literal quote. |
| Matrix.TrimRemovesOuterWhitespace | app.js:86-87 | `trim` returns the slice of its argument that starts after the leading whitespace. Everything before and after the slice is whitespace, and the slice, when not empty, starts and ends with a non-whitespace character. |
| Matrix.NonEmptyRows | app.js:82 | The filter keeps exactly the rows that have a cell, so every row it returns is non-empty; it is the identity on a list whose rows all have a cell. |
| Matrix.ColumnVector | app.js:89-95 | The inner loop returns one value per data row: the cell in column `colIndex + 1`, parsed, with a missing, NaN or non-finite cell read as 0. |
| Matrix.Columns | app.js:88-96 | The map over the ingredients returns one column vector per ingredient, column `c + 1` for ingredient `c`. |
| Matrix.BuildData | app.js:81-99 | Fails with `MissingDataRows` exactly when fewer than 2 rows are parsed. Otherwise: `ingredients.length == rows[0].length - 1`, each name trimmed; one trimmed feature name per later row; one vector per ingredient, each of length `features.length` and holding that column's values; and 0 wherever the row has no such cell. |
| Similarity.Accumulate | app.js:107-116 | After any prefix, `dot`, `normA` and `normB` are non-negative; `dot > 0` exactly when `overlap > 0`; and `dot > 0` implies both norms are positive, so the division at line 122 is never by zero. The overlap is at most the prefix length and the length of `b`. |
| Similarity.DampedCosine | app.js:122-124 | With a non-negative abstract `pow` and a positive abstract `sqrt` of positive norms, cosine × coverage^exponent is non-negative. |
| Similarity.SimilarityOf | app.js:101-127 | The overlap is at most the length of either vector; the score is non-negative; it is 0 whenever the overlap is below `minOverlap`, which covers `dot == 0` because `dot` is 0 only when the overlap is 0; a positive score implies at least `minOverlap` shared positions. |
| Similarity.Similarity | app.js:101-127 | The loop with its accumulators and the short-circuit returns exactly `SimilarityOf(a, b)`. |
| Similarity.OverlapIsCoPresentCount | app.js:107-116 | The overlap is the number of positions `i < a.length` where `a[i] > 0` and `b[i] > 0`. |
| Similarity.AccumulateSaturates | app.js:108-110 | Past the end of either vector nothing is accumulated (`undefined > 0` is false), so the accumulators depend only on the common prefix. |
| Similarity.OverlapSymmetric | app.js:107-116 | The overlap is the same with the arguments swapped, whatever the two lengths. |
| Similarity.SimilaritySymmetric | app.js:101-127 | For vectors of equal length, score and overlap are both the same with the arguments swapped. |
| Ranking.SortByScore | app.js:139 | For a list in ascending index order, the result is a permutation of the list, ordered by descending score with equal scores in ascending index order. |
| Ranking.Take | app.js:140 | `slice(0, limit)` returns the first `min(limit, length)` entries unchanged. |
| Ranking.TakeOfSorted | app.js:139-140 | Truncating a sorted permutation keeps at most `limit` entries, all from the list, and leaves out only entries ranked after every kept one, and only once the limit is reached. |
| Ranking.Rank | app.js:139-140 | Sort then slice returns, best first, the top `limit` entries of what was pushed, in the sense of `TakeOfSorted`. |
| Ranking.RankedIndicesDistinct | app.js:139 | In a ranked list where each index determines its entry, no index appears twice. |
| Ranking.MatchesPushed | app.js:132-138 | getSimilar's loop pushes in ascending index order. It pushes exactly the entries of the ingredients other than `index` whose score is positive, each with its similarity score and overlap. |
| Ranking.RankMatches | app.js:129-141 | getSimilar's result: never `index` itself; every score positive; indices distinct; ordered by descending score with ties by ascending index; at most `limit` entries; and every positively scored ingredient left out ranks after all kept ones, the limit having been reached. |
| Ranking.TallyOf | app.js:151-163 | After any prefix of the basket, the count is at most the prefix length, the sum is non-negative, and the count is positive exactly when the sum is. |
| Ranking.TallyOverlapBound | app.js:151-163 | The overlap total is at most `count × length` of the candidate's vector. |
| Ranking.JsRound | app.js:171 | `Math.round` returns the integer nearest to `x` with halves rounded up (`r ≤ x + 0.5 < r + 1`), and it is non-negative for non-negative `x`. |
| Ranking.GroupScore | app.js:165-167 | The average score × coverage^exponent is non-negative. |
| Ranking.SuggestionOf | app.js:165-173 | The entry pushed for a candidate carries its index and its support. Its support is the number of basket members with a positive score, between 1 and the basket's length. Its score is non-negative, and its overlap is at most the vector length. |
| Ranking.SuggestionsPushed | app.js:148-175 | getGroupSuggestions' loop pushes in ascending index order. It pushes exactly the entries of the ingredients outside the basket with positive support. |
| Ranking.RankSuggestions | app.js:143-179 | getGroupSuggestions' result for a non-empty basket: no basket member; every entry with support of at least 1 and at most the basket's length; indices distinct; ordered by descending score with ties by ascending index; at most `limit` entries; and every supported candidate left out ranks after all kept ones. |
| App.Without | app.js:207 | `Set.delete` removes `x` and nothing else, keeps the basket free of repetitions, and changes nothing when `x` is absent. |
| App.ToggleFlipsMembership | app.js:205-210 | Toggling flips the membership of `index` and of no other index, and keeps the basket free of repetitions. |
| App.ToggleTwiceRestores | app.js:205-210 | Toggling the same index twice restores the basket's membership; when the index was absent, it restores the basket exactly. |
| App.DistinctSize | app.js:6 | For a basket without repetitions, `basket.size` (the number of members) equals its length. |
| App.ScoreCandidate | app.js:151-174 | The tally loop over the basket yields no entry when no member scores positively, and otherwise exactly `SuggestionOf`. |
| App.Session.constructor | app.js:1-7 | The initial state: no ingredients, features, vectors or basket members. |
| App.Session.LoadData | app.js:368-372 | buildData throws before any assignment, so a failed load (fewer than 2 rows) changes no field. A successful load replaces ingredients, features and vectors with buildData's result and keeps the basket. |
| App.Session.GetSimilar | app.js:129-141 | The method returns what `RankMatches` states about the session's vectors; `limit` defaults to `settings.maxResults`. |
| App.Session.GetGroupSuggestions | app.js:143-179 | An empty basket gives `[]`. Otherwise the method returns what `RankSuggestions` states, and every support lies between 1 and `basket.size`; `limit` defaults to `settings.maxResults`. |
| App.Session.ToggleBasket | app.js:205-210 | The basket becomes `Toggled(old basket, index)`: the membership of `index` flips and every other membership is unchanged. |
| App.Session.ClearBasket | app.js:453 | `basket.clear()` leaves the basket empty. |

## Left out

- DOM, rendering and event wiring (app.js:15-30, 185-366, 405-458): `elements`, `setActive`, `activeIndex`, `updateActiveButton`, every `render*` function, `createResultItem` and the listeners. This is user-interface glue with no computed result.
- The rendering and counter updates at the end of `loadData` (app.js:374-384) are user-interface updates and are not modelled.
- `init`, `fetch` and `handleLoadError` (app.js:387-403): network I/O and asynchronous control flow. The model's `LoadData` takes the fetched text as a parameter.
- `formatScore` (app.js:181-183) and the search filter in the ingredient list (app.js:219-224): display-only formatting and string matching.
- IEEE-754 doubles: scores, sums and norms are exact reals. Rounding, overflow, underflow and NaN are not modelled. The comparator `b.score - a.score` is modelled as an exact comparison.
- The values of `Math.sqrt`, `Math.pow` and `Number.parseFloat`: the model relies only on the three facts listed above. So no exact score such as 0.707 is proved, and score ≤ 1 (Cauchy-Schwarz) is not proved.
- JavaScript strings are UTF-16 code-unit sequences; the model's strings are sequences of Unicode characters, so a character outside the Basic Multilingual Plane counts once rather than twice.
- Ranking.SortByScore: the in-place sort of `results` is modelled on a sequence value. It yields the order a stable sort gives; the element moves of the engine's algorithm are not modelled.
- App.Session.GetSimilar: requires `index` to be a valid ingredient. For another index the program throws a TypeError as soon as it scores an ingredient against the invalid index (it reads `undefined.length`); with no other ingredient to score it returns `[]`. Neither outcome is modelled.
- App.Session.GetGroupSuggestions: requires every basket member to be a valid ingredient. The page only adds indices of listed ingredients. For an invalid member the program throws a TypeError as soon as it scores an ingredient against the invalid index; when every loaded ingredient is in the basket it scores nothing and returns `[]`. Neither outcome is modelled.
- App.Session.LoadData and App.Session.ToggleBasket: the basket is not checked against the new dataset. The program never does so either, and it loads data only once, when the basket is still empty.
