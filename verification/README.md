# wine-master catalog logic in Dafny

wine-master is a static-page generator for a small wine shop. It reads a
spreadsheet of wines and groups the rows by category. It renames the Russian
column names to the latin keys the page template reads. It also prints the
shop's age as "<years> год/года/лет". This project models those two pieces of
logic from `main.py` and proves properties of them. The pieces are
`change_the_word` and the grouping and renaming part of `get_wines`.

Modules:

- `Decimal` (`decimal.dfy`): Python's decimal text of an integer, as printed by
  `f'{years} ...'`, together with a parser that is proved to be its inverse in both directions:
  every integer's text reads back as it, and the only text that reads as an
  integer is that integer's text, so leading zeros and "-0" are ruled out.
- `AgePhrase` (`age_phrase.dfy`): the three word forms, the script's rule for
  choosing one (as written, including the `% 100` on the third test), the phrase,
  the Russian agreement rule as an independent reference, and the corrected rule.
- `Catalog` (`catalog.dfy`): cell values and rows, the category list
  (first-column values without repeats, in order of first appearance), the
  bucket of a category, the nested grouping loop, and the partition lemmas.
- `Rename` (`rename.dfy`): the script's renaming table and the renaming of one
  row, one bucket and all buckets. The renaming is stated for any table that
  never renames a name twice; the script's table is proved to be one.
- `Wines` (`wines.dfy`): `get_wines` as a whole: categories, grouping, renaming.
- `Seqs`, `Wrappers`: first-occurrence index, duplicate freedom, `Option`.

Python's `%` rounds toward minus infinity and Dafny's `%` is Euclidean. For the
positive divisors 10 and 100 both give the same remainder in 0..d-1, so the
rule is modelled for negative counts too without adjustment.

## Model

| member | source | states |
|---|---|---|
| AgePhrase.ChooseWord | main.py:13-20 | "год" exactly when the last digit is 1 and the last two digits are not 11; "года" exactly when the last two digits are 2..4; "лет" in every other case, so the teen test wins for 11..14 and 111 |
| AgePhrase.Phrase | main.py:21 | the phrase is the count's decimal text, one space, and one word form: it reads back as exactly that count and the word the rule chose, and with AgePhrase.ParsePhraseCanonical that determines the text: no leading zero, no "-0" |
| AgePhrase.ParsePhraseCanonical | main.py:21 | the only text that reads as a count and a word is the count's decimal text, one space, and the word |
| AgePhrase.WordDependsOnLastTwoDigits | main.py:13-20 | two counts with the same last two digits get the same word |
| AgePhrase.AsWrittenVersusRussian | main.py:17-18 | the rule as written agrees with Russian agreement exactly when the count does not end in 22..24, 32..34, ..., 92..94; on those it says "лет" where Russian needs "года" |
| AgePhrase.TwentyTwoYears | main.py:17-21 | for 22 the script prints "22 лет" while Russian agreement needs "года" |
| AgePhrase.CorrectedIsRussian | main.py:13-20 | with the third test on the last digit, the rule coincides with Russian agreement for every count |
| AgePhrase.PhraseCorrected | main.py:21 | the corrected phrase reads back as the count and the Russian word for it, which by AgePhrase.ParsePhraseCanonical fixes its text |
| Decimal.IntText | main.py:21 | the printed count is non-empty, starts with '-' exactly for negative counts, and every character after that sign (every character, for a count that is not negative) is a digit |
| Decimal.NatText | main.py:21 | the digits of a count are non-empty decimal digits with no leading zero: a text starting with '0' is exactly "0", the text of 0 |
| Decimal.ParseNatCanonical | main.py:21 | the only digit string that reads as a natural number is that number's digits |
| Decimal.ParseIntCanonical | main.py:21 | the only text that reads as an integer is its printed text, so the printed text is unique |
| Decimal.NatTextRoundTrip | main.py:21 | the digits of a natural number read back as that number |
| Decimal.IntTextRoundTrip | main.py:21 | the printed text of every integer reads back as that integer |
| Decimal.IntTextInjective | main.py:21 | different counts print differently |
| Catalog.Dedup | main.py:37-38 | the deduplicated column has no repeats, holds exactly the values of the column, and lists them in order of first appearance |
| Catalog.DedupUnique | main.py:37-38 | those three properties determine the list: any list without repeats that holds exactly the column's values in order of first appearance is the deduplicated column |
| Catalog.Categories | main.py:36-38 | the categories are exactly the first-column values of the rows, without repeats, ordered by first appearance |
| Catalog.Bucket | main.py:40-44 | a category's bucket holds exactly the rows whose first-column value equals it, and is no longer than the input |
| Catalog.BucketCounts | main.py:40-44 | a bucket holds each row of its category as many times as the rows hold it, and no row of another category |
| Catalog.BucketAppend | main.py:40-44 | buckets keep row order: the bucket of a concatenation is the concatenation of the buckets |
| Catalog.ScanRows | main.py:41-44 | one pass over the rows for a category sets that category's entry to its bucket and leaves the other entries alone; with no rows it creates no entry |
| Catalog.GroupByCategory | main.py:39-44 | after the nested loop every listed category has an entry holding its bucket, provided there is at least one row, and there are no other entries |
| Catalog.RegroupedIsPermutation | main.py:39-44 | listing the buckets of a duplicate-free category list that covers every row is a permutation of the rows, so the bucket sizes add up to the number of rows |
| Catalog.GroupingIsPartition | main.py:36-44 | for the script's own category list the buckets partition the rows, and a row lies in a category's bucket exactly when that category is its first-column value |
| Rename.ReplacementsIsValid | main.py:27-32 | the table's latin names are never renamed again and no two Russian names share a latin name |
| Rename.ReplacementsNames | main.py:27-32 | the table renames exactly the six Russian column names to exactly the six latin keys |
| Rename.Renamed | main.py:45-50 | every table key present moves to its latin name with its value; no table key remains; a latin key present without its Russian source keeps its value; other keys keep their values; the keys of the result are exactly the row's keys outside the table plus the latin names of the row's table keys |
| Rename.RenameKeysStep | main.py:48-50 | visiting one key moves it to its latin name when the table has it and changes nothing otherwise |
| Rename.RenameRow | main.py:47-50 | the key-by-key loop, in whatever order the keys are visited, yields the renamed row |
| Rename.RenamedIdempotent | main.py:45-50 | renaming an already renamed row changes nothing |
| Rename.RenamedKeysOfFullRow | main.py:27-50 | a row whose keys are exactly the table's Russian names comes out with exactly the table's latin names |
| Rename.RenameWines | main.py:46-50 | the loop over a bucket renames each row in place and keeps the order |
| Rename.RenameAllIdempotent | main.py:45-50 | renaming every row of a bucket twice is renaming it once |
| Rename.RenameBuckets | main.py:45-50 | every listed category's entry is renamed row by row; an entry missing when looked up is created empty; entries of unlisted categories are unchanged |
| Wines.PageRowKeys | main.py:27-50 | a record with exactly the six Russian columns reaches the template with exactly the keys wine_name, grape, price, img_url, category and special_offer |
| Wines.GetWines | main.py:24-51 | the categories are the distinct first-column values in order of first appearance; each has an entry holding its renamed bucket in row order; every row, renamed, is in the entry of its own category; the buckets in category order are a permutation of the renamed rows |
| Wines.GetWinesProperties | main.py:36-50 | once every category's entry is its renamed bucket, every row, renamed, is in the entry of its own category, and the buckets in category order are a permutation of the renamed rows with the same length |

## Left out

- Reading the spreadsheet is not modelled: `pandas.read_excel`, `to_dict` and the
  column aggregation are third-party calls (main.py:34-38). Their result is the
  input: a sequence of rows and the name of the first column. Blank cells are
  taken to be already read as "".
- Cell values are text or whole numbers. Floating-point cells and Python's
  cross-type equality (`1 == 1.0`) are not modelled.
- Every row is required to carry the first column. Records of one table always
  do, so the `KeyError` the script would raise for a row without it is not modelled.
- Catalog.GroupByCategory: requires a category list without repeats. The script
  always passes the output of `drop_duplicates`. The doubled buckets a repeated
  category would produce are not modelled.
- Key insertion order inside a row is not modelled. A row is a map, so the fact
  that Python moves renamed keys to the end is invisible. The template does not
  depend on it.
- In the script the renaming mutates row dictionaries that are also held by the
  `wines` list. The model returns new values. `wines` is not returned by the script.
- The template environment, template rendering and the context passed to it
  (main.py:55-60, 67-71) are not modelled. They belong to an external library.
- The current year and the founding year 1920 (main.py:62-63) are not modelled.
  The count of years is a parameter.
- Writing `index.html` and the HTTP server (main.py:73-77) are not modelled.
  They are file and network I/O.
- Wines.PageRowKeys: the script renames only the keys in its table and keeps all
  others, so the six latin keys come out exactly for records with exactly the six
  Russian columns.

## Findings

| source | as written | input that shows it | evidently intended | confidence | as-written member | corrected member |
|---|---|---|---|---|---|---|
| main.py:17 | `elif 2 <= (years % 100) <= 4:` chooses "года" only for last two digits 2..4 | years = 22 gives "22 лет" (also 23, 24, 32..34, ..., 122) | test the last digit, `2 <= years % 10 <= 4`, giving "22 года" as Russian agreement requires | high; not executed | AgePhrase.TwentyTwoYears | AgePhrase.CorrectedIsRussian |

The rule as written is `AgePhrase.ChooseWord`, used by `AgePhrase.Phrase`.
`AgePhrase.AsWrittenVersusRussian` shows that the two rules differ on exactly the
counts ending in 22..24, 32..34, ..., 92..94. The corrected rule is
`AgePhrase.ChooseWordCorrected`, used by `AgePhrase.PhraseCorrected`.
