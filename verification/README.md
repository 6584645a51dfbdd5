# charfinders in Dafny

A model of the charfinders scripts, which find Unicode characters by the
words of their names in `UnicodeData.txt`. It covers the pure pipeline that
runs from a record line to a search result:

- the record parsers of both finders: `charfinder2.parse` merges the old name
  in only when it adds words, while `charfinder.parse` always appends it;
- the inverted index of `charfinder2.build_index` and its AND query `search`;
- the linear `charfinder.scan`;
- the capped raw index of `api/loader.build_indexes`;
- the statistics of `stats.py` (vocabulary normalisation and the word
  ranking) and of `charstats.py` (the character `Counter` and
  `most_common()`).

Modules:

- `Results`: `Option`, and a `Result` that models a raised exception as a value.
- `Text`: Python's `isspace`, `upper`, `split(sep)`, `split()`, `strip()`,
  `replace` and `<`, with ASCII semantics for whitespace and case.
  `UnicodeData.txt` is ASCII text. The dictionary file that `stats.py`
  reads is decoded with the locale's encoding and may hold other
  characters; see `Stats.Normalise` under "## Left out".
- `Hex`: hexadecimal field 0.
- `Ucd`: the record format, the parse errors, and tokenisation.
- `CharFinder2`, `CharFinder`, `Loader`, `Stats`, `CharStats`: one per script.
- `Agreement`: lemmas that relate the two finders.

Modelling choices:

- A character `chr(cp)` is represented by its code point. Sorting characters
  is therefore sorting code points.
- A generator that raises part-way is modelled as the pairs it yielded plus
  the error (`CharFinder.ScanOut`).
- The loop of `load_vocabulary` only adds to a set, so `Stats.Vocabulary`
  is a set comprehension over the lines. Every other loop over lines is a
  fold over a sequence of lines, taken in line order. The loops of `build_index` (`CharFinder2.IndexEntries`),
  `build_indexes` and `charstats.py` are left folds over prefixes. The filter
  of `read_ucd` (`CharFinder2.FilterLines`), `scan`
  (`CharFinder.ScanEntries`) and the collection of parse outcomes
  (`Results.AllOk`) recurse on the first line instead.
- Dicts and `Counter`s keep insertion order, as they do from Python 3.7 on.
  The tie order of `most_common()` (`CharStats.MostCommonSpec`) rests on this.
  Under Python 3.5, which `api/loader.py` names, `Counter.items()` order is
  arbitrary, and ties may come out in any order.
- The files are given as those sequences of lines. `charfinder.py` and
  `charfinder2.py` split the text on `'\n'`. `charstats.py` iterates over the
  file, so its lines are the file's lines with their line ends, just as the
  loop sees them.
- Module-level globals (`vocabulary`, `char_count`) become parameters and
  results.

The headline lemma is `Agreement.ScanMatchesSearch`. Suppose every line
parses and no two lines share a code point. Then `scan` completes and yields
exactly the code points that `search` over `build_index` of the same lines
yields. The two differ only in order and in display text.

## Model

| member | source | states |
|---|---|---|
| Text.JoinSplitOn | charfinder.py:32 | Joining the fields of `s.split(sep)` with `sep` gives `s` back, so splitting loses no character. |
| Text.SplitOnJoin | charfinder2.py:37 | Splitting the join of separator-free fields gives back exactly those fields. |
| Text.WordsCoverText | charfinder2.py:45 | The words of `split()`, put back together, are exactly the non-whitespace characters of the text, in order. |
| Text.WordsOfJoin | charfinder2.py:45 | Splitting non-empty whitespace-free words joined by single spaces gives back the words. |
| Text.WordsOfSpaced | charfinder2.py:45 | `split()` of `a + " " + b` is the words of `a` followed by the words of `b`. |
| Text.Strip | stats.py:11 | `strip()` returns a slice of the input with only whitespace before and after it; the slice neither starts nor ends with whitespace; it is empty exactly when the input is all whitespace. |
| Text.StripIdempotent | stats.py:11 | Stripping a stripped string changes nothing. |
| Text.StrLessTransitive | stats.py:17 | Python's `<` on strings is transitive. |
| Text.StrLessTotal | stats.py:17 | Any two distinct strings are ordered one way or the other by `<`. |
| Hex.HexRoundTrip | charfinder2.py:43 | The value of the upper-case hex text of `n` is `n`. |
| Ucd.DecodeCodePoint | charfinder2.py:43 | `chr(int(f, 16))` succeeds exactly on hex text whose value is below 0x110000 and returns that value; otherwise it fails with a bad-hex or too-large error. |
| Ucd.DecodeCodePointOfHex | charfinder2.py:43 | Every code point below 0x110000, written in hex, decodes to itself. |
| Ucd.Tokens | charfinder2.py:45 | Every word of `set(name.replace('-', ' ').split())` is non-empty and contains neither whitespace nor a hyphen. |
| Ucd.TokensOfSpaced | charfinder2.py:45 | The token set of `a + " " + b` is the union of the token sets of `a` and `b`. |
| Ucd.TokensOfJoin | charfinder2.py:45 | Tokens joined by spaces tokenise back to exactly the set of those tokens. |
| Ucd.TokensOfBarJoin | charfinder2.py:50 | The merged display text (the two names joined by a spaced bar) tokenises to the tokens of both names plus the bar token. |
| CharFinder2.FilterLines | charfinder2.py:37-38 | A line is in the result exactly when it is an input line that is non-blank after `strip()` and does not start with `#`. |
| CharFinder2.FilterLinesAppend | charfinder2.py:37-38 | Filtering a concatenation filters each part, so kept lines keep their input order. |
| CharFinder2.ReadUcd | charfinder2.py:37-38 | No kept line contains a newline or starts with `#`, and every kept line has a non-whitespace character. |
| CharFinder2.ReadUcdOfLines | charfinder2.py:37-38 | Reading the newline-joined text of some lines yields exactly the filtered lines, in order. |
| CharFinder2.KeepLineSpec | charfinder2.py:38 | A line is kept exactly when it has a non-whitespace character and its first character is not `#`. |
| CharFinder2.IndentedCommentIsKept | charfinder2.py:38 | A line whose `#` is preceded by one or more whitespace characters is kept. |
| CharFinder2.ParseSpec | charfinder2.py:41-52 | Parsing succeeds exactly when field 0 decodes and there are at least 11 fields. The errors are, in order, the field-0 error, the missing field 1, and the missing field 10. The tokens are those of both names; the old name reaches the display text, joined to the name by a spaced bar, only when it adds a word; a placeholder display is a placeholder name. |
| CharFinder2.MergeSpec | charfinder2.py:44-51 | The merged entry keeps the code point. Its tokens are the union of both names' tokens. Its display is both names joined by a spaced bar when the old name adds a word; otherwise it is the name and the name's tokens alone. |
| CharFinder2.DisplayCoversTokens | charfinder2.py:50-51 | Every indexed word of an entry is a token of its display text. |
| CharFinder2.ParseAllFails | charfinder2.py:59-60 | The build loop gets through all lines exactly when every line parses; otherwise it fails with the error of the first failing line. |
| CharFinder2.IndexEntriesSpec | charfinder2.py:59-65 | `c` is in `word_idx[t]` exactly when some non-placeholder entry for `c` has token `t`. `char_idx` holds exactly the non-placeholder code points, each with the display of its last entry. No word set is empty. |
| CharFinder2.BuildIndex | charfinder2.py:55-68 | The build succeeds exactly when every line parses, and otherwise returns the first error. Every code point in a word set is a key of `char_idx`. Every key of `word_idx` is a token with a non-empty set. |
| CharFinder2.BuildIndexSpec | charfinder2.py:59-65 | The built index in terms of the parsed lines: word membership, character keys, and the last display text for each code point. |
| CharFinder2.ReadIndex | charfinder2.py:71-77 | A stored index is returned as is. Otherwise the text is read and built, giving a consistent index that exists exactly when every kept line parses. |
| CharFinder2.Found | charfinder2.py:83-84 | The intersection holds `c` exactly when every upper-cased query word's set holds `c`. |
| CharFinder2.SortedCodes | charfinder2.py:85 | `sorted(s)` is strictly increasing and has exactly the elements of `s`. |
| CharFinder2.Search | charfinder2.py:80-86 | An empty query gives nothing. Otherwise the result holds exactly the code points in every upper-cased query word's set, in strictly increasing order, each with its `char_idx` display. |
| CharFinder2.SearchBuiltIndex | charfinder2.py:80-86 | Over a built index, `c` is found exactly when the query is non-empty and every upper-cased query word is a token of some non-placeholder line for `c`. |
| CharFinder2.SearchNonTokenWord | charfinder2.py:83-84 | A query word that is empty or holds a hyphen or whitespace makes the result empty. |
| CharFinder.ReadUcd | charfinder.py:32 | The lines of the stripped text: at least one, none holding a newline. |
| CharFinder.ReadUcdRejoins | charfinder.py:32 | Joining the lines with newlines gives the stripped text back. |
| CharFinder.ParseSpec | charfinder.py:51-57 | `parse` fails on fewer than 2 fields (unpacking), then on fewer than 11 (`rest[8]`), then on a bad field 0. On success the tokens are the union of both names' tokens, and the display is the name, followed by ` (old: ...)` when field 10 is non-empty. |
| CharFinder.DisplayPlaceholder | charfinder.py:54-56 | The display text starts with `<` exactly when the name does. |
| CharFinder.QuerySet | charfinder.py:63 | The query set is exactly the upper-cased query words; duplicates collapse. |
| CharFinder.Scan | charfinder.py:61-62 | An empty query yields nothing and raises nothing. |
| CharFinder.ScanLinesSpec | charfinder.py:63-69 | The scan completes exactly when every line parses. Otherwise it stops with the error of the first line that does not parse. It yields at most one pair per line. Every yielded pair comes from a non-placeholder line whose tokens cover the query. When the scan completes, every such line is yielded. |
| CharFinder.ScanLinesFirstFailure | charfinder.py:64-65 | A scan that fails stops with the error of the first line that does not parse; every earlier line parses. |
| CharFinder.ScanLinesOne | charfinder.py:64-69 | A single line yields nothing and raises its own error when it does not parse. It yields its pair exactly once when it matches, and nothing otherwise. Together with `CharFinder.ScanLinesAppend`, this fixes the output of every scan. |
| CharFinder.ScanLinesAppend | charfinder.py:64-69 | Scanning `a + b` is scanning `a` and then, unless `a` raised, `b`; the output is in input order. |
| CharFinder.ScanCodes | charfinder.py:60-69 | When every line parses, the scan completes, and `c` is yielded exactly when some matching line has code point `c`. |
| CharFinder.ScanNonTokenWord | charfinder.py:63-68 | A query word that is empty or holds a hyphen or whitespace matches no line. |
| Agreement.ParseAgree | charfinder.py:51-57 | The two parsers accept the same lines. They agree on the code point, on the token set, and on whether the entry is a placeholder. |
| Agreement.CodeAgrees | charfinder2.py:80-86 | With distinct code points and every line parsing, `scan` yields `c` exactly when `search` over the built index does. |
| Agreement.ScanMatchesSearch | charfinder.py:60-69 | When the index builds and no two lines share a code point, `scan` completes and yields the same set of code points as `search(build_index(lines))`. |
| Loader.PartsSpec | api/loader.py:78-79 | A name part comes from splitting some whitespace word on `-`, and holds no hyphen. |
| Loader.LeadingHyphenGivesEmptyPart | api/loader.py:78-79 | If any whitespace word of a name starts with `-`, the empty string is one of the name's parts. |
| Loader.Step | api/loader.py:74-77 | A record with fewer than two fields raises the unpacking error. A record whose name contains `<` anywhere leaves both maps unchanged. |
| Loader.AddLineNames | api/loader.py:77-80 | After a kept line, `c` is filed under `p` exactly when it was before, or `c` is the line's code and `p` a part of its name. |
| Loader.CodesBounded | api/loader.py:81-82 | `code_idx` never holds more than 101 entries. |
| Loader.CapStops | api/loader.py:81-82 | Once `code_idx` is over the cap, later lines are never examined, even malformed ones. |
| Loader.CappedIsPrefix | api/loader.py:73-82 | The capped loop equals the uncapped loop over some prefix of the lines. That prefix is all the lines unless the cap was reached. |
| Loader.UncappedFails | api/loader.py:74 | The loop fails exactly when some line has fewer than two fields. |
| Loader.UncappedSpec | api/loader.py:73-80 | `code` is filed under `part` exactly when some kept line for `code` has that part. `code_idx` holds exactly the kept codes, each with the raw name of its last kept line. |
| Loader.BuildIndexesSpec | api/loader.py:68-82 | The loop fails only on a line that does not unpack. Its result has at most 101 codes, and every filed code is a key of `code_idx`. It is the uncapped result of the lines up to the break. |
| Stats.Normalise | stats.py:11 | `word.strip().upper()` has no whitespace at either end and no lower-case letter, and is empty exactly when the word is all whitespace. |
| Stats.NormaliseIdempotent | stats.py:11 | Normalising twice is normalising once. |
| Stats.Vocabulary | stats.py:8-11 | The vocabulary is exactly the normalised input lines. |
| Stats.VocabularyIsNormal | stats.py:11 | Every vocabulary entry is its own normal form. |
| Stats.DescendingUnique | stats.py:17 | Two strictly descending row sequences with the same rows are equal. |
| Stats.InsertRankedDescending | stats.py:17 | Inserting a new row into a descending ranking keeps it descending. |
| Stats.WordCount | stats.py:14-17 | The rows are exactly the (set size, word) pairs of index words in the vocabulary, strictly descending on (count, word). |
| Stats.WordCountDetermined | stats.py:16-17 | Any two rankings that meet the `WordCount` contract are equal, and each reported word appears once. |
| CharStats.Bump | charstats.py:13 | `char_count[c] += 1` raises the count of `c` by one and leaves the others alone. A new key is appended to the insertion order. |
| CharStats.BumpTotal | charstats.py:13 | An increment keeps the counter well formed and raises its total by one. |
| CharStats.CountNameSpec | charstats.py:11-13 | Counting a name adds each non-space character's number of occurrences to its count. The space is never counted. The total grows by the number of non-space characters. The insertion order is only extended. |
| CharStats.CountLine | charstats.py:8-10 | A line without field 1 raises the missing-field error. A placeholder name leaves the counter unchanged. |
| CharStats.CharCountsFails | charstats.py:7-8 | The loop fails exactly when some line has no field 1. |
| CharStats.CharCountsSpec | charstats.py:6-13 | After the loop, each character's count is its number of occurrences in the non-placeholder names. The space counts zero. The counts total the number of non-space characters in those names. |
| CharStats.SortByCountSpec | charstats.py:15 | The sort is a stable descending sort by count. The result is a permutation of the input, and the items of each count keep their input order. |
| CharStats.MostCommonSpec | charstats.py:15-16 | Every counted character appears once with its count, in non-increasing count order. Ties appear in the order the characters were first counted. |

## Left out

- Downloading, caching and file I/O (`download_ucd`, `read_ucd`'s file
  handling, `retrieve_data`, reading `/usr/share/dict/words`): the file
  contents are parameters.
- Pickle persistence in `build_index` and `read_index`: `CharFinder2.ReadIndex`
  takes the stored pair, if any, as a parameter.
- The asyncio event loop and spinner of `api/loader.py`, all `print` and
  `pprint` output, and the command-line `main` functions.
- Ucd.DecodeCodePoint: accepts only plain hex digits. `int(x, 16)` also takes
  a sign, a `0x` prefix, underscores and surrounding whitespace, none of which
  occur in `UnicodeData.txt`.
- CharFinder2.Found: looking up an absent word in the `defaultdict` at
  charfinder2.py:84 also inserts an empty set into `word_idx`. That side effect
  is not modelled; the lookup is pure, with an empty default.
- CharFinder2.Search: requires every code point in a word set to be a key of
  `char_idx`. This is the case for every built index (`CharFinder2.BuildIndex`),
  so the `KeyError` that `char_idx[char]` raises otherwise is not modelled.
- Non-ASCII `upper()`, `split()` and `strip()`: `Text` gives whitespace and
  case their ASCII meaning only.
- Stats.Normalise: `stats.py:9` opens the dictionary without an encoding, so
  its words are decoded with the locale's encoding. For non-ASCII words,
  Python's `strip().upper()` differs from `Normalise`. For example,
  `'straße'.upper()` is `'STRASSE'`, `'é'.upper()` is `'É'`, and a no-break
  space is stripped. The model gives `upper` and `strip` their ASCII meaning
  only.
- The tests in `test_charfinder.py` target an older API: a `match` function
  that does not exist, a two-valued `parse`, and a query passed as a bare
  string. Where they disagree with the code, the model follows the code. In
  particular, the query `'less-than'` matches nothing (`CharFinder.ScanNonTokenWord`).
- The doctest of `charfinder.parse` (charfinder.py:39-40) shows the display
  `FULL STOP` for a line with an old name. The code appends ` (old: PERIOD)`,
  and the model follows the code.
- Agreement.ScanMatchesSearch: stated for lines with pairwise-distinct code
  points. With repeated code points the two finders genuinely differ: `scan`
  tests each line on its own, while the index pools the tokens of every line
  for a code point.
