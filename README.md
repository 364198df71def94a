# HS code scraper core, in Dafny

This project models the data-shaping core of the HS code seed generator
`data/scraper.py`. The generator reads hand-classified product rows and turns
each row with a well-formed Harmonized System code into a database record.
The model covers:

- `validate_hs_code`: the format check, a regular expression over the
  stripped code with its spaces removed.
- `parse_hs_code`: the split into chapter, heading and subheading.
- `determine_parent_code`: the parent one level up.
- `extract_keywords`: the keyword extractor. It lowercases, replaces
  punctuation, splits, filters against `STOPWORDS` and short words,
  de-duplicates with a `seen` set, and cuts to `max_keywords`.
- `extract_common_products`: the common-product list.
- the row loop of `structure_for_db`.

The modules are:

- `Optional`: `Option`, used for NaN cells and for the absent parent code.
- `PyStr`: the Python `str` operations the core relies on, over ASCII text.
  These are `lower`, `strip`, `replace(c, '')`, whitespace `split()`,
  `split(sep)`, `join`, and the `[:n]` slice with Python's negative bounds.
- `HsCode`: the three code functions. The regular expression
  `^\d{4}(\.\d{2})?(\.\d{2})?(\.\d{2})?$` is written out structurally.
  It is proved equivalent to "the text is the canonical dotting of 4, 6, 8
  or 10 digits". Python's `$` would also match before a final newline, but
  the code was stripped before the match, so no such newline can remain.
- `Keywords`: `STOPWORDS`, `extract_keywords` and `extract_common_products`.
  The de-duplication loop is a method over a `seen` set, proved against the
  function `Dedup`.
- `Records`: the row loop. A row is a map from column name to cell, and a
  `None` cell is a NaN cell. `str()` of a NaN cell is the text `"nan"`,
  exactly as in the source. The loop is a method proved against the
  functions `Structure` (the records) and `Skipped` (the skip count).

Some consequences of the code that are easy to miss:

- Purely numeric tokens such as `123` are kept as keywords, because no
  stopword starts with a digit (`Keywords.NumericTokensKept`).
- The validator insists on the canonical dots. The undotted `87083010` is
  refused (`HsCode.ValidatorExample`). A dot anywhere but after digits 4, 6
  or 8 is refused, so `87.0830` fails (`HsCode.MisplacedDotRefused`). Codes
  of 5 or 7 digits such as `87083` and `8708301` are refused
  (`HsCode.UndottedAcceptedOnlyAsHeading`, `HsCode.AcceptedDigitCount`).
- A 10-digit dotted code needs four parent steps to reach `None`
  (`HsCode.ParentChainEnds`).
- The keyword text is the product description, material and function cells
  (data/scraper.py:285-289). The product name is not part of it.
- A record holds exactly the nine fields the loop writes. Other columns of
  the row are not carried into it.
- A NaN `product_description` cell reads as the text `nan`, which is a
  3-letter word and not a stopword, so `nan` becomes the record's first
  keyword (`Records.NanDescriptionKeyword`). A NaN `product_name` cell
  likewise gives the common products `["nan"]`
  (`Records.CommonProductsOfRow`).
- `structure_for_db` defaults its country code to `IN`
  (`Records.DefaultCountryCode`, `Records.DefaultCountryStamped`).

## Model

| member | source | states |
|---|---|---|
| PyStr.Lower | data/scraper.py:85 | `lower()` keeps the length and maps each character to its ASCII lowercase |
| PyStr.LowerStripCommute | data/scraper.py:125 | lowercasing and stripping commute, so `lower().strip()` equals stripping first |
| PyStr.Strip | data/scraper.py:54 | `strip()` returns text no longer than its input with no whitespace at either end; `TrimStart` keeps a suffix and `TrimEnd` a prefix |
| PyStr.TrimStartDropsSpace | data/scraper.py:54 | everything `lstrip` drops is whitespace |
| PyStr.StripDropsOnlySpace | data/scraper.py:54 | everything `strip()` drops, before and after the kept text, is whitespace |
| PyStr.StripOfPadded | data/scraper.py:54 | whitespace, then a text without whitespace at its ends, then whitespace, strips back to that text |
| PyStr.StripIdempotent | data/scraper.py:54 | stripping an already stripped code changes nothing (the loop strips before the validator strips again) |
| PyStr.RemoveChar | data/scraper.py:54 | `replace(c, '')` leaves no `c`, never lengthens the text, and leaves a text without `c` unchanged; PyStr.RemoveCharCons fixes it on every input (a leading `c` goes, any other leading character stays, the rest is treated the same way) and PyStr.RemoveCharAppend makes it distribute over concatenation |
| PyStr.RemoveCharCommute | data/scraper.py:148 | the order of the two `replace` calls does not matter |
| PyStr.Words | data/scraper.py:91 | `split()` yields non-empty words without whitespace, drawn from the text; what the words are is fixed by PyStr.WordsOfWord, PyStr.WordsOfBlank and PyStr.WordsSplitAtSpace |
| PyStr.WordsOfWord | data/scraper.py:91 | a non-empty text without whitespace splits into exactly itself |
| PyStr.WordsOfBlank | data/scraper.py:91 | a text of whitespace only splits into no words |
| PyStr.WordsSplitAtSpace | data/scraper.py:91 | a whitespace character separates: the words of `a + c + b` are the words of `a` followed by those of `b` |
| PyStr.JoinWith | data/scraper.py:189 | `sep.join(parts)`, characterised by PyStr.JoinSplitRoundTrip and PyStr.WordsOfJoin |
| PyStr.WordsOfJoin | data/scraper.py:91 | splitting words joined by single spaces gives the same words back |
| PyStr.SplitOn | data/scraper.py:186 | `split('.')` gives at least one part, at least two when the separator occurs, and no part contains it |
| PyStr.JoinSplitRoundTrip | data/scraper.py:186-189 | joining the parts of `split(sep)` with `sep` rebuilds the text |
| PyStr.SplitOnDropLast | data/scraper.py:186-189 | dropping the last part and rejoining gives everything before the last separator |
| PyStr.PyPrefix | data/scraper.py:108 | `s[:n]` is a prefix of length `min(n, len)` for `n >= 0`, and drops `-n` from the end for `n < 0` |
| HsCode.MatchesHsPattern | data/scraper.py:57 | the regular expression `^\d{4}(\.\d{2})?(\.\d{2})?(\.\d{2})?$` as written: four digits, then up to three `.DD` groups, then the end; fixed by HsCode.PatternIsCanonical and HsCode.CanonicalMatches |
| HsCode.Cleaned | data/scraper.py:54 | `code.strip().replace(' ', '')`, the text the pattern is matched against; HsCode.CanonicalIsValid and HsCode.CleanedOfDigitsAndDots give it on canonical and on digits-and-dots text |
| HsCode.CleanedOfDigitsAndDots | data/scraper.py:54 | a text of digits and dots is its own cleaned form |
| HsCode.ValidateHsCode | data/scraper.py:34-59 | `validate_hs_code`: false for empty input, else the pattern on the stripped, space-free text; characterised by HsCode.ValidIffCanonical |
| HsCode.ValidIffCanonical | data/scraper.py:34-59 | a code is accepted exactly when it is non-empty and its cleaned text is the canonical dotting of 4, 6, 8 or 10 digits (both directions) |
| HsCode.PatternIsCanonical | data/scraper.py:57 | text matching the pattern has 4/6/8/10 digits once its dots are removed, and is their canonical dotting |
| HsCode.CanonicalMatches | data/scraper.py:57 | the canonical dotting of 4/6/8/10 digits matches the pattern and gives back those digits |
| HsCode.CanonicalIsValid | data/scraper.py:34-59 | a canonical code passes the validator and is unchanged by strip and by removing spaces |
| HsCode.AcceptedDigitCount | data/scraper.py:50-59 | an accepted code has 4, 6, 8 or 10 digits once spaces and dots are removed |
| HsCode.AcceptedShape | data/scraper.py:57 | in an accepted code the dots stand exactly after digits 4, 6 and 8, every other character is a digit, and the length is 4, 7, 10 or 13 |
| HsCode.UndottedAcceptedOnlyAsHeading | data/scraper.py:50-59 | a non-empty code without dots is accepted if and only if it is exactly 4 digits |
| HsCode.ValidatorExample | data/scraper.py:57 | the undotted 8-digit run `87083010` is refused |
| HsCode.MisplacedDotRefused | data/scraper.py:57 | a text of digits and dots with a dot anywhere but after digits 4, 6 or 8, as in `87.0830`, is refused |
| HsCode.ParseDigits | data/scraper.py:148 | `code.replace('.', '').replace(' ', '')`; for a stripped code HsCode.ParseDigitsOfStripped equates it with the validator's cleaned text without dots |
| HsCode.ParseDigitsOfStripped | data/scraper.py:148 | for a stripped code, removing dots and then spaces gives the validator's cleaned text without its dots |
| HsCode.ParseHsCode | data/scraper.py:133-163 | for any input, chapter is a prefix of heading, heading a prefix of the subheading's digits, and those a prefix of the code's digits |
| HsCode.ParseOfValid | data/scraper.py:147-163 | for a valid stripped code: chapter = first 2 digits, heading = first 4, subheading = `DDDD.DD` from the first 6, or the heading for a 4-digit code |
| HsCode.ParseExample | data/scraper.py:138 | `8708.30.10` parses to chapter `87`, heading `8708`, subheading `8708.30` |
| HsCode.DetermineParentCode | data/scraper.py:166-197 | `determine_parent_code`, characterised by HsCode.ParentDropsLastSegment, HsCode.ParentOfUndotted and HsCode.ParentOfValid |
| HsCode.ParentIgnoresSpaces | data/scraper.py:181-182 | the parent only depends on the code with its spaces removed |
| HsCode.ParentDropsLastSegment | data/scraper.py:184-189 | a code containing a dot gets as parent everything before its last dot |
| HsCode.ParentOfDotted | data/scraper.py:184-189 | `p + "." + tail` with no dot in `tail` and no spaces has parent `p` |
| HsCode.ParentOfUndotted | data/scraper.py:191-197 | without dots: no parent for at most 4 digits, otherwise the first 4 characters |
| HsCode.ParentOfCanonical | data/scraper.py:166-197 | the parent of a canonical code is `None` for a heading, else the canonical code with its last pair dropped |
| HsCode.ParentOfValid | data/scraper.py:166-197 | a valid stripped code has 1-4 segments; it has no parent iff it has one segment; a parent is itself valid, stripped and one segment shorter |
| HsCode.ParentChainEnds | data/scraper.py:170-173 | following parents from a valid code passes one code per segment, then reaches `None` and stays there (at most 4 steps) |
| HsCode.ParentExamples | data/scraper.py:171-173 | `8708.30.10` → `8708.30` → `8708` → `None` |
| HsCode.ParentExampleUndotted | data/scraper.py:196-197 | the undotted run `87083010` gets parent `8708` even though the validator refuses it |
| Keywords.Stopwords | data/scraper.py:25-31 | the 42 words of `STOPWORDS`, listed in the source's order |
| Keywords.IsStopword | data/scraper.py:96 | `word in STOPWORDS`, looked up entry by entry; Keywords.ListedIsMember proves it is membership |
| Keywords.ListedIsMember | data/scraper.py:25-31 | the entry-by-entry stopword lookup is membership in the list |
| Keywords.StopwordsStartWithLetter | data/scraper.py:25-31 | every stopword is non-empty and starts with a letter `a`-`z` |
| Keywords.StopwordInitials | data/scraper.py:25-31 | every stopword is non-empty and starts with a letter outside `j`-`n` |
| Keywords.NoStopwordStartsWithN | data/scraper.py:25-31 | a word starting with `n` (such as `nan`) is not a stopword |
| Keywords.DigitWordNotStopword | data/scraper.py:25-31 | a word starting with a digit is never a stopword |
| Keywords.Sanitize | data/scraper.py:88 | each character outside `[a-z0-9\s]` becomes a space, the others stay, the length is kept |
| Keywords.SanitizeOfClean | data/scraper.py:88 | text of `[a-z0-9]` and whitespace only is unchanged |
| Keywords.Tokens | data/scraper.py:85-91 | `text.lower()`, then `re.sub(r'[^a-z0-9\s]', ' ', ...)`, then `split()`; fixed by Keywords.TokenChars, Keywords.TokensOfJoin and Keywords.TokensOfLeadingWord |
| Keywords.TokenChars | data/scraper.py:84-91 | every token is a non-empty run of `[a-z0-9]` |
| Keywords.DottedStopwordsNeverMatch | data/scraper.py:30 | no token is ever `e.g` or `i.e`, so those two stopwords never filter anything |
| Keywords.IsKeyword | data/scraper.py:96 | the comprehension's condition: not a stopword and at least 3 characters |
| Keywords.FilterKeywords | data/scraper.py:93-97 | every kept word is at least 3 characters long and not a stopword |
| Keywords.FilterKeywordsMembers | data/scraper.py:93-97 | a word is kept iff it is one of the input words, not a stopword and at least 3 long |
| Keywords.FilterOfKeywords | data/scraper.py:93-97 | a list of keywords passes the filter unchanged |
| Keywords.Dedup | data/scraper.py:99-105 | the list the `seen` loop builds, fixed by Keywords.DedupMembers and Keywords.DedupFirstSeenOrder |
| Keywords.DedupMembers | data/scraper.py:99-105 | the de-duplicated list has no repeats and holds exactly the words of its input |
| Keywords.DedupFirstSeenOrder | data/scraper.py:99-105 | the de-duplicated words come in the order of their first occurrence |
| Keywords.DedupHead | data/scraper.py:99-105 | the first word of a non-empty list is the first word after de-duplication |
| Keywords.DedupOfDistinct | data/scraper.py:99-105 | a list without repeats is unchanged |
| Keywords.UniqueInOrder | data/scraper.py:100-105 | the `seen`-set loop computes the de-duplicated list |
| Keywords.KeywordsOf | data/scraper.py:62-108 | what `extract_keywords` returns, characterised by Keywords.KeywordsProperties, Keywords.KeywordsComplete, Keywords.KeywordsFirstSeenOrder and Keywords.KeywordsRoundTrip |
| Keywords.ExtractKeywords | data/scraper.py:62-108 | the extractor returns `KeywordsOf`: nothing for a missing or empty text, else the cut of the de-duplicated, filtered tokens |
| Keywords.KeywordsProperties | data/scraper.py:62-108 | empty for a missing or empty text; at most `max_keywords` many; no repeats; each one a token of the text, at least 3 long, not a stopword, all `[a-z0-9]` |
| Keywords.KeywordsComplete | data/scraper.py:93-108 | when `max_keywords` is at least the number of distinct qualifying tokens, every token of at least 3 characters that is not a stopword is among the keywords |
| Keywords.KeywordsFirstSeenOrder | data/scraper.py:99-108 | the keywords appear in the order of their first occurrence among the tokens |
| Keywords.NumericTokensKept | data/scraper.py:93-97 | a numeric token of at least 3 digits survives filter and de-duplication |
| Keywords.TokensOfJoin | data/scraper.py:84-91 | lowercase alphanumeric words joined by spaces tokenize back to themselves |
| Keywords.TokensOfLeadingWord | data/scraper.py:85-91 | a lowercase alphanumeric word followed by a space is the first token, and the rest of the text tokenizes on its own |
| Keywords.FilterKeepsHead | data/scraper.py:93-97 | a keyword at the head of the words stays at the head after filtering |
| Keywords.KeywordsOfLeadingWord | data/scraper.py:62-108 | a text starting with a keyword and a space has that keyword first, whenever `max_keywords >= 1` |
| Keywords.KeywordsRoundTrip | data/scraper.py:62-108 | extracting from distinct keywords joined by spaces gives them back when the bound allows them all |
| Keywords.ExtractCommonProducts | data/scraper.py:111-130 | a non-empty product name yields `[name.lower().strip()]`; a missing or empty one yields nothing |
| Records.RowCode | data/scraper.py:262 | `str(row.get('hs_code', '')).strip()`, the code the loop checks and stores |
| Records.HasValidCode | data/scraper.py:265 | the loop's check `validate_hs_code(hs_code)` on that code |
| Records.Cell | data/scraper.py:262 | `str(row.get(column, default))`: the default for a missing column, `"nan"` for a NaN cell, else the cell's text |
| Records.Present | data/scraper.py:276-279 | `pd.notna(row.get(column))`: the column exists and its cell is filled |
| Records.DescriptionParts | data/scraper.py:274-280 | the stripped filled `hs_description` and `product_description` cells, in that order; Records.DescriptionRule gives the four cases |
| Records.FullDescription | data/scraper.py:273-282 | the description, characterised by Records.DescriptionRule |
| Records.KeywordText | data/scraper.py:285-289 | the product description, material and function cells joined by single spaces |
| Records.BuildRecord | data/scraper.py:270-311 | the record the loop builds from a row with a valid code; its fields are fixed by Records.RecordOfValidRow, Records.DescriptionRule and Records.CommonProductsOfRow |
| Records.RecordForRow | data/scraper.py:270-311 | the record built for a row holds the parsed code parts, description, keywords, common products and parent of `BuildRecord` |
| Records.AppendRecord | data/scraper.py:270-313 | the loop body for a row with a valid code turns the records of the rows before into those of one row more |
| Records.AddRow | data/scraper.py:261-313 | one pass of the loop extends the records and skip count from those of the rows before to those of one row more |
| Records.Structure | data/scraper.py:258-313 | the list of records the loop returns, fixed by Records.StructureFollowsRows, Records.StructureKeeps and Records.StructureDrops |
| Records.Skipped | data/scraper.py:258-268 | the skip count, fixed by Records.SkippedStep and Records.RecordsPlusSkipped |
| Records.StructureForDb | data/scraper.py:233-321 | the loop returns `Structure(rows)` (the records of the rows with valid codes, in order) and `Skipped(rows)` |
| Records.StructureKeeps | data/scraper.py:298-313 | a row with a valid code appends its record after those of the earlier rows |
| Records.StructureDrops | data/scraper.py:264-268 | a row with an invalid code adds no record |
| Records.SkippedStep | data/scraper.py:264-268 | a row with an invalid code adds one to the skip count, a valid one adds nothing |
| Records.RecordsPlusSkipped | data/scraper.py:258-268 | records plus skipped rows equal the number of rows |
| Records.StructureFollowsRows | data/scraper.py:261-313 | the i-th record is the record of the i-th row with a valid code; those rows come in increasing order and are exactly the rows whose stripped code passes the validator |
| Records.RecordOfValidRow | data/scraper.py:262-311 | the record of a row with a valid code holds that code and is well formed |
| Records.DefaultCountryStamped | data/scraper.py:233 | with the default country code every record is stamped `IN` |
| Records.RecordFields | data/scraper.py:300-313 | every returned record is well formed: valid stripped code, caller's country code, parent from the parent lookup, chapter/heading/subheading from the code's digits, at most 15 distinct keywords |
| Records.DescriptionRule | data/scraper.py:273-282 | the description is both filled descriptions stripped and joined by `" - "`, just one when one is filled, else `"No description"` |
| Records.CommonProductsOfRow | data/scraper.py:291-295 | common products are `[name.lower().strip()]` for a non-empty name cell, and `["nan"]` for a NaN name |
| Records.NanDescriptionKeyword | data/scraper.py:285-289 | a NaN `product_description` cell makes `nan` the record's first keyword |
| Records.NanIsKeyword | data/scraper.py:93-97 | `nan` is a 3-letter lowercase word and not a stopword |
| Records.NanIsPlain | data/scraper.py:125 | the text `"nan"` is non-empty and unchanged by lowercasing and stripping |
| Records.EmptyCodeSkipped | data/scraper.py:262-268 | a row whose code cell is NaN (text `"nan"`) is skipped and adds no record |

## Left out

- `read_csv`, `save_json`, `generate_summary` and `main` are file I/O, console reporting and the entry point. They are not part of this model.
- The `print` calls in `structure_for_db` are not modelled. The skip count they report is returned as a second result of `Records.StructureForDb` instead.
- The row index `idx` is only used in messages and is not modelled.
- Text is ASCII. Unicode case mapping in `lower()`, Unicode whitespace in `strip()`/`split()`/`\s`, and Unicode digits matched by `\d` are not modelled.
- Cells are text or NaN. pandas may read a numeric column as numbers, so `str()` of a float such as `8708.3` is not modelled.
- `STOPWORDS` is a Python set; the model lists it, because only membership is ever used.
- Keywords.ExtractKeywords: `max_keywords` is any integer, with Python slice semantics. The row loop always uses the default 15.
- Keywords.ExtractCommonProducts takes the description argument but, like the source, ignores it.
- HsCode.ParseOfValid, HsCode.ParentOfValid and HsCode.ParentChainEnds: these require the code to be already stripped, as it is in the row loop. For unstripped input only the general lemmas (`HsCode.ParseHsCode`, `HsCode.ParentDropsLastSegment`, `HsCode.ParentOfUndotted`) apply, because parsing and the parent lookup remove only spaces and dots, not tabs or newlines.
