# DuBibtex parser core in Dafny

DuBibtex merges BibTeX files into one file. A `Parser` object reads the
input line by line:

- an opening line `@type{key,` starts an entry;
- field lines `name = {value}` set its fields;
- the closing line `}` completes the entry and writes it out.

Completing an entry (`write_current_item`) does the following:

- infers a missing or short year from the citation key;
- fills a missing DOI from the offline DOI cache or from a web search;
- escapes the underscores of the DOI and records it in the cache;
- title-cases the title, journal and book title;
- writes the entry without its removed fields.

A key that was seen before is skipped up to its closing line.

The model has two layers.

- **Value layer.** It holds the parser's state and what each operation makes of it:
  - `Machine` has `ParserState`, `Init`, `Clear`, `AddNewBib`, `WriteCurrentItem` and `ParseLine`.
  - `Entry` has the steps of `write_current_item` on a `Progress` record.
  - The lemmas about those steps are stated there.
- **Object layer.** `BibParser.Parser` is a class whose fields are the attributes of the Python object. Each method updates them in place. Each method is proved to reach exactly the state the value layer gives.

`Dict` models the insertion-ordered Python `dict` of an entry. `Lines` models the four line patterns. `YearKey` models the year pattern `\w+(\d+)`. The three helpers are `Levenshtein` (`levenshtein`), `Underscore` (`fix_underscore`) and `TitleCase` (`capitalize`). `Output` models the text written for an entry. It proves that the parser reads the written line of each readable field back as the same field. A field is readable when its value has no line break, does not start with white space and, outside the title, does not start with `{`.

Python exceptions are modelled as a returned `Status` (`Raised(KeyError("year"))`, `Raised(TypeError)`, and so on), together with the state as it was when the exception was raised. The network answers are a `Lookup` parameter with three parts:

- the arXiv identifier found on the search page;
- the DOI `google_lookup` returns;
- the DOI `crossref_lookup` returns.

The configuration file's settings are a `Config` parameter. The saved DOI cache is a `map` given to the constructor.

In four places the code does something other than what its patterns and names suggest. The model follows the code each time:

- **Year from the key.** `\w+(\d+)` is greedy, so the group is only the last digit of the run. The key `Smith2020Test` gives the year `"0"`, not `"2020"` (`YearKey.YearOfSmith2020Test`).
- **Underscore escape.** `fix_underscore` replaces the character before an underscore together with the underscore. So `ab_c` becomes `a\_c` (`Underscore.FixUnderscoreDropsPrecedingChar`). It does not insert an escape.
- **Venue reordering.** The IEEE reordering `s[p + 2:] + s[:p]` puts no space between the two parts (`TitleCase.ReorderSpec`). So `Computer Vision, IEEE Conference on` becomes `IEEE Conference onComputer Vision` before casing. The default `capitalize(s)` reorders again in its second pass when the first pass leaves a comma before a text ending in " on". The result then starts with whatever followed that comma's next character, which can be a space: `x,a y on, z on` becomes ` Y OnZ Onx`. It never holds two spaces side by side, though (`TitleCase.CapitalizedNoDoubleSpace`).
- **Braces and leading spaces in values.** A value is written between one pair of braces (two for the title), and the field patterns drop what looks like a brace or white space at its start. Outside the title, a value `{x}` is written as `  key={{x}}`, and the double-braced pattern, which is tried first, reads it back as `x` (`Output.BracedValueLosesBraces`). Such a value arises from an input line like `  author = "{Foo}",`, which only the single-braced pattern matches. A value that starts with white space loses it to the `\s*` after the brace.

A missing year with the search switched on raises a `KeyError`, as in the code (`Entry.FinalizeErrors`).

## Model

| member | source | states |
|---|---|---|
| Dict.SetSpec | DuBibtex.py:103-105 | `d[k] = v`: k now maps to v; every other key keeps its value; keys stay distinct; the key order is kept and a new key goes last |
| Dict.DeleteSpec | DuBibtex.py:143 | `del d[k]`: k is gone; every other key keeps its value; keys stay distinct; the remaining keys keep their order (the key list less k); one fewer key when k was present |
| Lines.MatchOpening | DuBibtex.py:37 | a recognised opening line has a non-empty word-character type and a non-empty key of word characters and dots |
| Lines.LastClose | DuBibtex.py:38-39 | the greedy `(.*)` ends at the largest position after which the pattern closes; None exactly when no position closes |
| Lines.FieldValue | DuBibtex.py:38-39 | the captured value never holds a line break (`.` stops there) |
| Lines.MatchField | DuBibtex.py:38-39 | a recognised field line has a non-empty word-character name and a value without line breaks |
| Lines.LineKindsExclusive | DuBibtex.py:173-200 | a closing line is neither an opening nor a field line, and an opening line is no field line |
| Text.ParseIntDecimal | DuBibtex.py:119 | `int()` reads back every decimal numeral as its value |
| Text.ParseIntDigits | DuBibtex.py:119 | `int()` of a non-empty digit string is the value of the digits |
| YearKey.YearSearchIsReported | DuBibtex.py:53 | the search finds the match a backtracking engine reports (leftmost, longest `\w+`, then longest `\d+`), or none when no match exists |
| YearKey.SearchFromIsLeftmostGreedy | DuBibtex.py:53 | from each position, the search reports the leftmost greedy match or that none exists |
| YearKey.ReportedGroupIsOneDigit | DuBibtex.py:53 | the reported group is always exactly one character |
| YearKey.YearCaptureIsOneDigit | DuBibtex.py:111-113 | an inferred year is one digit; there is none exactly when the key has no match |
| YearKey.YearCaptureOfReported | DuBibtex.py:111-113 | any match with the engine's priorities determines the captured group |
| YearKey.YearOfSmith2020Test | DuBibtex.py:111-113 | the key `Smith2020Test` yields the year "0" |
| Underscore.FixUnderscore | DuBibtex.py:336-337 | length is kept; each character is kept or becomes `\` where a non-underscore precedes an underscore; every such pair starts with `\` afterwards |
| Underscore.FixUnderscoreIdempotent | DuBibtex.py:336-337 | escaping twice equals escaping once |
| Underscore.FixUnderscoreDropsPrecedingChar | DuBibtex.py:336-337 | `ab_c` becomes `a\_c`: the character before the underscore is lost |
| Levenshtein.EditDistanceSymmetric | DuBibtex.py:228-247 | the edit distance does not depend on the argument order |
| Levenshtein.EditDistanceSelfAndEmpty | DuBibtex.py:234-235 | a string is at distance 0 from itself and at its length from the empty string |
| Levenshtein.EditDistanceBounds | DuBibtex.py:228-247 | the distance lies between the length difference and the longer length |
| Levenshtein.CaselessDistanceProperties | DuBibtex.py:229-232 | the distance is case-insensitive, symmetric, 0 on equal strings, and the length against "" |
| Levenshtein.NextRow | DuBibtex.py:239-245 | one outer-loop pass turns row i of the distance table into row i + 1 |
| Levenshtein.DistanceTable | DuBibtex.py:237-247 | the two-row dynamic programme returns the edit distance |
| Levenshtein.ComputeLevenshtein | DuBibtex.py:228-247 | `levenshtein(s1, s2)` returns the case-insensitive edit distance |
| TitleCase.RFind | DuBibtex.py:345-346 | `rfind` gives the last position of the character, or -1 |
| TitleCase.Split | DuBibtex.py:349 | `split` gives at least one piece, and no piece holds the separator |
| TitleCase.JoinSplit | DuBibtex.py:349-358 | joining the pieces of a split gives the string back |
| TitleCase.SplitJoin | DuBibtex.py:349-358 | splitting a join of separator-free pieces gives the pieces back |
| TitleCase.ReorderSpec | DuBibtex.py:345-347 | when the last comma p is past 0 and the text ends in " on": no comma follows p, the result is two characters shorter and holds the same characters less the comma and the one after it, and the text after p + 1 now precedes the text before p; otherwise the text is unchanged |
| TitleCase.CaseAndJoin | DuBibtex.py:349-358 | the word loop and the join produce the join of the cased words |
| TitleCase.Capitalize | DuBibtex.py:340-360 | `capitalize(s, spliter)` is one pass over `spliter`, then one over '-' unless `spliter` is '-' |
| TitleCase.CasedWordsFollowNonEmpty | DuBibtex.py:350-357 | the cased words are the non-empty words, in order, each changed only in the case of its letters |
| TitleCase.CasedWordsRule | DuBibtex.py:351-357 | the k-th cased word comes from the k-th non-empty word, at split position i (empty words counted): at an interior position a stop word is lower-cased; at the first or last position, or when not a stop word, its first letter is upper-cased and the rest kept |
| TitleCase.CaseWordChangesOnlyCase | DuBibtex.py:354-357 | casing a word keeps its length and its lower-case form |
| TitleCase.StopWordIosUnreachable | DuBibtex.py:341 | the stop word "iOS" never matches a lower-cased word |
| TitleCase.CasedWordsIdempotent | DuBibtex.py:351-357 | when the first and last words are non-empty (empty words elsewhere allowed), casing the cased words changes nothing |
| TitleCase.NoCommaNoReorder | DuBibtex.py:345-347 | a text without a comma is never reordered |
| TitleCase.PassIdempotent | DuBibtex.py:340-360 | for a text without a comma, a second pass over ' ' or '-' changes nothing, and `capitalize(s, '-')` applied to its own result changes nothing |
| TitleCase.CommaPassesTwice | DuBibtex.py:343-360 | with two commas each followed by text ending in " on", `capitalize(s, '-')` reorders once more when applied to its own result, so it is not idempotent ("a, on, b on" gives "B ona, on", then "OnB ona") |
| Text.TrimShape | DuBibtex.py:343 | `strip` keeps only characters of the text, and what remains neither starts nor ends with a stripped character |
| Text.TrimNoOp | DuBibtex.py:343 | `strip` leaves a text unchanged when neither end is a stripped character |
| TitleCase.CapitalizedNoDoubleSpace | DuBibtex.py:340-360 | the default `capitalize(s)`, a pass over ' ' and then one over '-', never leaves two spaces side by side |
| TitleCase.PassHasNoEmptyWord | DuBibtex.py:349-358 | a pass never leaves two separators side by side, nor one at either end |
| TitleCase.CasedWordsHaveNoSeparator | DuBibtex.py:352-357 | the cased words are non-empty and hold no separator |
| TitleCase.JoinNoDoubledSeparator | DuBibtex.py:358 | joining non-empty, separator-free pieces puts no separator twice in a row or at either end |
| Output.NormalizedGet | DuBibtex.py:145-149 | title-casing keeps the keys; a key that is not titled, or is removed, keeps its value; a titled kept key gets its capitalised value |
| Output.TrailingComma | DuBibtex.py:144-160 | the body ends in `,` before `}` exactly when the entry's last key is removed |
| Output.HeaderReadBack | DuBibtex.py:108 | the opening line written for an entry is read as an opening line with the same type and key |
| Output.TitleNeedsDoublePattern | DuBibtex.py:198-200 | on a written title line the single-braced pattern would keep the inner braces in the value, while the line as a whole, double-braced pattern first, reads back as the title itself |
| Output.BracedValueLosesBraces | DuBibtex.py:198-200 | outside the title, the written line of a value `{x}` reads back as `x`: the double-braced pattern, tried first, takes the value's braces for its own |
| Output.NotDoubleBraced | DuBibtex.py:39 | the double-braced pattern fails on a line whose value does not open with `{` |
| Output.MatchFieldIs | DuBibtex.py:38-39 | on a written-field-shaped line, the field pattern captures the name and exactly the value |
| Output.WrittenLineShape | DuBibtex.py:152-159 | a written field line has that shape, holding the name and the value |
| Output.FieldLineReadBack | DuBibtex.py:152-159 | every readable field, written with or without its comma, is read back by the field patterns as itself |
| Output.BodyReadsBack | DuBibtex.py:143-160 | every kept, readable field line of a body reads back as its field |
| Entry.InferYearSpec | DuBibtex.py:110-113 | only the year changes; a year of 4+ characters stays; otherwise the key's capture replaces it when present; a changed year is one digit |
| Entry.FixDoiSpec | DuBibtex.py:99-105 | the DOI is set, and the link too when DOI2URL is set; other fields stay; both counters go up by one with statistics on |
| Entry.PreparedSpec | DuBibtex.py:108-117 | the header is written, the year inferred, and a cached DOI stored; other fields and the cache are unchanged; the counters grow together by at most one |
| Entry.SearchWantedSpec | DuBibtex.py:119-120 | the search is wanted exactly when search is on, the year parses above the minimum, there is no DOI and the type (any case) is neither misc nor book; it is not wanted exactly when search is off or, with a parsing year, the year is at most the minimum, there is a DOI or the type is misc or book; a raise needs search on: a missing year or type, or a year `int()` rejects |
| Entry.SearchSpec | DuBibtex.py:121-137 | the search succeeds exactly when there is a title; it changes at most the DOI, the link and the counters (missing +1 at most, never more fixed than missing) |
| Entry.SearchedSpec | DuBibtex.py:119-137 | condition plus search: an entry with a DOI is unchanged; errors come only with search on, for a missing year, title or type or a bad year |
| Entry.EscapeDoiSpec | DuBibtex.py:139-141 | a present DOI is escaped and cached under the key; nothing else changes |
| Entry.EmitSpec | DuBibtex.py:143-160 | the type is gone, the other keys stay in their order (the key list less `type`), keys stay distinct, non-titled or removed fields keep their values, and the cache and counters are unchanged |
| Entry.FinalizeKeepsFields | DuBibtex.py:107-160 | fields other than year, DOI, link and type keep their values, except titled fields that are written |
| Entry.FinalizeKeepsLongYear | DuBibtex.py:110 | a year of four or more characters is never overwritten |
| Entry.FinalizeGet | DuBibtex.py:107-160 | a field the later steps do not touch ends as year inference left it |
| Entry.FinalizeDistinct | DuBibtex.py:107-160 | the entry never gets a key twice, whether the call completes or raises |
| Entry.NotWantedIgnoresLookup | DuBibtex.py:119-137 | without the search condition, the result does not depend on the network |
| Entry.NoSearchIgnoresLookup | DuBibtex.py:119 | with search off, the result does not depend on the network |
| Entry.CacheHitIgnoresLookup | DuBibtex.py:115-119 | a key in the DOI cache is never searched for |
| Entry.DoiPresentIgnoresLookup | DuBibtex.py:119 | an entry with a DOI is never searched for |
| Entry.MiscOrBookIgnoresLookup | DuBibtex.py:120 | `misc` and `book` entries, in any case, are never searched for |
| Entry.ParseIntOneDigit | DuBibtex.py:119 | `int()` of one digit is at most 9 |
| Entry.InferredYearIgnoresLookup | DuBibtex.py:110-120 | with a minimum year of 9 or more, an entry whose year was inferred is never searched for |
| Entry.FinalizeErrors | DuBibtex.py:107-137 | KeyError('type') exactly when the type is missing, with nothing done; other raises need search on and come after the header is written: a year missing from both the entry and the key, a bad year, or a missing title |
| Entry.FinalizeRecordsDoi | DuBibtex.py:139-141 | after a completed call the key is cached exactly when the entry has a DOI, under that escaped DOI; a cached DOI comes back escaped; other keys are untouched |
| Entry.CompletedRecordsDoi | DuBibtex.py:139-160 | escaping and emission record the DOI of the searched entry in the cache |
| Entry.FinalizeCounters | DuBibtex.py:99-137 | each call counts at most one missing DOI, never more fixed than missing, and nothing fixed with statistics off |
| Entry.FinalizeOutput | DuBibtex.py:107-160 | a completed call writes the header with the type and key, then the body of the finished entry; the entry has no type left; each readable written field reads back as itself |
| Machine.InitConsistent | DuBibtex.py:56-88 | the new parser is idle, with no entries, and satisfies the invariant |
| Machine.AddNewBibConsistent | DuBibtex.py:162-169 | `add_new_bib` keeps the invariant and sets `bib` to the key |
| Machine.AddNewBibFirstWins | DuBibtex.py:162-169 | a repeated key changes nothing stored and marks the entry as duplicate; a new key is stored with only its type and becomes current; other entries are unchanged |
| Machine.WriteCurrentItemConsistent | DuBibtex.py:107-160 | writing keeps the invariant, whether it completes or raises |
| Machine.ParseLineConsistent | DuBibtex.py:171-202 | every line keeps the invariant, whether the call completes or raises |
| Machine.FieldSetConsistent | DuBibtex.py:201-202 | storing a read field keeps the invariant |
| Machine.DuplicateLineOnlyCounts | DuBibtex.py:180-184 | inside a repeated entry a non-closing line changes only the duplicate counter, and only with statistics on |
| Machine.ClosingLineResets | DuBibtex.py:173-177 | a closing line that returns leaves the parser idle; a duplicate is cleared without writing; otherwise the entry is written, and a raise skips the reset |
| Machine.StrayClosingLineRaises | DuBibtex.py:173-177 | a closing line with no current entry raises TypeError; a second one raises KeyError('type'); neither writes anything |
| Machine.IdleLinePassesThrough | DuBibtex.py:191-195 | while idle, a non-opening line is copied exactly when comments are kept, and nothing else changes |
| Machine.OpeningLineStartsEntry | DuBibtex.py:186-202 | an opening line starts its entry and is not itself read as a field |
| Machine.FieldLineSetsField | DuBibtex.py:197-202 | inside an entry, a field line sets that field, overwriting an earlier value; other fields and entries are unchanged |
| Machine.OtherLineIgnored | DuBibtex.py:197-202 | inside an entry, a line of no kind changes nothing |
| Machine.ClosingLineWritesEntry | DuBibtex.py:107-177 | closing an open entry writes its header and body, records its DOI, removes its type, keeps the set of keys, and leaves the parser idle |
| BibParser.Parser.constructor | DuBibtex.py:65-88 | the new object's attributes are `Machine.Init`: the signature lines are written when `printSelfInfo` is set, and the saved cache is loaded when `useOfflineDOI` is set |
| BibParser.Parser.Clear | DuBibtex.py:90-92 | the attributes become `Machine.Clear` of the old ones |
| BibParser.Parser.FixDoi | DuBibtex.py:99-105 | the current entry and counters become `Entry.FixDoi` of the old ones |
| BibParser.Parser.AddNewBib | DuBibtex.py:162-169 | the attributes become `Machine.AddNewBib` of the old ones |
| BibParser.Parser.PrepareEntry | DuBibtex.py:108-117 | header, year inference and cache lookup update the object as `Entry.Prepared` says |
| BibParser.Parser.SearchDoi | DuBibtex.py:121-137 | the search updates the object as `Entry.Search` says; a missing title raises with nothing changed |
| BibParser.Parser.RecordDoi | DuBibtex.py:139-141 | the DOI is escaped and cached as `Entry.EscapeDoi` says |
| BibParser.Parser.EmitEntry | DuBibtex.py:143-160 | type deletion and the emission loop update the entry and the output as `Entry.Emit` says |
| BibParser.Parser.FinishEntry | DuBibtex.py:139-160 | escaping followed by emission |
| BibParser.Parser.WriteCurrentItem | DuBibtex.py:107-160 | the new state and the status are those of `Machine.WriteCurrentItem` |
| BibParser.Parser.ParseLine | DuBibtex.py:171-202 | the new state and the status are those of `Machine.ParseLine`, and the invariant holds afterwards |
| BibParser.Parser.CloseEntry | DuBibtex.py:173-177 | the closing-line branch of `parse_line` |
| BibParser.Parser.ReadLine | DuBibtex.py:186-202 | the opening, comment and field branches of `parse_line`, whatever the network would answer |
| BibParser.EmitFields | DuBibtex.py:144-159 | the loop leaves the entry title-cased as `Output.Normalized` says, and writes exactly `Output.FieldLines` of it |
| BibParser.EmitField | DuBibtex.py:146-159 | one pass: position i becomes its normalised field, and the text is that position's line |
| BibParser.TitleCaseField | DuBibtex.py:148-149 | `cur[key] = capitalize(cur[key])` changes only position i, to its normalised field |
| BibParser.WriteField | DuBibtex.py:152-159 | the text is `  key={value}` (doubled braces for the title), a comma unless last, and a line break |

## Left out

- Network access is not modelled. `request_url`, `google_lookup` and `crossref_lookup` (`DuBibtex.py:32-33`, `216-225`, `250-333`) are replaced by the `Lookup` parameter. The model keeps what is done with their answers: a falsy Google answer falls back to CrossRef, and a truthy one is stored with `fix_doi`.
- The ACM branch of `google_lookup` (`DuBibtex.py:253-283`) is not modelled. The model takes the lookup to write nothing into the current entry, while the code does. At :272 each key of the downloaded entry (other than `class`, `href`, `doi` and `numpages`) is written into `parser.cur`. The writes stay when `levenshtein` of the two titles is at most 2. When it exceeds 2, :277 rebinds `parser.cur` to the copy taken at :265 for the last line that :262-263 do not skip, which holds every write made before that line. The stored `bibDict[bib]` keeps every write, and :145-159 then emit the copy. When :262-263 skip every line, `old_cur` is never bound and :274 raises `UnboundLocalError`. The answer the branch returns is covered by the `Lookup` parameter.
- SearchSpec: states the search's effect under the assumption above; the ACM writes into the current entry are not modelled.
- SearchedSpec: as SearchSpec; an entry changed by the ACM branch is not covered.
- FinalizeKeepsFields: the kept fields are those the model's search leaves alone; the ACM branch can overwrite any of them.
- FinalizeKeepsLongYear: the ACM branch can overwrite the year, which the model does not capture.
- FinalizeGet: holds only for the model's search, which leaves the fields alone.
- FinalizeErrors: the `UnboundLocalError` of the ACM branch is not among the modelled raises.
- ClosingLineWritesEntry: the written body is that of the model's entry; the detached copy the ACM branch can leave behind is not modelled.
- CasedWordsIdempotent: says nothing of the default `capitalize(s)`, a ' ' pass followed by a '-' pass, whose idempotence is not proved. `PassIdempotent` covers one pass and `capitalize(s, '-')` on comma-free text, and `CommaPassesTwice` shows that with commas `capitalize(s, '-')` is not idempotent.
- Configuration parsing, opening and closing files, loading and dumping the JSON DOI cache, `shut_down` and the `__main__` loop are not modelled. They are file I/O. Their results are the `Config` parameter, the `savedDois` parameter of the constructor and the `out` string.
- `debug_bib`, `print_statistics` and the `print` calls write only to the console, so they are not modelled. The duplicate counter is modelled.
- Character classes are ASCII-only. `\w`, `\s`, `\d`, `lower()` and `upper()` do not cover Unicode, and `int()` does not accept non-ASCII digits.
- An exception in Python ends the program. The model returns `Raised(...)` with the state as it was when the exception was raised, and `BibParser.Parser.WriteCurrentItem` and `ParseLine` stop there.
- `cur` is a Python reference to a dict stored in `bibDict`. The model keeps it as the key under which that dict is stored. Every write through `cur` is a write to `bibDict[cur]`, so aliasing beyond that is not modelled.
- BibParser.Parser.EmitEntry: `del self.cur['type']` and the loop are computed on the entry's value and then stored in one assignment. In Python the loop writes each capitalised field into the stored dict as it goes. The result is the same, but the object is not updated in place during the loop.
- The `Re.doi*`, `Re.acm*` and `Re.ieee` patterns (`DuBibtex.py:41-52`) are used only on web pages, so they are not modelled.
