# Redirect merger, modelled in Dafny

The redirect merger reconciles two sites' page lists for a migration. Each list
is a `title,url` text blob whose first line is a header. Every old page is
matched to the new page whose key is most similar to its own. The key is the
title or, in turbo mode, the title followed by the slug-normalised URL. Matches
rated at least the similarity threshold become rows of a redirect table
`Old URL,New URL`. Commas in URLs are written as `%2C`. Each side's base URL is
removed from its URLs.

The model has four modules:

- `Wrappers` holds `Option` and `Result`. `None` stands for JavaScript's
  `undefined`, and `Err` for an exception that ends a run.
- `JsString` gives the JavaScript string built-ins the code relies on, on
  `seq<char>`:
  - `split` on one character and array `join`;
  - `indexOf`, and `replace` with a string pattern, which replaces the first
    occurrence only;
  - `replace` with a global one-character regular expression.

  Each comes with its partner lemma, for example split/join round trips.
- `MergeRedirects` holds the data model, the helpers, and `csvToArray` as a
  loop. It specifies the matching loop by the functions `Lookup`, `Redirect`
  and `Pairs`, and the output by `Render`. `mutate` is the method `Mutate`,
  whose loop is proved to compute `Merge`. Its loop body is `RedirectOne`,
  proved to compute `Redirect`.
- `MergeProperties` proves what the merger promises:
  - the parser's field and line rules;
  - the escaping and base-URL-stripping rules;
  - the lookup rule and its error cases;
  - that raising the threshold never adds a row;
  - that old records are handled independently and in order;
  - the exact shape of the output table;
  - a whole run for a page that keeps its title.

The similarity rating is the parameter `rate`, a function from two strings to
a real in [0, 1]. The best match is the first candidate of maximal rating.

A run can throw in two places, and both become `Err` results rather than
preconditions:

- `MissingUrl`: a row without a comma has no URL (`undefined`), and
  `sanitiseUrl` or `sanitiseCommas` is called on it. In turbo mode this happens
  as soon as such a row is keyed. In title mode it happens only when such a row
  takes part in a kept redirect.
- `NoCandidates`: the best match is asked for among no new records.

A run does not carry on past these failures, so two ordinary-looking inputs
end a run without a table:

- an old record against an empty new set fails with `NoCandidates`;
- in turbo mode, a new blob ending in a newline fails with `MissingUrl`,
  because its empty last line has no URL (`TurboTrailingNewline`).

The model follows the code as written:

- Lines are split at `\n` only. A carriage return before it stays in the URL.
- The threshold is not checked against [0, 1].
- The slug normalisation replaces the first literal four-character text
  `///g` with a space, as written, and does not collapse slashes.

## Model

| member | source | states |
|---|---|---|
| `JsString.Split` | src/utils/useMergeRedirects.ts:94 | `split` on one character yields one more piece than there are separators, and no piece holds the separator |
| `JsString.JoinSplit` | src/utils/useMergeRedirects.ts:94 | joining the pieces of a split with the separator gives the original string back |
| `JsString.SplitJoin` | src/utils/useMergeRedirects.ts:99 | splitting a join of separator-free pieces gives the pieces back |
| `JsString.IndexOf` | src/utils/useMergeRedirects.ts:86 | the position `replace` acts on is an occurrence of the pattern with none before it, and absence means no occurrence anywhere |
| `JsString.Join` | src/utils/useMergeRedirects.ts:75 | `join` puts the first piece first; its exact contents follow from `JoinSplit` and `SplitJoin` |
| `JsString.ReplaceFirst` | src/utils/useMergeRedirects.ts:86 | `replace` with a string pattern leaves a string without the pattern unchanged; otherwise the replacement sits at the first occurrence, and putting the pattern back there gives the original |
| `JsString.ReplaceAll` | src/utils/useMergeRedirects.ts:90 | a global one-character replace grows the string by the replacement for each occurrence and keeps only the other characters and the replacement's |
| `JsString.ReplaceAllIsSplitJoin` | src/utils/useMergeRedirects.ts:90 | a global one-character replace equals splitting at the character and joining with the replacement |
| `JsString.ReplaceAllAt` | src/utils/useMergeRedirects.ts:111 | a one-character replacement maps each position on its own and keeps the length |
| `MergeRedirects.GetRelativeUrl` | src/utils/useMergeRedirects.ts:85-87 | without an occurrence of the base URL the URL is unchanged; otherwise the result, with the base URL put back at the first occurrence, is the URL |
| `MergeRedirects.SanitiseCommas` | src/utils/useMergeRedirects.ts:89-91 | the result holds no comma and is two characters longer per comma of the input |
| `MergeRedirects.SanitiseUrl` | src/utils/useMergeRedirects.ts:110-112 | the slug holds no `-` and no `_` |
| `MergeRedirects.Threshold` | src/utils/useMergeRedirects.ts:22 | an absent threshold is 1, a given one is used as is |
| `MergeRedirects.ParseRow` | src/utils/useMergeRedirects.ts:99 | the title holds no comma; the URL is absent iff the row has no comma and holds no comma; `ParseRowFields` gives the exact fields |
| `MergeRedirects.ParseRowFields` | src/utils/useMergeRedirects.ts:99-104 | the title is the comma-free text before the first comma, and the whole row when it has no comma; the URL is absent iff the row has no comma, and otherwise is the text between the first comma and the next comma or the end |
| `MergeRedirects.Rows` | src/utils/useMergeRedirects.ts:94 | dropping the header leaves one row per newline of the blob, none spanning lines |
| `MergeRedirects.Records` | src/utils/useMergeRedirects.ts:93-108 | one record per newline of the blob; `RecordsLines` gives each record as the parse of its line |
| `MergeRedirects.CsvToArray` | src/utils/useMergeRedirects.ts:93-108 | the loop yields exactly the parsed record of every row after the header, in order |
| `MergeRedirects.Key` | src/utils/useMergeRedirects.ts:44-45 | a key exists iff in title mode or the record has a URL, starts with the title, and otherwise fails with a missing URL |
| `MergeRedirects.Titles` | src/utils/useMergeRedirects.ts:39 | the titles are exactly the title-mode keys of the records |
| `MergeRedirects.Keys` | src/utils/useMergeRedirects.ts:45 | the keys exist iff every record's key exists, one per record in order; the only failure is a record without URL |
| `MergeRedirects.BestIndex` | src/utils/useMergeRedirects.ts:37-40 | the chosen candidate's rating is maximal and every earlier candidate rates strictly less |
| `MergeRedirects.BestMatch` | src/utils/useMergeRedirects.ts:43-46 | the best match is one of the candidates, carries its own rating, and no candidate rates higher |
| `MergeRedirects.FindIndex` | src/utils/useMergeRedirects.ts:49-51 | the found position holds the target and no earlier position does; nothing is found iff the target is not a key |
| `MergeRedirects.Lookup` | src/utils/useMergeRedirects.ts:37-59 | the lookup fails for lack of candidates iff there is no new record, and a found record is one of the new records; `LookupRule`, `LookupErrors`, `NoMatchDrop`, `IdentityMatch` give the whole rule |
| `MergeRedirects.Redirect` | src/utils/useMergeRedirects.ts:35-66 | a redirect exists only when the lookup succeeds, and both its URLs are comma-free; `RedirectMonotone` relates thresholds |
| `MergeRedirects.Pairs` | src/utils/useMergeRedirects.ts:30-67 | a completed loop keeps at most one pair per old record, all comma-free; `PairsAppend`, `PairsErrPersists`, `PairsAllFail`, `PairsMonotone`, `PairsClean` give the rest |
| `MergeRedirects.Line` | src/utils/useMergeRedirects.ts:71-75 | an array of comma-free cells printed inside `join` splits back at commas into the cells |
| `MergeRedirects.Row` | src/utils/useMergeRedirects.ts:71-74 | a row of comma-free URLs holds exactly one comma and splits back into the two relative URLs; a row of newline-free URLs is one line |
| `MergeRedirects.HeaderLine` | src/utils/useMergeRedirects.ts:70 | the header array prints as `Old URL,New URL`, which holds no newline |
| `MergeRedirects.Table` | src/utils/useMergeRedirects.ts:69-74 | the table has the header and then, in order, the row of every pair |
| `MergeRedirects.TableOneLine` | src/utils/useMergeRedirects.ts:69-74 | no table line of newline-free pairs spans lines |
| `MergeRedirects.Render` | src/utils/useMergeRedirects.ts:69-75 | the output starts with the header, and when no URL spans lines, splitting it at newlines gives back the table |
| `MergeRedirects.Merge` | src/utils/useMergeRedirects.ts:17-78 | a run fails exactly when its loop fails, with the loop's error, and otherwise its output starts with the header; `MergeShape` gives the whole output |
| `MergeRedirects.RedirectOne` | src/utils/useMergeRedirects.ts:35-66 | one pass of the loop produces exactly the pair, the skip or the failure that `Redirect` specifies for the old record |
| `MergeRedirects.Mutate` | src/utils/useMergeRedirects.ts:17-78 | the loop over the old records followed by the table produces exactly `Merge` of the two blobs, failing with the first old record's failure |
| `MergeRedirects.PairsErrPersists` | src/utils/useMergeRedirects.ts:30-67 | once a pass of the loop fails, the run fails with that failure whatever the later records are |
| `MergeProperties.ParseRowChars` | src/utils/useMergeRedirects.ts:99 | a character absent from a row is absent from its title and its URL |
| `MergeProperties.RecordsLines` | src/utils/useMergeRedirects.ts:93-108 | one record per line after the header, the i-th parsed from line i+1, none holding a newline |
| `MergeProperties.ParseEmptyRow` | src/utils/useMergeRedirects.ts:99 | an empty line gives an empty title and no URL |
| `MergeProperties.SanitiseCommasIsSplitJoin` | src/utils/useMergeRedirects.ts:90 | escaping commas equals splitting at commas and joining with `%2C` |
| `MergeProperties.SanitiseCommasPointwise` | src/utils/useMergeRedirects.ts:90 | each character is escaped on its own, order kept: a comma becomes `%2C`, anything else stays |
| `MergeProperties.SanitiseCommasNoComma` | src/utils/useMergeRedirects.ts:89-91 | a URL without commas is left unchanged |
| `MergeProperties.SanitiseCommasOneLine` | src/utils/useMergeRedirects.ts:89-91 | escaping introduces no newline |
| `MergeProperties.GetRelativeUrlChars` | src/utils/useMergeRedirects.ts:85-87 | stripping the base URL only removes characters |
| `MergeProperties.GetRelativeUrlUnchanged` | src/utils/useMergeRedirects.ts:85-87 | an empty base URL, or one that does not occur, leaves the URL unchanged |
| `MergeProperties.GetRelativeUrlPrefix` | src/utils/useMergeRedirects.ts:85-87 | a base URL at the start of the URL is removed as a prefix, leaving the path |
| `MergeProperties.SanitiseUrlSpec` | src/utils/useMergeRedirects.ts:110-112 | the slug is one pass turning every `-` and `_` into a space, then a replacement of the first literal `///g`, whose position the first pass does not change |
| `MergeProperties.LookupRule` | src/utils/useMergeRedirects.ts:42-59 | once the keys exist, an old record is redirected iff its best rating reaches the threshold, and then to the first new record whose key is the best target; the lookup never comes back empty once the threshold is met |
| `MergeProperties.LookupErrors` | src/utils/useMergeRedirects.ts:37-46 | the lookup fails with no candidates iff there are no new records, and with a missing URL iff, in turbo mode, the old or some new record has no URL |
| `MergeProperties.LookupIn` | src/utils/useMergeRedirects.ts:49-57 | the new record an old record is redirected to is one of the new records |
| `MergeProperties.NoMatchDrop` | src/utils/useMergeRedirects.ts:48-61 | an old record all of whose candidates rate below the threshold yields no pair and no failure |
| `MergeProperties.IdentityMatch` | src/utils/useMergeRedirects.ts:37-57 | in title mode an old title that is also a new title finds a target at any threshold up to 1 when a string rates 1 against itself |
| `MergeProperties.RedirectMonotone` | src/utils/useMergeRedirects.ts:48-66 | raising the threshold fails no lookup that succeeded and keeps each remaining redirect unchanged |
| `MergeProperties.PairsAppend` | src/utils/useMergeRedirects.ts:30-67 | old records are handled independently: the pairs of two concatenated lists are the concatenation of their pairs |
| `MergeProperties.PairsAllFail` | src/utils/useMergeRedirects.ts:30-67 | if every old record fails with one error, the run fails with it |
| `MergeProperties.PairsBound` | src/utils/useMergeRedirects.ts:61-66 | the loop keeps at most one pair per old record |
| `MergeProperties.PairsMonotone` | src/utils/useMergeRedirects.ts:48-66 | raising the threshold fails no completed run and keeps no more pairs |
| `MergeProperties.PairsClean` | src/utils/useMergeRedirects.ts:61-66 | every kept URL is comma-free, and newline-free when the records are |
| `MergeProperties.RenderShape` | src/utils/useMergeRedirects.ts:69-75 | the output of clean pairs is the header line followed by one line per pair, each exactly the two relative URLs around one comma |
| `MergeProperties.TableRow` | src/utils/useMergeRedirects.ts:71-74 | the i-th table line of clean pairs splits into the relative URLs of the (i-1)-th pair |
| `MergeProperties.MergePairsClean` | src/utils/useMergeRedirects.ts:27-66 | every pair a run keeps from two parsed blobs is free of commas and newlines |
| `MergeProperties.MergeShape` | src/utils/useMergeRedirects.ts:17-78 | a run's output is the header line followed by one line per kept pair, each exactly its two relative URLs around one comma |
| `MergeProperties.MergeNoOldRecords` | src/utils/useMergeRedirects.ts:17-78 | an old blob with only a header gives just the header, whatever the new blob |
| `MergeProperties.MergeThresholdMonotone` | src/utils/useMergeRedirects.ts:17-78 | raising the threshold fails no completed run and never adds output lines |
| `MergeProperties.TurboTrailingNewline` | src/utils/useMergeRedirects.ts:42-46 | in turbo mode a new blob ending in a newline fails every run that has an old record, since its empty last line has no URL |
| `MergeProperties.OneRecord` | src/utils/useMergeRedirects.ts:93-108 | a header and one `title,url` line parse to exactly that record |
| `MergeProperties.SameTitlePair` | src/utils/useMergeRedirects.ts:30-67 | an old and a new record with the same title are paired in title mode when the title rates at least the threshold against itself |
| `MergeProperties.OneRowTable` | src/utils/useMergeRedirects.ts:69-75 | one pair whose URLs start with the base URLs renders as the header and one `oldPath,newPath` row |
| `MergeProperties.SameTitleRun` | src/utils/useMergeRedirects.ts:17-78 | a page keeping its title while moving between base URLs gives the header and one row of its two paths |

## Left out

- The React-style state (`useState`, `setOutput`, the returned `output`) is not modelled. `Mutate` returns the text it would store.
- The progress messages written to the console are not modelled, because they do not affect the result.
- The similarity library's rating function is not part of this model and is the parameter `rate`. Its argument checks are modelled only as the failure on an empty candidate list, because titles and keys are always strings.
- `MergeRedirects.BestMatch`: among equally rated candidates the model picks the first one. The library code is not part of this model, so this tie-break is an assumption.
- JavaScript numbers are modelled as reals. A threshold that is not a number, or that is NaN, is not modelled.
- The user interface and the CSV download (`app.tsx`, `main.tsx`, `generateCsvLink.ts`) are not part of this model.
- Records are values. Object identity of the record `find` returns plays no part in the result.
