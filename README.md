# FanacMailings, the ingest and table logic

FanacMailings builds one HTML page per mailing of each amateur press
association (APA). It reads a contribution CSV whose "Mailings" column says
which APA mailings each fanzine issue appeared in. It reads an optional
`<apa>.csv` per known APA with that APA's mailing dates. It groups the
contribution rows by APA and mailing number. For every mailing it fills the
`fanac-rows` region of a page template with an HTML table of the rows.
Everything lives in `main()` of `FanacMailings.py`. This model covers the
logic inside it that is not I/O:

- `Columns`: `ColIndex` and how the "Mailings" column is found in the header row.
- `Text`: the Python `str` operations the code uses. These are `strip` with
  Python's white-space set, `removeprefix`/`removesuffix`, `split`, `join`,
  single-character `replace`, and deleting a character.
- `Membership`: the "Known APAs" setting as a list of names. The
  `['FAPA 20 & VAPA 23']` cell as tokens. The regular expression
  `{apa}\s(.*)$` under `re.match`, exactly: the literal APA name, one
  white-space character, then `.*` (which stops at a newline) followed by `$`
  (the end of the text, or just before a final newline). The
  (APA, mailing number) assignments a cell yields.
- `MailingInfo`: the per-APA mailing-info table. The last row carrying a
  mailing number wins.
- `Grouping`: the nested insert-or-create loop that builds
  `apas[apa][mailing] = [rows…]`. It is a method with loops, proved against
  the function `Listed`, which says which rows belong under which keys.
- `HtmlTable`: the accumulated `<tr>`/`<th>` table and the
  backslash-to-slash replacement. It also covers the written page text,
  `issueindex.split("/n")` put through `writelines`.
- `Ingest`: the ingest steps in sequence, with Python's `IndexError` on short
  rows modelled as a `Failure` result.

Some source expressions are plain definitions. Their meaning is fixed by the
lemmas in the table below.

- `Text.Split` is `str.split` (`FanacMailings.py` lines 54, 89 and 166),
  pinned down by `Text.JoinSplit`, `Text.SplitOnChar` and `Text.ConcatSplit`.
- `Membership.Assignments` is the token-by-APA loop nest (lines 90-96), pinned
  down by `Membership.AssignmentsMember` and `Membership.AssignmentsCount`.
- `MailingInfo.Dev` is `MailingDev(Number=md[1], Year=md[2], Month=md[3])`
  (line 82), pinned down by `MailingInfo.InfoOfEntry`.
- `Grouping.Push` is `.append(row)` (line 99), pinned down by
  `Grouping.InsertOrCreate`.
- `HtmlTable.Slashed` is `replace("\\", "/")` (line 161), pinned down by
  `HtmlTable.SlashedClean` and `HtmlTable.SlashedTable`.

The program has no rollup counts, no sorting, no prev/next navigation and no
APA or index pages, so none are modelled. In the code the
mailing "table" repeats every cell inside `<th>`, and the grouping loop also
reads the header row. The model does the same.

## Model

| member | source | states |
|---|---|---|
| Columns.ColIndex | FanacMailings.py:34-37 | -1 exactly when the header is absent; otherwise an index holding the header with no earlier index holding it |
| Columns.MailingsColumn | FanacMailings.py:39-43 | fails on an empty file and when the first row has no "Mailings" header, each exactly then; otherwise gives the first column named "Mailings" |
| Text.Strip | FanacMailings.py:89 | the result has no white space at either end, sits inside the input with only white space cut off on each side, and adds no character |
| Text.StripStripped | FanacMailings.py:89 | stripping leaves stripped text unchanged, so stripping twice equals stripping once |
| Text.RemovePrefix | FanacMailings.py:88 | `removeprefix` cuts the prefix exactly when present and otherwise leaves the text unchanged |
| Text.RemoveSuffix | FanacMailings.py:88 | `removesuffix` cuts the suffix exactly when present and otherwise leaves the text unchanged |
| Text.JoinSplit | FanacMailings.py:89 | joining the pieces of a split with the same separator gives back the text |
| Text.SplitOnChar | FanacMailings.py:89 | splitting on one character gives one piece more than the text holds that character, and no piece contains it |
| Text.ConcatSplit | FanacMailings.py:166-167 | writing the pieces of `split(sep)` with nothing between them deletes every occurrence of `sep`, found left to right |
| Text.DeleteChar | FanacMailings.py:54 | `replace('"', '')` leaves no quote, shortens the text by the number of quotes and keeps every other character's count |
| Text.DeleteCharConcat | FanacMailings.py:54 | deleting a character works part by part and drops a single character exactly when it is the one deleted, so the kept characters stay in their order |
| Membership.Undecorate | FanacMailings.py:88 | the cell is the one `['` if it was a prefix, then the result, then the one `']` if it was a suffix of what remained |
| Membership.Tokens | FanacMailings.py:88-89 | one token more than the undecorated cell has `&`; every token has no white space at either end and holds no `&` |
| Membership.TokensArePieces | FanacMailings.py:88-89 | the tokens are the stripped pieces between the `&` of the undecorated cell, and those pieces join back into it |
| Membership.ToLineEnd | FanacMailings.py:92 | `(.*)$` succeeds exactly when no newline stands before the last character; the group holds no newline and is the rest, or the rest without its final newline |
| Membership.MatchApa | FanacMailings.py:92-96 | a match requires the token to start with the APA name followed by one white-space character; the group is the remainder with no newline |
| Membership.MatchCapturesVerbatim | FanacMailings.py:92-96 | name, one white-space character and a newline-free number always match, capturing the number unchanged |
| Membership.MatchStrippedToken | FanacMailings.py:89-96 | on a stripped token, a match holds exactly when the name and one white-space character start it with no newline after; the mailing number is all the rest of the token |
| Membership.AssignmentsMember | FanacMailings.py:88-96 | a cell assigns its row to (a, n) exactly when a is a known APA and one of its tokens matches a capturing n |
| Membership.AssignmentsCount | FanacMailings.py:88-99 | with distinct known APAs, (a, n) is assigned once per token matching a with group n, and never for an unknown APA |
| Membership.KnownApas | FanacMailings.py:54 | one name more than the setting has commas; every name is stripped and holds no quote and no comma |
| Membership.KnownApasArePieces | FanacMailings.py:54 | each name is its comma-separated piece of the setting with quotes deleted and then stripped, and the pieces join back into the setting |
| MailingInfo.LastIndex | FanacMailings.py:81-82 | gives the last row whose mailing number is k (no later row carries k), or -1 when none does |
| MailingInfo.InfoOfEntry | FanacMailings.py:80-82 | a mailing number has an entry exactly when some row carries it; the entry comes from the last such row: Number is the key, Year and Month come from that row, Editor is empty |
| MailingInfo.InfoOfSnoc | FanacMailings.py:82 | processing one more row overwrites the entry for that row's mailing number and leaves the other entries unchanged |
| MailingInfo.BuildApaInfo | FanacMailings.py:80-82 | the loop fails exactly when some row has fewer than four cells, naming the first such row; otherwise it yields the last-row-wins table |
| MailingInfo.BuildInfoTable | FanacMailings.py:57-82 | the outer loop has one table per known APA that has a CSV and skips the rest; each table is the last-row-wins table; it fails at the first short row, naming its APA and row |
| Grouping.ListedInRowOrder | FanacMailings.py:85-99 | every row listed under (a, n) is an input row whose cell assigns it there, and listed rows keep input-row order |
| Grouping.ListedConcat | FanacMailings.py:85-99 | rows are grouped independently: two runs of rows list their rows one run after the other |
| Grouping.ListedOneRow | FanacMailings.py:88-99 | for a known APA a, with no APA named twice in the setting, one row is listed under (a, n) once per token of its cell that matches a capturing n, so it can appear twice in one mailing |
| Grouping.ListedEmpty | FanacMailings.py:93-99 | nothing is listed under (a, n) exactly when no row's cell assigns its row there |
| Grouping.EnsureApa | FanacMailings.py:94-95 | the APA key is added, with an empty dict, only when missing; every existing entry is kept and no other key appears |
| Grouping.EnsureMailing | FanacMailings.py:97-98 | the mailing key is added under the APA, with an empty list, only when missing; existing lists, the APA keys and the other APAs are unchanged |
| Grouping.InsertOrCreate | FanacMailings.py:94-99 | the three statements together append the row under (a, n), creating missing keys; no other entry changes |
| Grouping.ApplyAt | FanacMailings.py:90-99 | under each key pair, the matches of one row append that row once per occurrence of the pair |
| Grouping.ApplyShape | FanacMailings.py:93-99 | appending for assignments to known APAs keeps every key a known APA and never leaves an empty entry |
| Grouping.BuildSpec | FanacMailings.py:84-99 | the grouped table has no empty APA dict and no empty mailing list, only known APAs as keys, and exactly the listed rows under every key pair |
| Grouping.AppendForToken | FanacMailings.py:91-99 | the innermost loop appends the row once for each known APA the token matches, in known-APA order |
| Grouping.AppendForTokens | FanacMailings.py:90-99 | the middle loop applies the assignments of every token of the cell, in token order |
| Grouping.GroupRows | FanacMailings.py:84-99 | the row loop fails exactly when a row lacks the mailings cell, naming the first; otherwise the table holds exactly the listed rows, with no empty entry and only known APAs |
| HtmlTable.AppendCells | FanacMailings.py:158-159 | the cell loop appends one `<th>…</th>` line per cell, in order |
| HtmlTable.AppendRow | FanacMailings.py:157-160 | appends `<tr>`, the cells and `</tr>` |
| HtmlTable.BuildTable | FanacMailings.py:152-161 | the text is the header row then one row per listed row, with every backslash replaced by a slash; no backslash is left |
| HtmlTable.SlashedClean | FanacMailings.py:161 | no backslash remains after the replacement |
| HtmlTable.SlashedTable | FanacMailings.py:152-161 | the markup has no backslash, so replacing on the table equals building it from cells whose backslashes were replaced |
| HtmlTable.TableRoundTrip | FanacMailings.py:152-160 | when cells hold no `<`, the table reads back as exactly its header cells and rows |
| HtmlTable.BuiltTableReadsBack | FanacMailings.py:152-161 | the table placed in a page reads back as the header cells and rows with backslashes turned into slashes |
| HtmlTable.WrittenPage | FanacMailings.py:163-167 | a page is written exactly when the substitution succeeded; its text is the filled template with every `/n` deleted |
| HtmlTable.RemoveMarkerLength | FanacMailings.py:166-167 | removing `/n` never lengthens the text and removes an even number of characters |
| HtmlTable.RemoveEveryAbsent | FanacMailings.py:166-167 | text without `/n` is written unchanged |
| HtmlTable.MarkerCanRemain | FanacMailings.py:166-167 | one pass can leave a `/n`: `//nn` is written as `/n` |
| HtmlTable.RemoveMarkerConcat | FanacMailings.py:166-167 | when no `/n` straddles the boundary, removing `/n` from two joined texts removes it from each |
| HtmlTable.BackslashNDropped | FanacMailings.py:161-167 | a cell `<th>a\nb</th>` (backslash, n) placed anywhere in a page is written as `<th>ab</th>`, with the text on each side written as it would be on its own |
| Ingest.RowsIteratedAsWritten | FanacMailings.py:57-85 | as written, the grouping loop reads the rows of the last known APA with a CSV, or the contribution rows when no APA has one |
| Ingest.AsWrittenLosesContributions | FanacMailings.py:57-99 | a contribution CSV row `['A N']` plus an `A.csv` row for the same mailing: the contribution is listed in the contribution rows but not in the rows the source groups |
| Ingest.Ingest | FanacMailings.py:39-99 | a header error is reported exactly when the header step fails; each later step fails at exactly its first unindexable row (the info step at the first short row of the first known APA with a short row; the grouping step only after the info step passed); on success the info table is the last-row-wins table per known APA with a CSV, and the grouped table holds the listed contribution rows |

## Findings

| source | as written | input that shows it | evidently intended | confidence | as-written member | corrected member |
|---|---|---|---|---|---|---|
| FanacMailings.py:67-85 | the per-APA loop assigns each `<apa>.csv` to `mailingsdata`, so the grouping loop iterates the last per-APA CSV instead of the contribution rows | contribution rows `[["Mailings"], ["['FAPA 20']"]]`, known APAs `FAPA`, and `FAPA.csv` with row `FAPA,20,1950,May` | group the contribution CSV read at line 28 | high (not executed) | Ingest.AsWrittenLosesContributions | Ingest.Ingest |

## Left out

- Settings and logging (`Settings().Load`/`Get`, `LogOpen`, `LogError`, `LogDisplayErrorsIfAny`): configuration plumbing. The "Known APAs" value and the rows come in as parameters. The check at line 51 tests `sourceCVSfile` instead of the "Known APAs" value, so an empty setting is not caught. This is not modelled because settings are outside the model.
- CSV parsing (`csv.reader` with its quote settings): a library parser. Rows are `seq<seq<string>>` inputs, and the per-APA CSVs are a map from APA name to rows, holding an APA exactly when its file exists.
- The filesystem: `os.path.exists`, `os.mkdir`, `open`, reading templates and writing files. The page text written is modelled (`HtmlTable.WrittenPage`); the file path (`<ReportsDir>/<apa>/<mailing>.html`) is not.
- `FindAndReplaceBracketedText` comes from a helper package that is not part of this model. `HtmlTable.WrittenPage` takes its `(text, success)` result as a parameter and does not give it semantics.
- The order in which the page loop visits APAs and mailings. The dictionaries keep insertion order, but the model's `map` has no order. Each page depends only on its own key pair, so the text of each page is still modelled.
- The debug leftovers: the `csvstuff`/`print` loop at lines 142-148 and the unused `i=0` assignments.
- `Membership.MatchApa`: it assumes APA names contain no regular-expression metacharacter (`PlainName`), because the code interpolates them unescaped. A name with one would be read as a pattern, and that is not modelled.
- `Grouping.GroupRows`: the rows, column and known APAs are explicit parameters. `Ingest.Ingest` passes the contribution rows, not the reused `mailingsdata` (see Findings).
- `Grouping.ListedOneRow`: it assumes no APA is named twice in the "Known APAs" setting. The loop at lines 90-99 visits every entry of the setting, so naming an APA twice lists the row once more per naming. `Grouping.GroupRows` and `Grouping.BuildSpec` cover that case; only the per-token count is stated for distinct names.
- `HtmlTable.TableRoundTrip`: cell text is not escaped, so the table reads back only when cells hold no `<`.
