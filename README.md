# Contract generator: a verified model of the filling pipeline

The contract generator is a single-file Streamlit tool (`app.py`). It
fills a Word template with one spreadsheet row per person. The user
uploads a template that contains placeholders such as `{{name}}` and
`{{id}}`, plus an Excel workbook. The tool then:

1. locates each field's column by comparing headers with a list of
   aliases;
2. drops the rows that have no name;
3. builds the eleven-entry placeholder mapping for a row;
4. substitutes it into every paragraph of the body, its tables, and each
   section's primary header and footer, including split placeholders;
5. derives a safe file name from the person's name.

This project models that pipeline in Dafny and proves what each step
promises. It has five modules:

- `Text`: Python's `str.strip`, `str.lower` and `str.replace`.
  - Strip uses Python's set of white-space characters.
  - Replace works left to right, takes non-overlapping matches and never
    re-scans its own output.
- `Substitution`: the placeholder engine (`_replace_in_paragraph`,
  `_replace_in_table`, `replace_everywhere`).
  - A paragraph is a list of formatted runs.
  - The document tree is a set of datatypes: tables of rows of cells,
    with cells holding paragraphs and nested tables, plus sections with
    a header and a footer.
  - A `Document` class holds the body and the sections, and its
    `ReplaceEverywhere` method reassigns them.
- `Cells`: the cell values pandas hands over, the display text `to_str`,
  and the file-name sanitiser `safe_filename`.
- `Columns`: `normalize` and `find_col`, the two alias catalogues, and
  the column-resolution loops. A halt of the script (`st.stop`) is
  modelled as a `Failed` outcome.
- `Records`: the row filter on the name column, the whole loading step,
  `get_value` and `build_mapping`.

Every loop of the modelled code is a `method` with its invariants.
Most of these methods are proved equal to a specification function,
and the properties are lemmas about that function. `Cells.SafeFilename`
instead states its result character by character in its own contract.
The batch loop that writes every contract into a ZIP archive
(app.py:263-294) is not modelled; see "Left out".

Three behaviours of the code are easy to miss, and the model follows
the code in each:

- **Later keys re-scan earlier values.** The code calls `str.replace`
  once per key on the text the earlier keys produced. A value that
  contains a later key is therefore replaced again, and the order of
  the mapping matters. `Substitution.LaterKeySeesEarlierValue` shows
  such a case.
- **Whitespace-only names give an empty file name.** The code applies
  the `contract` fallback before stripping. An empty name becomes
  `contract`, but a whitespace-only name becomes `""`.
- **`.0` is recognised after deleting every `.0`.** The code checks whether
  the string is all digits after removing every `.0` occurrence, not just
  the suffix. So `"1.0.0"` becomes `"1.0"`.

## Model

| member | source | states |
|---|---|---|
| Substitution.ApplyMapping | app.py:21-24 | The joined text after `str.replace` is applied once per mapping entry, in the mapping's order, each entry seeing the text the earlier ones produced. Its meaning is stated by `Substitution.Rewrite` (the visible text), `Substitution.NoKeyParagraphUntouched` (no key, no change) and `Substitution.LaterKeySeesEarlierValue` (order matters). |
| Substitution.Rewrite | app.py:20-32 | The visible text afterwards is the joined run text with every key replaced in mapping order. An unchanged text leaves the paragraph exactly as it was. A changed text keeps the run count and every run's formatting, puts the whole text into run 0 and empties the other runs. A paragraph without runs gains a single plain run. |
| Substitution.ReplaceInParagraph | app.py:20-32 | The loop over the mapping and the reverse blanking loop leave the paragraph that `Rewrite` describes. |
| Substitution.NoKeyParagraphUntouched | app.py:21-26 | A paragraph whose joined text contains no key comes back identical: no run text changes and no run is added. |
| Substitution.SingleKeyRewritesIff | app.py:21-26 | For one key whose value differs from it, the paragraph changes if and only if the key occurs in its joined text. |
| Substitution.SplitTokenReplaced | app.py:21-30 | Runs `"{{na"` and `"me}}"` are rewritten to `"Ali"` and `""`, each keeping its own formatting. |
| Substitution.LaterKeySeesEarlierValue | app.py:23-24 | A later key is found inside an earlier key's value, so the two orders of a two-key mapping give different results. |
| Substitution.TableParagraphsRewritten | app.py:34-40 | After the table walk, the table's paragraphs at any nesting depth are exactly the old ones rewritten, in traversal order. |
| Substitution.BlocksParagraphsRewritten | app.py:37-40 | A cell, or the body, has its own paragraphs and then its tables' paragraphs rewritten, with none added or lost. |
| Substitution.SectionsParagraphsRewritten | app.py:48-57 | Every header and footer paragraph of every section is rewritten, with none added or lost. |
| Substitution.TableShapeKept | app.py:34-40 | Rewriting a table changes no row, cell, nested table or paragraph slot. |
| Substitution.SectionsShapeKept | app.py:48-57 | Rewriting the sections changes nothing in their structure. |
| Substitution.ReplaceInTable | app.py:34-40 | The nested row and cell loops yield the recursively rewritten table. |
| Substitution.ReplaceInBlocks | app.py:43-46 | The paragraph loop and then the table loop yield the rewritten container. |
| Substitution.Document.ReplaceEverywhere | app.py:42-57 | The body and each section's header and footer are rewritten. The document's paragraph list becomes the old list rewritten element by element, and its shape is unchanged. |
| Text.Strip | app.py:85 | The result has no leading or trailing white space. It is a contiguous slice of the input, and everything outside the slice is white space. |
| Text.StripFixedPoint | app.py:61 | Stripping leaves a string unchanged if and only if the string is already stripped. Stripping twice is the same as stripping once. |
| Text.StripEmptyIff | app.py:188 | A string strips to `""` if and only if it is all white space. |
| Text.Lower | app.py:61 | The result has the same length, lowers each character, and has no upper-case ASCII letter left. |
| Text.ReplaceUnchangedIff | app.py:24-26 | `replace` leaves a text unchanged if and only if the pattern does not occur or the replacement equals the pattern. |
| Text.ReplaceLength | app.py:24 | The new length is the old length plus the number of matches times the length difference. |
| Text.Replace | app.py:22-24 | Python's `str.replace`: non-overlapping matches found left to right, the scan resuming after each match, and the empty pattern matching before every character and at the end. Its meaning is stated by `Text.ReplaceAtFront`, `Text.ReplaceUnchangedIff`, `Text.ReplaceLength`, `Text.CountPositiveIff` and `Text.ReplaceCharPointwise`. |
| Text.ReplaceAtFront | app.py:22-24 | A match at the front of the text is replaced, and the scan resumes right after it on the rest of the text. So text the replacement brings in is never scanned again. |
| Text.ReplaceDoesNotRescan | app.py:24 | Replacing a pattern by a text gives exactly that text, even when the replacement contains the pattern. |
| Text.CountPositiveIff | app.py:24 | Some non-overlapping match is counted if and only if the pattern occurs. |
| Text.ReplaceCharPointwise | app.py:92-93 | Replacing one character by another changes exactly the positions that hold it. |
| Cells.ToStr | app.py:71-88 | A missing value gives `""`. A timestamp gives ten characters `DD/MM/YYYY` whose day, month and year read back. An integer, or an integral float, gives a decimal string with no `.` and no superfluous leading zero that parses back to the number. A string gives a stripped result. That result is the stripped input minus a final `.0` exactly when the stripped input ends in `.0` and deleting every `.0` leaves only digits. Otherwise it is the stripped input. |
| Cells.CleanString | app.py:85-88 | The result is stripped. It differs from the stripped input exactly when that input ends in `.0` and deleting every `.0` from it leaves a non-empty string of digits. The only change is dropping the final `.0`. |
| Cells.DropPointZero | app.py:86-87 | The `.0` rule on stripped text: the final `.0` is dropped exactly when the text ends in `.0` and deleting every `.0` leaves a non-empty string of digits. Its meaning is stated by `Cells.CleanString`, `Cells.PointZeroDropped`, `Cells.VersionRule` and `Cells.BarePointZeroKept`. |
| Cells.DecimalString | app.py:77-83 | `str(n)` of an integer has a sign exactly for negative numbers and no superfluous leading zero: a leading `0` is the whole text, and a sign is followed by a non-zero digit. |
| Cells.DecimalRoundTrip | app.py:79 | The decimal text of an integer parses back to it. |
| Cells.FormatDateRoundTrip | app.py:74-75 | A date renders as ten characters `DD/MM/YYYY` whose fields read back as the day, month and year. |
| Cells.PointZeroDropped | app.py:86-87 | A digit string followed by `.0` displays as the digits alone. |
| Cells.VersionLosesLastPointZero | app.py:86-87 | `"1.0.0"` displays as `"1.0"`. |
| Cells.VersionRule | app.py:86-87 | The `.0` rule turns `1.0.0` into `1.0`, because deleting every `.0` leaves `1`. |
| Cells.BarePointZeroKept | app.py:86-87 | `".0"` is kept, because deleting `.0` leaves an empty string, which is not a digit string. |
| Cells.SafeFilename | app.py:90-94 | The result has the length of the fallback-then-stripped name. Each forbidden character becomes `-` and nothing else changes, so none of the nine is left. An empty name gives `contract`; a whitespace-only name gives `""`. |
| Cells.FilenameBaseStrips | app.py:91 | The base name is exactly `(s or "contract").strip()`. |
| Cells.SanitisedFully | app.py:92-93 | After all nine rounds, the name has no forbidden character and differs from its input only where one stood. |
| Columns.Normalize | app.py:60-61 | The result is stripped, no longer than the input, and has no upper-case ASCII letter. |
| Columns.NormalizeIdempotent | app.py:60-61 | Normalising twice is the same as normalising once. |
| Columns.Index | app.py:64 | Built from the headers' normal forms, the dictionary has a key if and only if some header normalises to it. Its value is the header at the last such position, since later entries overwrite earlier ones. |
| Columns.IndexHeaders | app.py:64 | The loop builds the dictionary `Index` describes, on the headers' normal forms. |
| Columns.FindCol | app.py:63-69 | Returns the header selected by the earliest candidate that matches some header. When several headers match, the last one wins. Returns `None` when no candidate matches. |
| Columns.LookupPicks | app.py:65-69 | Trying the candidates' normal forms in order against the dictionary gives nothing when none occurs. Otherwise it gives the header at the last position of the first one that occurs. |
| Columns.ColumnForFinds | app.py:63-69 | The specification function of `find_col` meets that first-candidate, last-header description. |
| Columns.FindsUnique | app.py:63-69 | At most one result meets the description. |
| Columns.ColumnForSomeIff | app.py:67-69 | `find_col` returns a header if and only if some alias matches some header. |
| Columns.UnresolvedMembers | app.py:168-172 | A key is in `missing_required` if and only if some catalogue entry with that key gets `None` from `find_col`. |
| Columns.ResolvedMembers | app.py:169-174 | A key is in `resolved` if and only if it belongs to the catalogue and `find_col` found a column for it. |
| Columns.ResolvedValue | app.py:169-174 | When the catalogue's keys are distinct, a resolved key maps to exactly the column `find_col` returned for its aliases. |
| Columns.EntryResolution | app.py:169-174 | When the catalogue's keys are distinct, an entry's key is resolved if and only if one of its aliases matches a header, and then to the column `find_col` picks. |
| Columns.CatalogsWellFormed | app.py:142-157 | The required and optional catalogues have distinct keys and share none. |
| Columns.ResolutionMeaning | app.py:166-184 | Resolution stops if and only if some required key is unresolvable. On success, every required key is present with the column `find_col` picks. An optional key is present if and only if it is resolvable, and then with that column. |
| Columns.MissingKeysNamed | app.py:166-179 | When resolution stops, the keys it reports as missing are exactly the required keys that have an entry none of whose aliases matches a header. |
| Columns.ResolveRequired | app.py:167-174 | The loop over the required columns fills `resolved` and `missing_required` exactly as `Resolved` and `Unresolved` describe. |
| Columns.AddOptional | app.py:181-184 | The loop over the optional columns adds exactly the optional entries `find_col` resolves to the required ones. |
| Columns.ResolveColumns | app.py:166-184 | Resolution stops with the missing keys when there are any, and otherwise returns the required and optional columns, giving the outcome `Resolution` describes. |
| Records.KeepNamedRows | app.py:186-188 | Every kept row has a non-blank name after stripping. Each row with a name is kept as often as it occurs, and no other row is kept. |
| Records.KeepNamedRowsAppend | app.py:186-188 | Filtering a concatenation gives the filtered first part followed by the filtered second part. So the filter keeps the rows in their original order. |
| Records.KeepNamedRowsOne | app.py:186-188 | A single row is kept exactly when its name is not blank. |
| Records.KeepNamedRowsEmptyIff | app.py:189-191 | No row is left if and only if every row's name is blank. |
| Records.NameResolved | app.py:187 | Whenever resolution succeeds, the name column is resolved. |
| Records.LoadTable | app.py:166-191 | The loading script yields the outcome `Load` describes. |
| Records.LoadMissingColumnsIff | app.py:176-179 | Loading stops for missing columns if and only if some required key matches no header. |
| Records.LoadNoNamesIff | app.py:186-191 | Loading stops for want of names if and only if the columns resolve but every row's name is blank. |
| Records.LoadedColumns | app.py:166-184 | A loaded table has every required key resolved, and every resolved value is one of the headers. |
| Records.LoadedRows | app.py:186-191 | A loaded table's rows are exactly the named rows, at least one. Each has a cell under every resolved column. |
| Records.GetValue | app.py:199-202 | An unresolved key gives `""`, a missing cell gives `""`, and a text cell gives stripped text. |
| Records.BuildMapping | app.py:204-217 | The mapping has exactly eleven entries, `{{key}}` for the keys in source order. Each holds `get_value` of its key, and `""` when the key is unresolved. |
| Records.TokensDistinct | app.py:205-216 | The eleven placeholders are pairwise distinct. |
| Records.KeptRowNamesFile | app.py:238 | For a row the filter kept, the name value is not blank. Its file-name base is the stripped name, never the `contract` fallback and never empty. |

## Left out

- The Streamlit user interface is not modelled: page setup, uploaders, buttons, download buttons and messages. A halt of the script is the `Failed` outcome of `Columns.Resolution` and `Records.Load`.
- Reading the workbook (`pandas.read_excel`) is not modelled. The table is a list of header strings plus rows mapping headers to cell values.
- pandas' renaming of duplicate headers is not modelled. Headers that normalise alike are still modelled, and the last one wins.
- The `_id` and `_display` columns are not modelled, because they only feed the person picker. The picker itself is not modelled either; the model works on any kept row.
- Opening and saving the Word file, conversion to PDF through LibreOffice, and the ZIP archive of all contracts are not modelled. They are file, process and library I/O.
- The batch loop's skip of blank names is not modelled separately. `Records.KeptRowNamesFile` shows that the row filter already excludes them.
- python-docx objects are proxies that share state, for example merged cells and a header shared between sections. The model treats the document as a tree of values, so it captures neither that aliasing nor hyperlink runs.
- `Substitution.Document.ReplaceEverywhere`: the model's shape guarantee is weaker than what python-docx does, in two ways.
  - Reading `section.header` or `section.footer` (app.py:49-57) for a section without its own definition first looks for an earlier section's. Only when no earlier section has one does python-docx add a new header or footer part, holding one empty paragraph. So a template without a header or footer comes back with one of each, which the model's unchanged shape does not show. A later section without its own then reads that same part, and its paragraphs are rewritten a second time (see the remark above on shared headers).
  - Only the body, its tables and each section's primary header and footer are visited. First-page and even-page headers and footers, footnotes, text boxes and content controls are not, so placeholders there stay as they are. The model has no such parts.
- Run formatting is an opaque record that the engine copies.
- A run is modelled as text plus formatting. In python-docx, setting a run's text removes everything else in the run, such as inline pictures, field codes (a page number in a footer, for example) and footnote references. The engine sets the text of every run of a paragraph it rewrites (app.py:26-31), so that content is lost there. The model does not capture this loss.
- The ZIP batch loop (app.py:263-294) is not modelled. It repeats the single-contract steps for each row and writes the files into an archive, which is file I/O.
- `Cells.ToStr`: floats are not modelled bit by bit.
  - An integral float carries its integer value.
  - Any other float carries the text that Python's `str` gives it.
  - A timestamp is its day, month and year, rendered by `Cells.FormatDate`.
  - Years outside 1000–9999 are not modelled. Dates reach `to_str` from Excel cells, as pandas timestamps or as plain `datetime` and `date` values from mixed columns, and Excel's date system starts in 1900 and ends in 9999.
- `Cells.SafeFilename`: a `None` argument is represented by the empty string, which the source treats the same way.
- `Text.Lower`: only ASCII letters are lowered. The catalogue aliases are mostly Arabic, and none of their non-ASCII letters has a lower-case form, so on every alias this lowering agrees with Python's. Headers in scripts that do have case (Latin letters with accents, Greek, Cyrillic) are not lowered as Python would lower them.
- `Cells.IsDigitChar`: `str.isdigit` is modelled for the ASCII, Arabic-Indic and Extended Arabic-Indic digits only. The other Unicode digit characters are treated as non-digits.
- `Columns.ResolutionMeaning`: it requires each catalogue's keys to be distinct and the two catalogues to share none. A Python dict guarantees this, and `Columns.CatalogsWellFormed` proves it for the two catalogues of the source.
