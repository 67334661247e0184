# website_ocr: table normalisation and the yearly financial reports

The repository turns photographed or uploaded financial tables into JSON.
A Telegram bot (bot.py) extracts a table from a PDF, a DOCX file or an
image, then stores it as a list of row objects. A Flask service (main.py)
reshapes such a file into a report with one record per year. This project
models the deterministic core of that pipeline in Dafny:

- `ValueCleaner` is `clean_value_string`. It trims the value, treats a
  value in parentheses as negative, and removes `Rp`, dots, commas and
  spaces.
- `Reshape` is the algorithm the four `get_json_file_*` endpoints share:
  - year discovery over the keys of every row (four ASCII digits);
  - numeric ascending sort, proved equal to Python's string order and to
    be the only such listing;
  - collection of the cleaned cells per output field, where the last row
    wins;
  - record building in the endpoint's field order, with `"year"` as
    `int(year)` and `{"value": null, "conUidence": null}` placeholders;
  - the FAILED report when there is no year.

  Each loop is a method proved against a function over its prefix.
- `ReportConfig` holds each endpoint's `Akun` map and output-field list.
  It proves that no list repeats a field and records the syariah
  income-statement quirks.
- `Endpoints` is one endpoint around the reshaping: the `.json` suffix
  check, the missing file, the file that is not JSON, and the 404 for a
  report without years.
- `EmptyKeyFix` is `fix_empty_key`. It updates an array of JSON values in
  place.
- `TableRows` holds the row-building loops of `pdf_to_json` and
  `docx_to_json`. They run over a table that has already been extracted.
- `FenceStrip` is the Markdown-fence removal and the `[` test applied to
  the vision model's answer.
- Supporting modules:
  - `PyStr` holds the Python string operations used: `strip`, `lstrip`
    with a character set, `replace(…, '')`, `rfind`, `endswith`, `int()`
    and `str()` of a number.
  - `PyDict` is an insertion-ordered dict with `d[k] = v` and `pop`.
  - `JsonValue` and `Wrappers` define the JSON value type and `Option`.

The model follows the code where the code behaves differently from what one
might expect:

- One might expect `"Rp (1.000,50)"` to be cleaned to a negative amount. The
  code tests for parentheses before it removes `Rp`, so the value stays
  positive: `CleanMarkerBeforeParenthesis` proves the result is `"(100050)"`.
- Years are compared as strings by `sorted`. The model sorts them by
  value. `SortedYearsPythonOrder` and `SortedYearsUnique` show that this
  gives the same list for four-digit keys.
- The two balance-sheet endpoints (`laporan-keuangan`) use identical
  constants, so the model keeps one pair of them (`PositionAccounts`,
  `PositionKeys`).

Python's `str.isdigit` is modelled as the ASCII digits `'0'..'9'`.
Python's whitespace for `strip` is the full `str.isspace` set of code
points.

## Model

| member | source | states |
|---|---|---|
| ValueCleaner.CleanValue | main.py:37-52 | None gives None and any string gives a string; the result holds no '.', ',' or space |
| ValueCleaner.CleanValueSign | main.py:43-51 | a parenthesised trimmed input gets a leading '-' followed by characters of the input only; any other input yields only its own characters, so no sign is invented |
| ValueCleaner.CleanTrimmedPlain | main.py:40-52 | a trimmed value not in parentheses is only scrubbed |
| ValueCleaner.CleanTrimmedParenthesized | main.py:43-51 | a trimmed value in parentheses becomes '-' and its scrubbed inside |
| ValueCleaner.Scrub | main.py:48 | the replace chain leaves no separator, only characters of its input, and a trimmed result |
| ValueCleaner.ScrubKeeps | main.py:48 | for every input, the chain gives the marker-free text with every character other than '.', ',' and ' ' kept in its order, then stripped |
| ValueCleaner.ScrubUnmarked | main.py:48 | for every input without an 'R', the chain keeps every character other than '.', ',' and ' ' in its order, then strips |
| ValueCleaner.Inner | main.py:45 | `s[1:-1]` is two characters shorter and holds only characters of `s` |
| ValueCleaner.CleanUnbracketed | main.py:40-52 | a trimmed value not opening with '(' is cleaned by the removals alone |
| ValueCleaner.CleanThousands | main.py:40-52 | "Rp 1.234.567" is cleaned to "1234567" |
| ValueCleaner.CleanParenthesisedNegative | main.py:43-51 | "(500)" is cleaned to "-500" |
| ValueCleaner.CleanMarkerBeforeParenthesis | main.py:43-48 | "Rp (1.000,50)" is cleaned to "(100050)": the parenthesis test runs before the marker is removed |
| ValueCleaner.CleanMarkerFormedLate | main.py:48 | the removals run in order, so "R.p1" keeps the "Rp" that removing '.' forms and gives "Rp1" |
| ValueCleaner.RemoveTwice | main.py:48 | removing a character that occurs twice keeps the three runs around it, in order |
| Reshape.YearsIn | main.py:134-138 | definition of the discovered years, by recursion on the rows; every member is four ASCII digits; `YearsInExactly` says which keys it holds |
| Reshape.YearsInExactly | main.py:134-138 | a key is an available year exactly when it is four ASCII digits and some row has it |
| Reshape.DiscoverYears | main.py:134-138 | the nested discovery loop builds exactly the set of available years |
| Reshape.SortedYears | main.py:141 | the listing holds each available year once, in strictly increasing `int` order |
| Reshape.SortedYearsPythonOrder | main.py:141 | that order is Python's string order on the keys |
| Reshape.SortedYearsUnique | main.py:141 | any listing of exactly these keys in ascending string order is this one, so `sorted` is matched |
| Reshape.Collected | main.py:149-158 | definition of the scratch map `temp_data_storage` after the rows seen so far; its lemmas follow |
| Reshape.CollectedExactly | main.py:149-158 | a field is in the scratch map exactly when some row has a mapped `Akun` and the year |
| Reshape.CollectedLastWins | main.py:149-158 | a field holds `{"value": cleaned cell, "conUidence": null}` from the last row that feeds it |
| Reshape.CollectedIgnores | main.py:150-151 | a row without a mapped `Akun` or without the year can be dropped without changing the scratch map |
| Reshape.CollectYear | main.py:149-158 | the collection loop computes the scratch map for the year |
| Reshape.FieldEntry | main.py:155-158 | an entry is an object with keys "value" and "conUidence", in that order; "value" holds the value and "conUidence" holds null |
| Reshape.RecordOf | main.py:161-168 | definition of `year_data_entry` after the fields seen so far; `RecordFields`, `RecordDistinct` and `RecordKeyOrder` state its contents |
| Reshape.RecordFields | main.py:161-168 | a record holds exactly the listed fields: "year" as `int(year)`, a collected field as collected, the others as the null placeholder |
| Reshape.RecordDistinct | main.py:161-168 | building a record never repeats a key |
| Reshape.RecordKeyOrder | main.py:161-168 | when the list repeats nothing, the record's keys are the list, in its order |
| Reshape.BuildRecord | main.py:161-168 | the record-building loop computes the record of the year |
| Reshape.ReportOf | main.py:133-176 | definition of the report body; `ReportStatus` and the `Report…` lemmas below state its properties |
| Reshape.ReshapeReport | main.py:133-176 | the endpoint body computes the report: one record per sorted year, then FAILED when nothing was read |
| Reshape.ReportStatus | main.py:170-176 | there are as many records as available years; the status is FAILED with "No year data found in the file." and nothing read exactly when there is no year, and SUCCESS with "File Successfully Read" otherwise |
| Reshape.ReportRecords | main.py:144-170 | record i belongs to the i-th year in ascending order and holds exactly the listed fields |
| Reshape.ReportKeyOrder | main.py:161-170 | every record lists the fields in the field list's order |
| Reshape.ReportYearsAscend | main.py:141-170 | when "year" is listed, the records' years strictly increase |
| Reshape.ReportCoversYears | main.py:134-170 | when "year" is listed, every available year has a record carrying `int(year)` |
| Reshape.ReportFieldPlaceholder | main.py:166-168 | a listed field that no row feeds holds `{"value": null, "conUidence": null}` |
| Reshape.ReportFieldLastWins | main.py:149-165 | a listed field holds the cleaned cell of the last row feeding it |
| ReportConfig.KeyOrderNoRepeats | main.py:109-131 | no endpoint's field list repeats a field (this one and those at main.py lines 250-272, 393-420 and 542-569) |
| ReportConfig.YearListed | main.py:109-131 | "year" is listed by every endpoint except the syariah income statement |
| ReportConfig.BrutoTargetUnlisted | main.py:94-131 | the syariah income statement maps "SISA HASIL USAHA BRUTO" to a field it never lists |
| ReportConfig.OperatingCategoryUnlisted | main.py:223-272 | the conventional income statement maps "BEBAN USAHA" to a field it never lists |
| Endpoints.Serve | main.py:62-189 | a name without ".json" is refused before any lookup; a missing file and a file that is not JSON get their error replies; a parsed file gets the reshaped report with its status |
| Endpoints.ServedFailure | main.py:172-176 | a parsed file is answered with 404 exactly when it has no year, and then with the FAILED report |
| Endpoints.SyariahIncomeRecordsOmit | main.py:94-168 | syariah income-statement records have no "year" field and no "remaining_profit_bruto" field |
| Endpoints.EndpointKeyOrder | main.py:161-170 | each endpoint's records list its fields in its order, each once |
| EmptyKeyFix.HoldsEmpty | bot.py:380 | `"" in x` is defined for objects, strings and lists and raises for the other values |
| EmptyKeyFix.FixedEmptyKey | bot.py:376-384 | definition of `fix_empty_key` on a list, None when the first test raises; `FixedEmptyKeyShape` and `FixedListRenamesAll` state its properties |
| EmptyKeyFix.FixedEmptyKeyShape | bot.py:377-384 | the list keeps its length and order; an empty list, or a first element without "", leaves it unchanged; otherwise every element is renamed |
| EmptyKeyFix.Renamed | bot.py:382-383 | definition of `obj[new_key] = obj.pop("")`; `RenamedObject` states its properties |
| EmptyKeyFix.RenamedObject | bot.py:382-383 | a renamed object loses "", holds its value under the new key, keeps every other key and repeats none; the other keys keep their order, and the new key keeps its place when it was present and otherwise comes last; other elements are unchanged |
| EmptyKeyFix.FixedListRenamesAll | bot.py:380-383 | when the first element holds "", every object with a "" key ends up with that value under the new key |
| EmptyKeyFix.FixEmptyKey | bot.py:376-384 | the in-place loop leaves the array equal to the function's result, or unchanged when the first test raises |
| TableRows.ColumnKey | bot.py:59 | definition of the key of column i: its header while one exists, otherwise `col_{i+1}`; `FallbackKeysDistinct` is about it |
| TableRows.FallbackKeysDistinct | bot.py:59 | the `col_{i+1}` keys of the columns past the header row are pairwise distinct |
| TableRows.RowObject | bot.py:57-60 | definition of the row object after the cells seen so far; `RowObjectKeys` and `RowObjectLastWins` state its properties |
| TableRows.RowObjectKeys | bot.py:57-60 | a row object has exactly the column keys, each once |
| TableRows.RowObjectLastWins | bot.py:57-60 | a column whose key no later column shares holds its cell value |
| TableRows.BuildObject | bot.py:57-60 | the cell loop computes the row object |
| TableRows.PdfObjects | bot.py:50-61 | no table gives an empty list, an empty first table raises, otherwise there is one object per row after the header |
| TableRows.PdfToJson | bot.py:50-61 | the row loop computes that result |
| TableRows.PdfCellRule | bot.py:53-60 | in object r, the key of column i holds the cell, with None and "" both becoming None |
| TableRows.DocxObjects | bot.py:72-85 | no table gives an empty list, an empty first table raises, otherwise there is one object per row after the header |
| TableRows.DocxToJson | bot.py:72-85 | the row loop computes that result |
| TableRows.DocxCellRule | bot.py:77-84 | headers are stripped cell texts; in object r, the key of column i holds the stripped text, or None when it is empty |
| FenceStrip.BacktickStripIdle | bot.py:293 | the second `lstrip("`")` never removes anything |
| FenceStrip.CloseCutAtEnd | bot.py:294-295 | a text ending in three backticks is cut at that closing fence and stripped; any other text is kept |
| FenceStrip.Unfenced | bot.py:291-295 | definition of the fence stripping; the `Unfenced…` lemmas state its properties |
| FenceStrip.UnfencedPlain | bot.py:291 | an answer whose stripped form does not open with three backticks is left exactly as it came |
| FenceStrip.UnfencedFenced | bot.py:291-295 | a fenced answer loses its leading characters from the set of "`json" and is stripped, then loses a closing fence at its end and is stripped again |
| FenceStrip.UnfencedTrimmed | bot.py:293-295 | a fenced answer comes out stripped |
| FenceStrip.UnfencedShorter | bot.py:291-295 | a fenced answer comes out strictly shorter |
| FenceStrip.FenceRoundTrip | bot.py:291-295 | "```" + tag + "\n" + payload + "\n```" gives back the payload, for any tag of "`json" characters and any trimmed non-empty payload |
| FenceStrip.Accepted | bot.py:299 | definition of the `startswith("[")` test on the stripped answer; `FencedAccepted` and `PlainAccepted` are about it |
| FenceStrip.FencedAccepted | bot.py:291-306 | such a fenced payload passes the `[` test exactly when it opens with '[' |
| FenceStrip.PlainAccepted | bot.py:299 | an unfenced answer passes exactly when its stripped form opens with '[' |
| PyStr.Strip | main.py:40 | `strip()` leaves no whitespace at either end |
| PyStr.StripWithin | main.py:40 | `strip()` keeps only characters of its input |
| PyStr.StripAround | bot.py:293 | stripping whitespace runs around a trimmed text gives that text |
| PyStr.StripBlank | main.py:40 | a text made only of whitespace strips to the empty string |
| PyStr.LStrip | bot.py:293 | `lstrip(chars)` removes the longest prefix of characters from the set and nothing else |
| PyStr.RemoveAll | main.py:48 | `replace(pat, '')` only removes characters, and a single-character pattern leaves none of it |
| PyStr.RemoveCharIsWithout | main.py:48 | `replace(c, '')` for one character is the text without `c`, every other character kept in order |
| PyStr.WithoutMembers | main.py:48 | a character survives the removal exactly when it was there and is not removed |
| PyStr.WithoutWithout | main.py:48 | removing one set of characters and then another removes their union, so the chain of single removals composes |
| PyStr.RemoveAllOccurrence | main.py:48 | `replace(pat, '')` drops an occurrence of the pattern and keeps everything before it, when nothing before it starts the pattern |
| PyStr.RFind | bot.py:295 | `rfind` gives the last occurrence, or -1 when there is none |
| PyStr.RFindOfSuffix | bot.py:294-295 | when the text ends with the pattern, its last occurrence is the suffix |
| PyStr.NatToDecimal | bot.py:59 | `str(n)` is a digit string without a leading zero whose value is n |
| PyStr.LexLessIsNumeric | main.py:141 | for digit strings of one length, string order is numeric order |
| PyStr.DecimalValueInjective | main.py:163 | two digit strings of one length with the same `int()` are equal |
| PyDict.IndexOf | main.py:164 | the position of a key's first entry, or -1 when it is absent |
| PyDict.Assign | main.py:163-168 | `d[k] = v` makes `k` hold `v`, leaves other keys alone and repeats no key |
| PyDict.AssignKeys | main.py:161-168 | a present key keeps its place; a new key goes last |
| PyDict.Remove | bot.py:383 | removing a key leaves the others with their values, in their order, and repeats no key; an absent key leaves the dict as it is |
| PyDict.Pop | bot.py:383 | `pop` gives the key's value and the dict without it |
| PyDict.HasIffListed | main.py:164 | `k in d` holds exactly when k is among the keys |

## Left out

- Flask routing, `jsonify` and `Response` are not modelled. The error
  replies are kept as the pair `jsonify` is given. The model does not
  capture that this pair is serialised as a JSON list and sent with the
  default status.
- The `api/files`, download and index routes are web plumbing over the
  folder listing.
- File access is a parameter of `Endpoints.Serve`: a map from file names to
  a parsed or an unparsable file. `os.path.join`, `open` and `json.load`
  are not modelled.
- The generic `except Exception` replies with code 500 are not modelled.
  Inputs that reach them in the source include, for example:
  - a top-level number, boolean or null, or a row that cannot be iterated
    (TypeError at main.py:135-136);
  - a row that is a list holding a non-string, such as `[[1]]` or
    `[[null]]` (AttributeError on `key.isdigit()`, main.py:137);
  - at the three endpoints whose field list holds "year", a
    four-character key of digits that are not decimal digits, such as the
    superscripts in `"²⁰²¹"`: it passes `isdigit`, and then `int(year)`
    raises ValueError (main.py:163). The syariah income list has no
    "year" field (main.py:109-131), so there such a key gives a record and
    status 200;
  - an `Akun` value that cannot be hashed, or `.get` on a row that is not
    a dict once some year exists (main.py:150-153);
  - I/O errors.
- A parsed file whose top level is not a list of objects has no
  `StoredFile` value in the model. In the source, for example, a
  top-level object or string, rows that are strings, and rows that are
  lists of strings with no four-digit entry (such as `[["Akun"]]`) find
  no year and get the FAILED report with 404 rather than an error.
- Rows are maps from keys to a string or null. Numbers, booleans, lists
  and objects as cell values, and `str()` of them in `clean_value_string`,
  are not modelled.
- The Telegram handlers, asyncio tasks, temporary files and the Gemini
  streaming call (gemini_vision_extractor.py) are transport, concurrency
  and foreign calls. gemini_vision_extractor.py is not part of this model.
- pdfplumber and python-docx are not modelled. The tables they extract
  are inputs.
  - `pdf.pages[0]` on a document without pages is not modelled.
  - An empty first table, where the source raises IndexError on
    `table[0]` or `rows[0]`, is modelled as None.
- A None PDF header becomes the dict key None. `json.dumps` writes it as
  `"null"`, and the model keys it `"null"` from the start. The collision
  of that key with a real `"null"` header within one row is not modelled.
- After the `[` test, `json.loads`, `json.dumps` and their errors are not
  modelled. `fix_empty_key` is modelled on the list `json.loads` returns.
- `fix_empty_key` on a falsy value that is not a list is not modelled.
  After the `[` test that value is always a list. The model keeps the
  empty list unchanged.
- `EmptyKeyFix.FixEmptyKey` holds the list as an array of JSON values. The
  source mutates shared dict objects. Aliasing between elements cannot
  arise from `json.loads`, so it is not modelled.
- Output file names from `datetime.now()` and `uuid4`, and logging and
  `print`, are not modelled.
- Unicode digits accepted by `str.isdigit` but outside `'0'..'9'` are not
  modelled. Decimal digits of other scripts, such as `"２０２１"` or
  `"٢٠٢١"`, are read by `int()` as 2021, so in the source such a key gives
  a record that the model does not produce. Non-decimal digits such as
  superscripts raise at `int(year)`, as the 500 line above says.
