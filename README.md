# CargaFacturas core, modelled in Dafny

CargaFacturas loads supplier invoices from a spreadsheet and prepares them for an accounting API.
This project models the three pieces of it that hold the logic:

- **The spreadsheet batch processor** (`ExcelProcessor` in `excel_processor_script.py`).
  - It loads a table once and reads each row back as a record. An empty cell becomes an explicit null.
  - It makes one pass that hands every record to a caller-supplied processing function, in row order. Each outcome is classified as a success or a failure and logged with its index, its 1-based row number and a three-field sample of the record.
  - It produces the listing that the JSON export writes.
  - Its sample processing function keeps a record's non-null fields and strips surrounding whitespace from strings.
  - Modelled imperatively in `excel_processor.dfy`:
    - The processor is a class whose fields the methods update.
    - Each loop is proved against a pure function that defines its result (`RowRecord`, `RunOf`, `Cleaned`).
    - The properties the source promises are lemmas about those functions.
- **The JSON record processor** (`json_processor.py`).
  - It has a recursive walk that reports every key and value of a decoded document.
  - It projects the top-level records onto a list of wanted keys.
  - It parses that key list from comma-separated text.
  - Modelled in `json_processor.dfy`:
    - The walk is a pure function producing its sequence of report lines.
    - The projection is a pair of methods, with loops, proved against the functions `Project` and `Extraction`.
- **The purchase-invoice mapper** (`js/src/siigo-api/invoiceMapper.ts`).
  - It turns each spreadsheet row into one purchase invoice. Most fields are fixed constants. The supplier, invoice number, observations and amounts come from the row.
  - Modelled as pure functions in `invoice_mapper.dfy`.

Shared modules:

- `values.dfy`: the dynamic values the Python code handles, with Python truthiness and dict assignment and lookup (`Put` and `Get` on an insertion-ordered list of pairs).
- `text.dfy`: `str.strip()` with Python's whitespace set, `str.split` on one character, and decimal rendering of integers.

Points of the source that the model makes explicit:

- **Fetch failures.** A row whose record cannot be fetched is counted as failed and gets no log entry (`excel_processor_script.py:104-107`). On a loaded table that branch cannot be reached, so every row is logged (`RunAccounts`).
- **Printed errors versus logged results.** The texts `'Sin resultado'` (falsy result) and `'Error desconocido'` (dict without `'error'`) are only printed (`excel_processor_script.py:117-118`). The log keeps what the function returned, unchanged (`excel_processor_script.py:123`). In the model, `Verdict.error` is the printed message and `LoggedResult` is the logged one.
- **Truthy results that are not dicts.** Calling `.get` on such a result raises AttributeError (`excel_processor_script.py:112`). The handler then counts the row as failed and logs `{'success': False, 'error': <message>}` (`NonDictResultLogged`).
- **Scalars in the walk.** A scalar reached outside a dict entry, such as an element of a list, makes `procesar_registro` raise instead of printing it (see Findings).
- **Empty records in the export.** The export skips falsy records (`if record:`). A table with no columns yields only empty records, so the export then lists nothing (`ExportRecords`).

## Model

| member | source | states |
|---|---|---|
| Values.PutSpec | excel_processor_script.py:77-83 | Dict assignment keeps keys unique. It appends the key only when the key is new. Afterwards the key maps to the new value and every other key keeps its value. |
| Text.Strip | excel_processor_script.py:188-189 | `strip()` leaves whitespace at neither end of the result. |
| Text.StripSlice | excel_processor_script.py:188-189 | `strip()` keeps one contiguous run of the string: the slice after the removed prefix. |
| Text.StripRemovesSpace | excel_processor_script.py:188-189 | Everything `strip()` removes, before and after the kept slice, is whitespace. |
| Text.StripWithin | json_processor.py:145 | Stripping introduces no character the input lacked. |
| Text.StripEmpty | json_processor.py:145 | `strip()` gives the empty string exactly when the input is all whitespace, so exactly those pieces are dropped. |
| Text.StripStripped | json_processor.py:145 | A string with no whitespace at either end is unchanged by `strip()`. |
| Text.Split | json_processor.py:145 | `split(',')` returns at least one piece, and no piece contains the separator. |
| Text.JoinSplit | json_processor.py:145 | Re-joining the pieces of a split with the separator gives back the input. |
| Text.SplitJoin | json_processor.py:145 | Splitting a join of separator-free pieces gives back the pieces. |
| Text.NatToString | json_processor.py:71-73 | The decimal rendering of a count or index is non-empty, all digits and without a leading zero. |
| JsonProcessing.MapKeysInOrder | json_processor.py:62-68 | At a dict's own level, the walk reports one line per key, in insertion order. A dict or list value gets a type line, any other value a value line. (What follows a container's line is stated by `MapWalkBlocks`.) |
| JsonProcessing.ListElementsInOrder | json_processor.py:70-74 | At a list's own level, the walk reports the element count and then one element line per index, in ascending order. |
| JsonProcessing.MapWalkBlocks | json_processor.py:62-68 | The walk of a dict is, entry by entry in order, the entry's key line followed, for a dict or list value, by that value's whole walk one level deeper. |
| JsonProcessing.ListWalkBlocks | json_processor.py:70-74 | The walk of a list is its count line followed, element by element in index order, by the element's line and that element's whole walk one level deeper. |
| JsonProcessing.WalkLevels | json_processor.py:66-74 | Every line of a walk started at level n is at level n or deeper, so nested values are indented further. |
| JsonProcessing.WalkPrintable | json_processor.py:64-68 | At every depth, the walk prints as a value only non-containers. A container is always described by its type instead. |
| JsonProcessing.Render | json_processor.py:60-77 | Each printed line starts with exactly two spaces per level (two more for an element line), followed by text. |
| JsonProcessing.CutSpec | json_processor.py:76-77 | `Cut` keeps the lines before the first scalar line and reports a raise exactly when such a line exists. |
| JsonProcessing.AsWrittenIsCut | json_processor.py:52-77 | The walk as written prints exactly the intended lines up to the first scalar reached outside a dict entry. It raises exactly when such a scalar exists. |
| JsonProcessing.ListFreeDictPrints | json_processor.py:62-68 | A dict with no list anywhere inside it is printed in full by the walk as written, without raising. |
| JsonProcessing.NestedListExample | json_processor.py:70-77 | On {"x": [1, {"y": 2}]} the intended walk reports six lines. The walk as written prints three and raises. |
| JsonProcessing.ProjectSpec | json_processor.py:98-103 | A filtered record has the wanted keys, without repeats, in the order requested. Each maps to the record's value for it, or to null when the record lacks it. |
| JsonProcessing.DedupDistinct | json_processor.py:99-103 | Wanted keys given without repeats appear in the filtered record exactly as given. |
| JsonProcessing.ExtractionFromList | json_processor.py:95-104 | A list yields one filtered record per dict element, in element order. Non-dict elements are skipped. |
| JsonProcessing.ExtractionOtherShapes | json_processor.py:106-115 | A dict document yields exactly one filtered record. Any other non-list document yields none. |
| JsonProcessing.FilterRecord | json_processor.py:98-103 | Building the filtered record key by key gives `Project`, whose keys are the wanted keys without repeats. |
| JsonProcessing.ExtractKeys | json_processor.py:92-115 | The extraction loop returns `Extraction` of the document, whose properties are the two lemmas above. |
| JsonProcessing.ParsedKeysClean | json_processor.py:145 | Every parsed key is non-empty, has no surrounding whitespace and contains no comma. |
| JsonProcessing.ParseKeysFirst | json_processor.py:145 | The text before the first comma gives the first key, unless it is blank. The rest of the input gives the following keys. |
| JsonProcessing.ParseKeysJoin | json_processor.py:145 | Clean keys written as comma-separated text are parsed back exactly. |
| JsonProcessing.NoKeysIffBlank | json_processor.py:145-149 | No key is parsed exactly when the input holds nothing but commas and whitespace. |
| JsonProcessing.ExtractFromInput | json_processor.py:144-151 | Blank input stops with no extraction. Otherwise the parsed keys are extracted from the document. |
| ExcelProcessing.RowRecordSpec | excel_processor_script.py:76-85 | A row's record has exactly the columns as keys, in column order. An empty cell is present as null. With unique columns, looking up a column gives its cell's value. |
| ExcelProcessing.Classify | excel_processor_script.py:110-129 | A row succeeds only when the function returns a dict with a truthy 'success'. Otherwise the failure carries the printed error: 'Sin resultado' for a falsy result, the dict's 'error' or 'Error desconocido' for a non-empty dict, the exception's message for a raise, and the AttributeError message for a truthy non-dict. |
| ExcelProcessing.ErrorResultFields | excel_processor_script.py:133 | The dict the exception handler logs has 'success' False and the exception message as 'error'. |
| ExcelProcessing.NonDictResultLogged | excel_processor_script.py:110-135 | A truthy result that is not a dict fails the row, and the logged result is the handler's dict carrying the AttributeError message. |
| ExcelProcessing.PassStep | excel_processor_script.py:98-135 | Processing one more row appends exactly that row's log entry and increments the counter matching its verdict. |
| ExcelProcessing.CountsAddUp | excel_processor_script.py:95-135 | Every processed row increments exactly one of the two counters, so they sum to the number of rows. |
| ExcelProcessing.CountsAreTallies | excel_processor_script.py:112-116 | When every row succeeds the failure count is zero, and when every row fails the success count is zero. |
| ExcelProcessing.RunAccounts | excel_processor_script.py:98-135 | A pass logs every row once, in ascending order, with its index, its row number (index + 1), what the function returned or the error dict, and as its sample the record's first three fields, keys and values. Successes and failures add up to the row count. |
| ExcelProcessing.AllSucceed | excel_processor_script.py:110-114 | A function that always returns a truthy 'success' gives every row as successful and none as failed. |
| ExcelProcessing.AllRaise | excel_processor_script.py:127-135 | A function that always raises fails every row. Each logged result has 'success' false and the exception message as 'error'. |
| ExcelProcessing.CleanedSpec | excel_processor_script.py:185-191 | The processed data holds the record's non-null fields in their order, contains no null, and holds each string stripped. |
| ExcelProcessing.ExampleResultSpec | excel_processor_script.py:193-197 | The sample function's result is classified as a success, and its 'processed_fields' is the number of entries in 'processed_data'. |
| ExcelProcessing.ExampleProcess | excel_processor_script.py:173-197 | The sample function's loop computes `ExampleResult` of the record, whose properties are the two lemmas above. |
| ExcelProcessing.ExcelProcessor.constructor | excel_processor_script.py:8-13 | A new processor has the file path, no table, no columns and both row counters at zero. |
| ExcelProcessing.ExcelProcessor.Load | excel_processor_script.py:15-33 | A successful read replaces the table, columns and row count and reports True. A failed read reports False and leaves the processor as it was. |
| ExcelProcessing.ExcelProcessor.GetRecord | excel_processor_script.py:69-85 | Returns None exactly when there is no table or the index is out of range. Otherwise returns the row's record: the columns in order with null for empty cells. |
| ExcelProcessing.ExcelProcessor.ProcessAllRecords | excel_processor_script.py:87-144 | Returns None without a table. Otherwise returns the pass `RunOf` the table, so the log and counters are those of the lemmas above. The current row ends at the last row number. |
| ExcelProcessing.ExcelProcessor.ExportRecords | excel_processor_script.py:155-163 | Lists every row's record with its 1-based row number, in order. When there are no columns the records are empty (falsy) dicts, so nothing is listed. |
| InvoiceMapper.ToNumber | js/src/siigo-api/invoiceMapper.ts:42 | The `-` operator's numeric conversion always yields a number or NaN, and leaves a number unchanged. |
| InvoiceMapper.MapRowFields | js/src/siigo-api/invoiceMapper.ts:11-56 | Every invoice carries document type 5341, cost centre 286 and date 2025-11-17. Supplier and number come from the row. The prefix is the row's when truthy and "NA" otherwise, so it is never falsy. Observations are "CUFE: " followed by the CUFE text. There is one item (PROD0001, quantity 1, priced at the row's total) and one payment (method 1225) of that same total, due on the invoice date. |
| InvoiceMapper.TaxLine | js/src/siigo-api/invoiceMapper.ts:34-45 | The single tax is 19% IVA with id 2866 and the row's IVA as value. When total and IVA are numbers, base plus value equals the price. A missing total gives a NaN base. |
| InvoiceMapper.TextAmounts | js/src/siigo-api/invoiceMapper.ts:42 | A total given as digit text is subtracted as the number it spells. |
| InvoiceMapper.MapRows | js/src/siigo-api/invoiceMapper.ts:59-61 | One invoice per row, in row order, each mapped from its own row. |

## Left out

- Spreadsheet reading is not modelled. `pd.read_excel` and the dtype/NaN detection become the `Load` parameter: a header plus rows of cells, or None when reading fails. `ExcelProcessing.ExcelProcessor.Load` requires that header to be unique, as pandas makes it.
- Column statistics (`get_column_info`, `show_column_analysis`) are left out because they are pandas aggregates that are only printed.
- The export's file handling is left out: deriving the output name, writing JSON, and the handler for write errors. The model stops at the list of records written.
- Console output is left out: progress lines, summary banners and error messages. The counters the summary prints are returned in `Run` instead.
- Interactive input (`input()` in both `main` functions) is left out. The key-list text at `json_processor.py:145` is a parameter.
- Reading and decoding the JSON file, and the handler that turns an I/O or decoding error into `[]`, are left out. `procesar_json`, which only loops `procesar_registro` over the loaded records, is left out with them.
- The walk's printing is modelled as the sequence of report lines and their rendered text, not as writes to stdout.
- The check for required fields in `example_process_function` is left out. Its list is empty, so it never fires. The function's exception handler is unreachable for the same reason.
- The processing function is a pure parameter: it cannot observe or change the processor, for example `current_row`.
- `ExcelProcessing.ExcelProcessor.ProcessAllRecords`: the branch for a record that cannot be fetched has no entry in the model, because a loaded table always yields a record for indices in range.
- Floating-point cells and amounts are left out. Numbers are integers, such as amounts in the smallest currency unit, so `str(float)`, NaN arithmetic on floats and dates are not modelled.
- `InvoiceMapper.StringToNumber` covers the empty string and optionally signed decimal digits. JavaScript `Number()` also trims whitespace and accepts fractions, exponents and hex; those strings become NaN here.
- JSON documents whose dicts repeat a key are not modelled: `Get` finds the first occurrence, where Python's decoder keeps the last.
- The API client, the Excel importer, the invoice type schema and validation, the command line, the invoice creation loop and `custom_processing_example` are outside this model.

## Findings

| source | as written | input that shows it | evidently intended | confidence | as-written member | corrected member |
|---|---|---|---|---|---|---|
| json_processor.py:76-77 | The scalar branch formats `type(valor).__name__`. `valor` is bound only by the dict branch's loop, so reaching this branch raises UnboundLocalError and the exception unwinds every enclosing call. | A list document `[1]` (each element is walked on its own, json_processor.py:28-30) raises at once; {"x": [1, {"y": 2}]} prints three lines and raises at the element 1 | `type(registro).__name__`, so that every scalar is printed with its type | high (not executed) | JsonProcessing.NestedListExample | JsonProcessing.ListWalkBlocks |
