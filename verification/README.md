# cdskit export and delete-all, modelled in Dafny

cdskit is a small command-line tool for Google Cloud Datastore. It has two
commands:

- `export-kind` writes every entity of one kind to a JSON or CSV file. It
  fetches the entities 1000 at a time.
- `delete-all` deletes every entity of the chosen kinds in the chosen
  namespaces, 500 keys per `DeleteMulti` call.

`export.go` holds the current `export-kind`. `main.go` holds `delete-all`,
the `min` helper and an older `export-kind`. That older command reads the
kind in one query and writes a JSON array.

This project models both commands as pure Dafny functions and as methods
with loops, and proves properties of them. The modules follow the program's
parts:

| module | file | what it models |
|---|---|---|
| `Values` | values.dfy | datastore keys, properties and raw values; normalized values; a record as an ordered map |
| `Normalize` | normalize.dfy | `toExportValue` and `dynamicEntity.Load` |
| `Traversal` | traverse.dfy | `traverse`, `ToCSVHeader` and `ToCSVRecord` |
| `Writers` | writers.dfy | `newExportWriter`; the JSON and CSV writers; the UTF-8 bytes of the CSV text and the 4096-byte `bufio` buffer that `csv.NewWriter` puts in front of the file |
| `Export` | export.dfy | the paging loop of `ExportKindCmd.Execute`, as written and corrected |
| `FileNames` | file_names.dfy | `newExportFolder`, `newExportFileName` and the older `newName` |
| `LegacyExport` | legacy_export.dfy | the older `ExportKindCmd.Execute` in main.go |
| `DeleteAll` | delete_all.dfy | `DeleteAllCmd.Execute`, `metadataNamespaces`, `metadataKinds` and `min` |
| `Client` | client.dfy | which datastore call fails, and with what error |

The remaining modules hold shared helpers:

- `Wrappers`: `Option` and `Result`.
- `Seqs`: chunking into batches, and `min`.
- `Strings`: `strings.Split`, joining, prefix and suffix.
- `Assoc`: an ordered map.
- `Decimal`: the `fmt.Sprint` of an `int64`.

How the model represents the program:

- **Go maps** are stored as association lists that keep first-insertion
  order.
  - Assigning to a key that is already present replaces its value in place.
  - Go visits a map's entries in an unspecified order that can change from
    one `range` to the next. The model takes that order as a parameter
    (`Traversal.Order`), which may be any rearrangement of the entries
    (`Traversal.Rearranges`).
  - The CSV header walk and the data-row walk each get their own order
    (`Writers.Codecs`), so their columns need not line up (see Findings).
- **The CSV output** is bytes: every string written to the buffer is its
  UTF-8 encoding, and the 4096-byte limit counts those bytes.
- **The datastore** is a parameter.
  - The export reads from a sequence of entities.
  - `delete-all` reads from a function that answers keys-only queries.
- **Client failures** are given as a `Failure(at, error)`. The numbered
  client call `at` fails with `error`. The commands stop at the first
  failing call, as the source's early returns do.
- **Writers** record the calls the driver makes (header, line break,
  record, footer) as a trace. A run of that trace shows what each writer
  produces.
- **Library encoders** are uninterpreted function parameters: `json.Marshal`
  of a record (which may fail), the text of a CSV cell, and `csv.Writer`'s
  quoting of one row.

## Model

| member | source | states |
|---|---|---|
| Normalize.KeyNormalization | export.go:190-195 | A key exports as its name when it has one. Otherwise it exports as the decimal text of its numeric ID, which is canonical and parses back to that ID. |
| Normalize.UnnamedKeysDistinct | export.go:190-195 | Two unnamed keys export as the same text only when their IDs are equal. |
| Normalize.EntityNormalization | export.go:181-189 | A nested entity becomes a map with distinct keys. Its keys are exactly the names of the properties with non-nil values. Each key holds the normalized value of the last non-nil property of that name. |
| Normalize.SliceNormalization | export.go:196-204 | A slice becomes the list of its normalized non-nil elements, in order. The list is never longer than the slice. It has the same length only when no element is nil. |
| Normalize.NormalizedNilFree | export.go:179-211 | If every property inside a value has a non-nil value, no nil appears anywhere in the normalized value. |
| Normalize.NormalizedDistinct | export.go:179-211 | Every map inside a normalized value has distinct keys. |
| Normalize.StoreLookup | export.go:121-125 | After the property loop, a key holds the last non-nil value assigned to it. A key that was never assigned keeps its earlier value. |
| Normalize.LoadSemantics | export.go:116-127 | Loading into an existing map or into nil works key by key. A key set by a non-nil property takes the normalized value of that property's last occurrence. Every other key keeps its earlier value. The key set is the earlier keys plus the names with non-nil values. Distinct keys stay distinct. |
| Normalize.LoadedRecordWellFormed | export.go:116-127 | A freshly loaded record has distinct keys. Each of its values is nil-free and has distinct keys at every depth. |
| Traversal.TraverseInOrder | export.go:148-163 | Walking every map in the order its entries were stored, the traversal emits exactly the leaf paths of the value, each with its leaf. Each path is its keys joined with ":"; no separator is added before an empty sub-path, so an empty key followed by a non-empty one gives a leading ":". |
| Traversal.TraversePermutes | export.go:148-163 | Whatever order Go picks for each map, the traversal emits the same path-and-leaf pairs, each as often, as the stored-order walk. Only their order can differ. |
| Traversal.PathsSound | export.go:148-163 | Every emitted path leads through the maps to the value emitted with it, and that value is not a map. |
| Traversal.PathsComplete | export.go:148-163 | Every non-map value that some path reaches is emitted together with that path. |
| Traversal.PathsUnique | export.go:148-163 | When a value's maps have distinct keys, no path is emitted twice. |
| Traversal.RenderNonEmpty | export.go:152-157 | When no key on a path is empty, the column name is the keys joined with ":". |
| Traversal.CsvColumns | export.go:139-177 | Whatever orders the header walk and the row walk pick, both have one column per leaf of the record. The header holds every leaf path once, and the row holds every leaf's cell text once. Nothing ties column j of one to column j of the other. |
| Traversal.ColumnsMisaligned | export.go:139-177 | For the record {a: 1, b: 2}, the header walk can give ["a", "b"] while the row walk gives the texts of 2 and 1. The column headed "a" then holds the value reached by "b". |
| Traversal.CsvColumnsAligned | export.go:139-177 | When the header walk and the row walk visit each map in the same order, and each map binds a key once, the two have the same number of columns. Header column j names a key path to a non-map value, and row column j holds that value's cell text. |
| Traversal.CsvColumnsAreLeaves | export.go:139-177 | The header names exactly the record's leaves, each once, and each name leads to a non-map value. |
| Writers.NewWriter | export.go:91-100 | "csv" and "json" each give a fresh, empty writer of that kind. Any other name is refused with "Unsupported format: " followed by the name. |
| Writers.WriteString | export.go:94 | The UTF-8 bytes of a string written to the buffered CSV output are added after everything written before. The file only grows, and it does not change while the 4096-byte buffer has room for the bytes. |
| Writers.NewWriterOutput | export.go:91-100 | Whatever calls are made on the writer that `newExportWriter` returns: the csv writer holds exactly the UTF-8 rows of the records written; the json writer has put out "[" for the header, ",\n" for each line break, each record's marshalled text (nothing when marshalling fails) and "]" for the footer, in call order. |
| Writers.CsvOutput | export.go:253-276 | After any sequence of writer calls, the bytes in the CSV file and buffer are the UTF-8 text of the first record's header row followed by one data row per record, each ended by a newline. The writer is headed exactly when some record has been written, and the buffer is then not empty. |
| Writers.CsvFileIncomplete | export.go:253-276 | The CSV writer is never flushed. So once a record is written, the file is a strict prefix of the CSV bytes, and it is empty when those bytes fit in the 4096-byte buffer. |
| Writers.CsvFileStaysEmpty | export.go:274-276 | While at most 4096 bytes have been written, nothing reaches the CSV file. |
| Writers.CsvOutputFlushed | export.go:274-276 | If the footer flushed the buffer, the file would hold the whole CSV text and the buffer would be empty. |
| Writers.FlushingAgrees | export.go:274-276 | A flushing footer changes nothing before the footer is reached. |
| Export.Fetch | export.go:55-58 | A page query returns the records from the offset onward, at most 1000 of them. |
| Export.WritePage | export.go:76-82 | Every record of a page is written and then followed by a line break, including the last one. |
| Export.PageContents | export.go:76-82 | A page passes its records to the writer once each, in order, with one line break per record and no header or footer. |
| Export.WriteFetched | export.go:71-82 | A fetched page passes its records once each, in order. It writes one line break per record, plus one before the page when it is not the first. It writes no header or footer. |
| Export.ReadPage | export.go:55-84 | A query returns nothing exactly when the offset is the end of the kind. A non-empty page advances the offset by its size and extends the writer calls to cover all records read so far. |
| Export.ExportStep | export.go:53-85 | One loop round either ends with the failing query's error, leaving the calls and the offset as they were, or reads one page as `ReadPage` states. |
| Export.ExportKind | export.go:49-88 | With no failing query, the export reads every record with ceil(n/1000)+1 queries, the last of which returns nothing. It makes exactly the planned calls: the header, each page, and the footer. A failing query returns its error. By then the header and the pages read so far have been written, but no footer. |
| Export.PlannedContents | export.go:52-86 | The planned calls start with the header, end with the footer, and pass every record exactly once, in order. They contain n + ceil(n/1000) - 1 line breaks. |
| Export.JsonOutput | export.go:224-251 | The JSON file is "[" followed by the pages joined with ",\n", then "]". Each page is its records, each followed by ",\n". |
| Export.JsonEnds | export.go:76-86 | An empty kind exports as "[]". A non-empty kind always ends in ",\n]", which is not valid JSON. |
| Export.TrailingSeparator | export.go:79-81 | One record whose JSON is "{}" exports as "[{},\n]" as written, and as "[{}]" with the corrected guard. |
| Export.WritePageCorrected | export.go:76-82 | With the guard `i != len(batch)-1`, the records of a page are separated by line breaks, with none after the last. |
| Export.AlternateContents | export.go:76-82 | With the corrected guard, a page passes its records once each, in order, with one line break fewer than records and no header or footer. |
| Export.WriteFetchedCorrected | export.go:71-82 | With the corrected guard, a fetched page passes its records once each, in order. It writes one line break fewer than records, plus one before the page when it is not the first. |
| Export.AlternateAppend | export.go:71-82 | With the corrected guard, two pages joined by the page separator give the same calls as one run of their records separated by line breaks. |
| Export.ExportKindCorrected | export.go:49-88 | With the corrected guard, the export's calls are the header, all records separated by line breaks, and the footer. A failing query stops it after the records read so far. |
| Export.CorrectedJson | export.go:224-251 | With the corrected guard, the JSON file is "[" followed by the records' JSON joined with ",\n", then "]". |
| FileNames.ExportFileName | export.go:102-108 | The file lies in the export folder, itself a relative directory ending in "/", so the file's path is relative too. It ends in "." followed by the format, and inside the folder it is named as the older command names it. |
| FileNames.DistinctStamps | export.go:106-108 | Two exports of one kind and format at two different stamps, of any widths, write to different files. |
| FileNames.LegacyFileName | main.go:212-214 | The older name starts with "export_", the kind and "_", and ends with "." and the format. |
| LegacyExport.WriteArray | main.go:189-207 | The older command writes "[" followed by the JSON of the records that marshal, joined with ",\n", then "]". A record that fails to marshal leaves no separator behind. |
| LegacyExport.ExportAll | main.go:176-207 | A failing `GetAll` returns its error before any file is written. Otherwise the file is the array of all loaded entities. |
| LegacyExport.AgreesWithCorrected | main.go:189-207 | When every record marshals, the older command's file equals the paged export's file with the corrected guard. |
| Seqs.Min | main.go:117-122 | The result is one of the two arguments and is no larger than either. |
| Seqs.ChunksShape | main.go:86-87 | Batching keeps every element in order. Each batch holds 1 to k elements, every batch but the last holds exactly k, and there are ceil(n/k) batches. |
| DeleteAll.IssueAppend | main.go:65-94 | Making one run of calls and then another is making the first run and, only when none of its calls failed, the second; a failure in an earlier loop returns before any later call is made. |
| DeleteAll.NamespaceQueryFails | main.go:41-47 | With no namespace given, when the namespace query fails it is the only call made, and the command returns "Unable to load list of namespaces: client.GetAll: " followed by the query's error. |
| DeleteAll.KindQueryFails | main.go:67-72 | With one namespace given and no kind, when the kind query fails it is the only call made, and the command returns "client.GetAll: " followed by its error. |
| DeleteAll.KeyListingFails | main.go:79-82 | With one namespace and one kind given, when listing the kind's keys fails it is the only call made, and its error is returned unchanged. |
| DeleteAll.FirstDeleteFails | main.go:86-91 | With one namespace and one non-empty kind given, the listing is followed by one delete of the kind's first keys, at most 500; when that delete fails nothing else is called and its error is returned unchanged. |
| DeleteAll.OneKindCleaned | main.go:65-94 | With one namespace and one kind given and no failure, the command lists the kind's keys first, deletes exactly those keys, and returns no error. |
| DeleteAll.Names | main.go:131-135 | The discovered namespaces are the names of the `__namespace__` keys, in key order. |
| DeleteAll.UserKindsMembers | main.go:145-151 | A name is a discovered kind exactly when some `__kind__` key has it and it is not of the form `__…__`. |
| DeleteAll.UserKindsAppend | main.go:145-151 | The kinds are filtered key by key, keeping the key order. |
| DeleteAll.Copy | main.go:53 | Go's `copy` overwrites the first min(len(dst), len(src)) elements of `dst` and never grows it. |
| DeleteAll.Choose | main.go:55 | The prompt returns the default, or a line the user typed that equals one of the choices when letter case is ignored, kept in the case it was typed. |
| DeleteAll.ChooseFirst | main.go:55 | The first typed line that is empty or matches a choice decides: a matching line is returned as typed and an empty line gives the default; rejected lines before it are asked again; when no line decides, the default is returned. |
| DeleteAll.OnlyAllOffered | main.go:52-61 | As written, "all" is the only choice offered. Every discovered namespace is cleaned, unless "all" is typed in another letter case (such as "ALL"): that text is not equal to "all", so the command cleans only one namespace, whose name is "all" spelled in that other case. |
| DeleteAll.PromptExamples | main.go:52-61 | With namespaces "a" and "b": typing "a" is refused, and the end of input or an empty line then cleans both; typing "ALL" cleans only a namespace named "ALL". |
| DeleteAll.CorrectedChoice | main.go:52-61 | If the namespaces were offered, typing a namespace's name as the only line would clean exactly that namespace. Typing only "all", only an empty line, or only a line that matches no choice would clean all of them. |
| DeleteAll.TargetsOfFlag | main.go:41-42 | An empty flag selects the discovered list. Any other flag is cut at commas into pieces without commas, which join back to the flag. |
| DeleteAll.SelectTargets | main.go:41-63 | Namespace discovery is queried only when no namespace is given. On success, the namespaces cleaned are the flag's pieces, or else the choice made among the discovered ones. With none discovered, the one empty name that `strings.Split` leaves is cleaned. |
| DeleteAll.SelectKinds | main.go:66-73 | Kind discovery in a namespace is queried only when no kind is given. On success, the kinds cleaned are the flag's pieces, or else the namespace's non-system kinds. |
| DeleteAll.BatchCalls | main.go:86-92 | A kind's keys are deleted with ceil(n/500) `DeleteMulti` calls. Every batch holds 1 to 500 keys, all but the last are full, and together they delete exactly the kind's keys, in order. |
| DeleteAll.DeleteBatches | main.go:86-92 | The batch loop issues the deletes in order and stops at the first failing one. |
| DeleteAll.KindCalls | main.go:79-92 | Cleaning a kind first lists its keys. Its deletes remove exactly the keys the listing returned. |
| DeleteAll.DeleteKind | main.go:77-92 | Cleaning one kind makes its planned calls, stopping at the first failure. |
| DeleteAll.DeleteKinds | main.go:75-93 | The kinds are cleaned one after the other, stopping at the first failure. |
| DeleteAll.DeleteNamespace | main.go:66-93 | Cleaning a namespace makes its kind discovery, then cleans each kind, stopping at the first failure. |
| DeleteAll.DeleteNamespaces | main.go:65-94 | The namespaces are cleaned one after the other, stopping at the first failure. |
| DeleteAll.Execute | main.go:30-101 | The command makes the calls of the whole plan, in order: namespace discovery unless namespaces are given, then for each namespace its kind discovery unless kinds are given, then for each kind its key listing and batched deletes. It stops at the first failing call and returns that call's error, or no error when nothing fails. |
| Decimal.ParseShow | export.go:193 | The decimal text of an ID is canonical and parses back to the ID. |
| Decimal.ShowInjective | export.go:193 | Different IDs have different decimal texts. |
| Strings.JoinSplit | main.go:41 | Joining the pieces of `strings.Split` with the separator gives back the original string. |
| Strings.SplitPieces | main.go:41 | No piece of `strings.Split` contains the separator. |
| Strings.SplitJoin | main.go:41 | Splitting pieces that do not contain the separator, after joining them with it, gives back the pieces. |
| Assoc.Put | export.go:123 | Assigning a key in a map sets that key and leaves every other key unchanged. The key set gains the key, distinct keys stay distinct, and the map grows only when the key is new. |

## Left out

- The datastore client (`NewClient`, `Close`, queries, network, authentication): its answers are parameters, and its failures are a numbered failing call.
- Flag parsing, `main`, and the `Opts` command table: these are library glue with no behaviour of their own.
- Progress and diagnostic prints to stdout and stderr: they change no output file and no result.
- Creating the folder and the file (`os.MkdirAll`, `os.Create`) and their errors: only the names are modelled (`FileNames`).
- The time stamp: the time layout is not modelled, and the stamp is an opaque string parameter.
- `newExportWriter` panics on an unsupported format, and it runs after the file is created, so an empty file is left behind. The model returns the panic message as an error.
- `json.Marshal`, the CSV cell text and `csv.Writer`'s quoting: these are library code, passed in as uninterpreted functions. `encoding/json` writes a map's keys in sorted order; that is left to the `marshal` parameter.
- DeleteAll.Choose: the prompt library is not part of this model. The model reads a list of typed lines: a line matches when it equals a choice once the case of ASCII letters is ignored, and it is returned as typed; an empty line or the end of input gives the default. Case folding beyond ASCII letters, any trimming of the line, and the library's handling of an input that is not a terminal are not modelled.
- Write errors on the output file. The JSON writer logs a failed record write to stderr and carries on (export.go:236-241). The writes of "[", ",\n" and "]" (export.go:225, 246, 250) and the two `csv.Writer.Write` calls (export.go:264, 267) drop their errors silently. The model assumes that every write succeeds.
- The error texts of `DeleteMulti` and of the key listing are the client's own and are passed through unchanged.
- Datastore IDs are `int64` in the model as in the source. No arithmetic is done on them, so there is no wrap-around to model.
- main.go and export.go cannot be built together: both declare the type `ExportKindCmd`, its `Execute` method and the function `toExportValue`. They are modelled as two separate programs, `LegacyExport` and `Export`.
- The older `ToCSVHeader` in main.go (lines 246-260) has no return statement and an unused `val`, so it does not compile. The older `ToCSVRecord` (lines 262-265) compiles and returns an empty row. The older command uses neither, and neither is modelled.
- The older command calls `v.Marshal()`, which `DynamicEntity` does not declare; it is modelled as the `marshal` parameter.
- `ExportKindCmd.Execute` in export.go returns only an error or nil, and reports no record count. The model returns the same.
- The JSON writer in export.go keeps no first-record flag. The driver writes every separator, a line break after every record and one between pages (see Findings). Only the older command in main.go, modelled as `LegacyExport`, uses a `first` flag.
- Floating-point values, times, blobs and geo points pass through normalization unexamined, as an opaque scalar.
- Traversal.Order: an order is a function of the entries it is given. So two walks of the same kind (two header walks, or two row walks) visit maps with identical entries alike, whereas Go may visit them differently. The header walk and the row walks still have independent orders, which is all the misalignment finding needs.
- Writers.WriteRow: a row goes to the buffer in one write of its whole text. `csv.Writer` writes it field by field, with separators and quotes. Both add the same bytes in the same order, so `CsvOutput`, `CsvFileIncomplete` and `CsvFileStaysEmpty` hold either way. The point at which a full buffer spills into the file can differ.
- DeleteAll.Execute: the datastore is a snapshot that deletes do not change. A kind or namespace named twice in a flag (`a,a`) is listed and deleted twice from the same keys. The live datastore would answer the second listing with no keys, and the second round would issue no deletes. Without repeated names, every kind is listed once, before any of its own deletes, so the snapshot is what the listing sees.

## Findings

| source | as written | input that shows it | evidently intended | confidence | as-written member | corrected member |
|---|---|---|---|---|---|---|
| export.go:79 | `if i != len(batch)` is always true, so every record, the kind's last record included, is followed by ",\n" | a kind holding one record whose JSON is `{}` exports as `[{},\n]` | `i != len(batch)-1`: no separator after a page's last record, so the file is `[{}]`, a valid JSON array | not executed | Export.TrailingSeparator | Export.CorrectedJson |
| export.go:253-276 | the CSV writer never calls `Flush` on its `csv.Writer`, whose buffer holds 4096 bytes | a kind holding one record whose CSV text is under 4096 bytes leaves an empty file | `WriteFooter` flushes the writer, so the file holds every row | not executed | Writers.CsvFileIncomplete | Writers.CsvOutputFlushed |
| export.go:140-177 | `ToCSVHeader` and `ToCSVRecord` each walk the record with their own `range` over Go maps, and Go may pick a different order for each walk, so a data row's cells need not line up with the header | the record `{a: 1, b: 2}`: the header can be `a,b` while the row is `2,1` | the header and every row walk each map in one fixed order, such as sorted keys, so row column j holds the value named by header column j | not executed | Traversal.ColumnsMisaligned | Traversal.CsvColumnsAligned |
| main.go:52-53 | `copy(choices, metadatNS)` copies into a nil slice, so nothing is copied and the prompt offers only "all" | namespaces `["a", "b"]`: the prompt accepts only an empty line or "all" in some letter case, so typing `a` is refused and `a` alone can never be cleaned | the prompt offers every namespace and "all" | not executed | DeleteAll.OnlyAllOffered | DeleteAll.CorrectedChoice |
