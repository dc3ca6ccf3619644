# Exam document converter: a Dafny model

This project models the conversion pipeline of a browser application that prepares identity and academic documents for the online forms of five competitive exams (NEET, JEE, UPSC, CAT, GATE). The pipeline has three parts:

- **Rust back end** (`rust-backend/src/lib.rs`, module `ExamBackend`). It holds the per-exam format table and dispatches each document to a converter by its type. It also builds the output file name and lists the documents each exam requires.
- **Python analyzer** (`python-wasm/document_analyzer.py`, module `DocumentAnalyzer`). It holds the keyword table of seventeen document types. It scores each type as the fraction of its patterns that match and keeps the first strictly best type. It also builds the classified file name and processes a batch.
- **React shell** (`src/App.jsx`, module `App`). A class `AppState` holds the page's state. `HandleConvert` moves that state through progress 0, 20, 60, 100 and the screens upload, converting, completed. Two loops, `AnalyzeDocuments` and `ConvertDocuments`, analyze every file and then convert every analyzed file. An exception in either loop aborts the whole batch.
  - The progress screen is modelled in `src/components/ConversionProgress.jsx` (module `ConversionProgress`). It has three steps with thresholds 0, 40 and 80.
  - The download screen is modelled in `src/components/DownloadSection.jsx` (module `DownloadSection`). It builds the archive as a map from path to bytes, handles single downloads, and picks a file's icon.

Two shared modules hold the general pieces:

- `Common` has bytes, `Option`, `Result`, a JavaScript value that may be `undefined`, and an ordered map that stops at the first failure.
- `Text` has ASCII case mapping, substring search, last index and replace-all.

Things outside these files are parameters of the model:

- **Image library.** An `ImageLibrary` value has three abstract operations: decode (may fail), exact resize, and JPEG encode (may fail). Properties that depend on pixel sizes are stated under two laws. `ResizeIsExact` says the resize gives the requested size. `EncodingKeepsSize` says encoded bytes decode back to the encoded size.
- **Clock.** `Utc::now()` formatted as `%Y%m%d` is the `date` parameter.
- **Regex search.** Python's `pattern.search` is the `search` parameter.
- **Exceptions.** An exception raised inside `analyze_and_classify` is the `raised` parameter.
- **Runtimes.** The Python runtime and the WebAssembly module appear to the shell as injected functions (`Analyzer`, `Converter`). An exception thrown by either is a `Failure`.
- **Real instances.** `PythonAnalyzer` and `BackendConverter` plug the real analyzer and back end into the shell. The end-to-end lemmas use them.

These end-to-end lemmas show what the app does as written:

- The text extraction is a stub that returns no text. So every file is classified `unknown_document` with confidence 0.0 and named `UNKNOWN_DOCUMENT` plus its extension.
- For every supported exam, the back end then names every file `<EXAM>_Document_<date>.jpg`.
- So the archive of any non-empty batch holds exactly one entry.
- Every converted record's `type` is `undefined`, so the download screen's icon lookup throws on each of them (see Findings).
- An exam outside the table aborts the batch with "Unsupported exam type".

The code aborts the whole batch at the first exception (`src/App.jsx:42-44`). It settles ties in the classifier by keeping the first strictly best entry, and it applies no confidence threshold.

## Model

| member | source | states |
|---|---|---|
| ExamBackend.GetSupportedExams | rust-backend/src/lib.rs:232-236 | five pairwise different exam keys, and a key is listed exactly when the format table has an entry for it |
| ExamBackend.GetExamFormats | rust-backend/src/lib.rs:37-96 | the five inserts give a table whose keys are exactly the supported exams; each entry matches the design-level description `ExamFormatOf`: dpi 100, JPEG, template `<UPPER-CASE KEY>_{document_type}`, UPSC 400x500 photo and 400x200 signature, the others 350x450 and 350x150 |
| ExamBackend.ResizeToJpeg | rust-backend/src/lib.rs:132-147 | a decode failure becomes "Failed to load image: " plus the library's message; every error carries the load or the encode prefix; under the two laws the output decodes to exactly the requested size |
| ExamBackend.ConvertPhoto | rust-backend/src/lib.rs:128-148 | under the laws the output has the exam's photo width and height; undecodable input fails with the load error |
| ExamBackend.ConvertSignature | rust-backend/src/lib.rs:150-169 | under the laws the output has the exam's signature width and height; undecodable input fails with the load error |
| ExamBackend.ConvertThumbImpression | rust-backend/src/lib.rs:171-187 | under the laws the output is a square whose side is the exam's signature height |
| ExamBackend.ConvertGeneric | rust-backend/src/lib.rs:189-206 | bytes the library cannot decode come back unchanged; an error can only be an encode error; a decodable image is re-encoded at its own size |
| ExamBackend.GenerateFilename | rust-backend/src/lib.rs:208-230 | the name ends in ".jpg" exactly when the format is "JPEG", and in ".pdf" exactly when it is not |
| ExamBackend.ConvertBytes | rust-backend/src/lib.rs:111-116 | no contract of its own; see ConvertDocument and ConvertedDocumentSize |
| ExamBackend.DisplayName | rust-backend/src/lib.rs:211-223 | no contract of its own; see DisplayNameAt, UnlistedIsDocument and DisplayNameInjective |
| ExamBackend.ExamRequirements | rust-backend/src/lib.rs:239-270 | no contract of its own; see RequirementsShape |
| ExamBackend.ConvertDocument | rust-backend/src/lib.rs:98-126 | fails with "Unsupported exam type" exactly when the exam is not one of the five; on success the record's type is the input type, its format is the exam's format, its name is the generated name and its data is what the converter chosen by the type produced; for a supported exam it succeeds exactly when that converter does |
| ExamBackend.ConvertedDocumentSize | rust-backend/src/lib.rs:111-116 | by type: a photo gets the exam's photo size, a signature its signature size, a thumb impression a square of the signature height; every other type is never resized, and undecodable bytes pass through unchanged |
| ExamBackend.TableFilename | rust-backend/src/lib.rs:208-230 | for every exam of the table the name is `<UPPER-CASE KEY>_<display name>_<date>.jpg` |
| ExamBackend.FilenameIgnoresOriginal | rust-backend/src/lib.rs:208-229 | the name does not depend on the original file name |
| ExamBackend.UnlistedIsDocument | rust-backend/src/lib.rs:211-223 | a type outside the ten listed has the display name "Document" |
| ExamBackend.UnlistedTypesShareAName | rust-backend/src/lib.rs:211-229 | two unlisted types get the same file name for one exam and date |
| ExamBackend.DisplayNameAt | rust-backend/src/lib.rs:211-223 | the i-th listed type has the i-th display name |
| ExamBackend.DisplayNamesDistinct | rust-backend/src/lib.rs:212-221 | the ten display names are pairwise different |
| ExamBackend.DisplayNameInjective | rust-backend/src/lib.rs:211-223 | two listed types with the same display name are the same type |
| ExamBackend.NamedTypesGetDistinctNames | rust-backend/src/lib.rs:208-230 | within one exam and date, two different listed types never get the same file name |
| ExamBackend.RequirementsShape | rust-backend/src/lib.rs:238-270 | fails exactly for the exams outside the supported list and the format table, with "Unsupported exam type"; every list begins with the photo and the signature, has no duplicates and names only listed types |
| ExamBackend.RequiredAreNamed | rust-backend/src/lib.rs:238-270 | a type an exam requires belongs to a supported exam and has a display name of its own |
| ExamBackend.RequiredDocumentsGetDistinctNames | rust-backend/src/lib.rs:238-270 | two different documents required by one exam never share a file name |
| DocumentAnalyzer.KeywordTableFacts | python-wasm/document_analyzer.py:7-93 | the table has seventeen entries, each with between two and five patterns, none called "unknown_document" |
| DocumentAnalyzer.CountMatches | python-wasm/document_analyzer.py:122 | the count is at most the number of patterns; it is zero exactly when none matches and full exactly when all match |
| DocumentAnalyzer.Score | python-wasm/document_analyzer.py:122-123 | the score lies in [0, 1]; it is 0 exactly when no pattern matches and 1 exactly when all do |
| DocumentAnalyzer.ClassifyIn | python-wasm/document_analyzer.py:112-129 | the reference classification without a loop; no contract of its own; see ClassifyInSpec |
| DocumentAnalyzer.Classify | python-wasm/document_analyzer.py:112-129 | the reference classification over the keyword table; no contract of its own; see ClassifyUnknownIff and ClassifyEmpty |
| DocumentAnalyzer.ClassifyDocument | python-wasm/document_analyzer.py:112-129 | the loop keeping the first strictly best score returns the reference classification `ClassifyIn` |
| DocumentAnalyzer.ArgmaxIsFirstBest | python-wasm/document_analyzer.py:121-127 | a non-negative value that bounds all scores and is reached at an index before which all scores are smaller is the maximum, and that index is the first one holding it |
| DocumentAnalyzer.ClassifyInSpec | python-wasm/document_analyzer.py:112-129 | the confidence lies in [0, 1] and bounds every score; a positive confidence is the returned type's score and every earlier type scores less; confidence 0.0 exactly when the text is empty or nothing matches, and then the type is unknown |
| DocumentAnalyzer.ClassifyUnknownIff | python-wasm/document_analyzer.py:112-129 | over the keyword table the result is ("unknown_document", 0.0) exactly when the text is empty or no pattern matches it; otherwise the type is one of the table's |
| DocumentAnalyzer.ClassifyEmpty | python-wasm/document_analyzer.py:114-115 | empty text is ("unknown_document", 0.0) |
| DocumentAnalyzer.SplitExt | python-wasm/document_analyzer.py:136 | stem and extension concatenate to the input; the extension is empty or starts with '.', and holds no further '.' or '/' |
| DocumentAnalyzer.SplitAtLastDot | python-wasm/document_analyzer.py:136 | a plain name with a stem that is not all dots splits at its last '.', keeping the extension's case |
| DocumentAnalyzer.NoDotNoExtension | python-wasm/document_analyzer.py:136 | a name with no '.' has no extension |
| DocumentAnalyzer.HiddenFileNoExtension | python-wasm/document_analyzer.py:136 | a leading '.' does not start an extension |
| DocumentAnalyzer.GenerateFilename | python-wasm/document_analyzer.py:131-141 | the name is the upper-cased type followed by the original's extension; replacing '_' by '_' changes nothing |
| DocumentAnalyzer.FilenameKeepsOnlyExtension | python-wasm/document_analyzer.py:131-141 | two originals with the same extension give the same name |
| DocumentAnalyzer.ExtractTextFromImage | python-wasm/document_analyzer.py:95-110 | no text, whatever the image |
| DocumentAnalyzer.Truncate | python-wasm/document_analyzer.py:159 | a prefix of the text of at most 200 characters, the whole text when it is no longer |
| DocumentAnalyzer.AnalyzeAndClassify | python-wasm/document_analyzer.py:143-170 | no contract of its own; see AnalyzeAndClassifySpec |
| DocumentAnalyzer.AnalyzeAndClassifySpec | python-wasm/document_analyzer.py:143-170 | always unknown with confidence 0.0; without an exception the name is "UNKNOWN_DOCUMENT" plus the extension, the text is empty and there is no error; with one the original name is kept and the message is carried; the text is at most 200 characters |
| DocumentAnalyzer.ProcessDocumentBatch | python-wasm/document_analyzer.py:173-184 | one result per input, in input order, each the analysis of that input |
| ConversionProgress.StepsShape | src/components/ConversionProgress.jsx:4-8 | three steps with thresholds 0, 40, 80, strictly increasing |
| ConversionProgress.StepStatuses | src/components/ConversionProgress.jsx:34-36 | one status per step with its name; completed implies active; the active and the completed steps each form a prefix; the first step is active from 0 on; at progress 100 or below the last step is never completed |
| ConversionProgress.StatusesGrowWithProgress | src/components/ConversionProgress.jsx:34-36 | as progress grows, no step stops being active or completed |
| ConversionProgress.ActiveCount | src/components/ConversionProgress.jsx:35 | a step is active exactly when its position is below the count |
| ConversionProgress.StatusesAtWrittenValues | src/components/ConversionProgress.jsx:34-36 | at the progress values a run writes, the expected steps are active and completed |
| DownloadSection.Zip.constructor | src/components/DownloadSection.jsx:7 | a new archive is empty |
| DownloadSection.Zip.File | src/components/DownloadSection.jsx:14 | adding a file sets its path to its data and leaves every other path alone |
| DownloadSection.DownloadAll | src/components/DownloadSection.jsx:6-20 | the archive is named `<EXAM>_Converted_Documents.zip` and holds, in list order, every file at `<EXAM>_Documents/<name>` |
| DownloadSection.ArchivePaths | src/components/DownloadSection.jsx:13-15 | a path is in the archive exactly when it is the folder path of some file's name |
| DownloadSection.ArchiveLastWriterWins | src/components/DownloadSection.jsx:13-15 | a file's path holds its data when no later file has the same name |
| DownloadSection.ArchiveSize | src/components/DownloadSection.jsx:13-15 | at most one entry per file, and exactly one per file when names are pairwise different |
| DownloadSection.ArchiveOfOneName | src/components/DownloadSection.jsx:13-15 | files that all share a name leave one entry holding the last file's data |
| DownloadSection.DownloadSingle | src/components/DownloadSection.jsx:22-25 | no contract of its own; see SingleMatchesArchive |
| DownloadSection.SingleMatchesArchive | src/components/DownloadSection.jsx:22-25 | with distinct names, a single download saves under the file's name the data the archive holds for it |
| DownloadSection.GetFileIcon | src/components/DownloadSection.jsx:27-32 | fails, with a TypeError, exactly for an undefined type; otherwise one of the four icons |
| DownloadSection.IconPrecedence | src/components/DownloadSection.jsx:27-32 | "pdf" wins over the rest; the image icon exactly for "image" without "pdf"; the fallback exactly when none of the three words occurs |
| DownloadSection.IconOfJpegFormat | src/components/DownloadSection.jsx:27-32 | the back end's format "JPEG" gets the fallback icon |
| App.AnalyzeFile | src/App.jsx:58-81 | no contract of its own; see AnalyzeAllSpec |
| App.AnalyzeDocuments | src/App.jsx:50-85 | the loop returns the reference `AnalyzeAll`: the records in order, or the first exception |
| App.AnalyzeAllSpec | src/App.jsx:57-84 | success exactly when every file is analyzed; then one record per file in order, keeping the file and copying name, type and confidence; otherwise the error of the first failing file, before which all succeeded |
| App.ConvertFileAsWritten | src/App.jsx:94-111 | one pass of the loop as written; no contract of its own; see ConvertAllSpec and AsWrittenIconThrows |
| App.ConvertDocuments | src/App.jsx:87-115 | the loop returns the reference `ConvertAll`: the records in order, or the first exception |
| App.ConvertAllSpec | src/App.jsx:92-114 | success exactly when every file converts; then one record per analyzed file in order, with the converter's name and data, an undefined type and the analyzed type as original type; otherwise the error of the first failing file, before which every file converted |
| App.AsWrittenIconThrows | src/App.jsx:106-111 | as written, a converted record has an undefined `type`, so its icon lookup throws |
| App.AsWrittenRunHasNoIcons | src/App.jsx:106-111 | after a successful conversion the icon lookup throws on every record |
| App.ConvertFile | src/App.jsx:94-111 | one pass of the loop as evidently intended, with the format as the type; no contract of its own; see IntendedIconDefined |
| App.IntendedIconDefined | src/App.jsx:106-111 | with the format as the type, every converted file has an icon, and "JPEG" gets the fallback |
| App.IntendedRunHasIcons | src/App.jsx:92-114 | as intended, a successful conversion lists the same records apart from their type, and every one has an icon |
| App.AppState.constructor | src/App.jsx:9-14 | exam "upsc", no files, not converting, progress 0, nothing converted, upload screen |
| App.AppState.HandleFilesSelected | src/App.jsx:16-19 | the new files replace the old ones and the upload screen shows; nothing else changes |
| App.AppState.SelectExam | src/App.jsx:137 | only the selected exam changes |
| App.AppState.OnStartOver | src/App.jsx:178-183 | upload screen, no files, nothing converted, progress 0; the exam stays |
| App.AppState.HandleConvert | src/App.jsx:21-48 | no files: nothing changes; otherwise progress is written 0, 20, 60, 100 as far as the run gets; success shows the download screen with the conversion's records, on every one of which the icon lookup throws; an exception leaves the progress screen and the previous records; not converting afterwards either way |
| App.StageLabel | src/App.jsx:168-170 | no contract of its own; see StageLabelsOfRun and StageLabelMatchesActiveStep |
| App.StageLabelsOfRun | src/App.jsx:168-170 | progress 20, 60 and 100 get the three headings in order, all different |
| App.StageLabelMatchesActiveStep | src/App.jsx:168-170 | the heading names the furthest active step exactly for progress below 30 or from 40 on |
| App.PythonAnalyzerResult | src/App.jsx:67-76 | the real analyzer always succeeds with the unknown type, confidence 0.0 and "UNKNOWN_DOCUMENT" plus the extension |
| App.PipelineClassifiesAllUnknown | src/App.jsx:50-85 | with the real analyzer every file is analyzed, in order, as an unknown document named "UNKNOWN_DOCUMENT" plus its extension |
| App.UnknownIsUnnamed | rust-backend/src/lib.rs:211-223 | "unknown_document" has no display name of its own |
| App.BackendName | src/App.jsx:98-103 | a file the real back end converts belongs to a supported exam and carries the generated name for its type |
| App.UnknownDocumentName | rust-backend/src/lib.rs:208-230 | an unknown document of a supported exam is named `<EXAM>_Document_<date>.jpg` |
| App.PipelineNamesCollide | src/App.jsx:87-115 | after the real analyzer, every file the real back end converts for a supported exam gets the same name |
| App.PipelineArchiveHasOneEntry | src/components/DownloadSection.jsx:13-15 | such a batch gives an archive with a single entry |
| App.UnsupportedExamAborts | src/App.jsx:87-115 | a non-empty batch for an exam outside the table aborts with "Unsupported exam type" |

## Left out

- Pixel operations: decoding, Lanczos3 resizing and JPEG encoding at quality 90 or 95 belong to the `image` crate. They are abstract functions of an `ImageLibrary`, with the two laws as hypotheses.
- The `u32` sizes of the format table are `nat`; every value in the table fits in 32 bits.
- The clock: the date text is a parameter.
- `console_log`, the `wasm_bindgen` glue, `serde_wasm_bindgen` serialisation and the module's `main` only log or marshal values.
- Loading Pyodide from a CDN, `loadPackage`, `runPython`, the dynamic import of the WebAssembly module and `arrayBuffer` are runtime plumbing. The analyzer and converter are injected functions, and a file's bytes are its `data`.
- App.AnalyzeFile: the conversion of the Python dictionary to a JavaScript object is not modelled. The analyzer is taken to deliver the dictionary's three fields as the properties the loop reads.
- The regex engine: each pattern is kept as its source text and case flag, and matching is the abstract `search`.
- Text.Lower and Text.Upper: only ASCII letters change case. Python's `str.lower()`/`upper()` and JavaScript's `toUpperCase()` also map other Unicode letters.
- The base64 encoding inside `extract_text_from_image` has no effect on its result, and its `except` branch returns the same empty text.
- `analyze_and_classify`'s `except` branch: none of the visible code raises, so which inputs raise is the `raised` parameter (`raises` in the batch).
- DocumentAnalyzer.Score: `matches / len(patterns)` would raise `ZeroDivisionError` for an entry with no patterns. No entry of the table is empty, so `WellFormedTable` excludes that case.
- DocumentAnalyzer.ClassifyDocument: the keyword table, a module-level dictionary, is passed in as a parameter. `Classify` applies the reference definition to `DocumentKeywords`.
- JSZip's `generateAsync`, `saveAs` and `Blob` are library calls. The archive is a map from path to bytes. That `folder.file` overwrites a repeated path is an assumption about JSZip, whose code is not part of this model. The folder's own directory entry is not modelled.
- DownloadSection.GetFileIcon: the error is a single fixed TypeError message rather than the browser's wording.
- The JSX markup, styling, `alert` and `console.error`, and `src/components/ExamSelector.jsx`, a static catalogue of exams. The `onExamSelect` callback is modelled as `SelectExam`.
- The async/await structure: both loops run sequentially, and React's batching of state updates is not modelled. `HandleConvert` applies each update at once.
- App.AppState.HandleConvert: the `ghost` field `progressWrites` records the progress values written during the last run; the page itself keeps only the last value.
- Per-file failure records, confidence thresholds, cropping, size caps with retries and cancellation do not occur in the code and are not modelled.

## Findings

| source | as written | input that shows it | evidently intended | confidence | as-written member | corrected member |
|---|---|---|---|---|---|---|
| src/App.jsx:109 | `convertDocuments` records `type: converted.type`, but the back end's record (rust-backend/src/lib.rs:18-23) has the fields `name`, `data`, `document_type` and `format` and no `type`, so every record's type is `undefined`; the download screen calls `getFileIcon(file.type)` (src/components/DownloadSection.jsx:71), and `undefined.includes` throws | any batch that converts successfully, e.g. one photo for "upsc" | the record's media type taken from the result, `converted.format` | not executed | App.AsWrittenIconThrows and App.AsWrittenRunHasNoIcons (on App.ConvertFileAsWritten, which App.ConvertDocuments and App.AppState.HandleConvert use) | App.IntendedIconDefined and App.IntendedRunHasIcons (on App.ConvertFile) |

The application model keeps line 109 as written, so `ConvertDocuments` and `HandleConvert` describe what the program does. The intended pass, `ConvertFile`, is stated beside it, and `IntendedRunHasIcons` relates the two.
