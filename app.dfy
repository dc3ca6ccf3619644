/** The application shell: the state the page keeps, the conversion run that
    analyzes every uploaded file with the Python analyzer and then converts
    every analyzed file with the exam back end, the stage label shown while it
    runs, and the resets. The two runtimes are injected functions; an exception
    thrown by either is a `Failure`. */
module App {
  import opened Common
  import opened Text
  import ExamBackend
  import DocumentAnalyzer
  import DownloadSection
  import ConversionProgress

  /** `currentStep`: "upload", "converting" or "completed". */
  datatype Step = Upload | Converting | Completed

  /** A browser `File`: its name and contents. */
  datatype UploadedFile = UploadedFile(name: string, data: Bytes)

  /** The record `analyzeDocuments` pushes for each file. */
  datatype AnalyzedFile = AnalyzedFile(
    originalFile: UploadedFile, classifiedName: string, documentType: string, confidence: real)

  /** `analyze_and_classify` run through the Python runtime on a file's bytes
      and name; a `Failure` is an exception thrown out of `runPython`. */
  type Analyzer = (Bytes, string) -> Result<DocumentAnalyzer.AnalysisResult, string>

  /** `convert_document` of the WebAssembly module on the bytes, the document
      type, the exam and the classified name; its `Err` arrives as an
      exception. */
  type Converter = (Bytes, string, string, string) -> Result<ExamBackend.ConvertedDocument, string>

  type ConvertedFile = DownloadSection.ConvertedFile

  /** One pass of the `analyzeDocuments` loop. */
  function AnalyzeFile(analyze: Analyzer, file: UploadedFile): Result<AnalyzedFile, string>
  {
    match analyze(file.data, file.name)
    case Failure(e) => Failure(e)
    case Success(result) =>
      Success(AnalyzedFile(file, result.classifiedName, result.documentType, result.confidence))
  }

  function AnalyzeStep(analyze: Analyzer): UploadedFile -> Result<AnalyzedFile, string>
  {
    file => AnalyzeFile(analyze, file)
  }

  /** What `analyzeDocuments` yields: the records in file order, or the first
      exception. */
  function AnalyzeAll(files: seq<UploadedFile>, analyze: Analyzer): Result<seq<AnalyzedFile>, string>
  {
    MapOrAbort(files, AnalyzeStep(analyze))
  }

  /** `analyzeDocuments`: the loop over the files, pushing one record per file;
      an exception leaves the loop. */
  method AnalyzeDocuments(files: seq<UploadedFile>, analyze: Analyzer) returns (r: Result<seq<AnalyzedFile>, string>)
    ensures r == AnalyzeAll(files, analyze)
  {
    var analyzedFiles := [];
    for i := 0 to |files|
      invariant MapOrAbort(files[..i], AnalyzeStep(analyze)) == Success(analyzedFiles)
    {
      var file := files[i];
      var result := analyze(file.data, file.name);
      assert files[..i + 1][..i] == files[..i];
      if result.Failure? {
        MapOrAbortStops(files, i + 1, AnalyzeStep(analyze));
        return Failure(result.error);
      }
      analyzedFiles := analyzedFiles + [AnalyzedFile(file, result.value.classifiedName,
                                                      result.value.documentType, result.value.confidence)];
    }
    assert files[..|files|] == files;
    return Success(analyzedFiles);
  }

  /** The analysis succeeds exactly when the analyzer succeeds on every file;
      it then yields one record per file, in order, that keeps the file and
      copies the analyzer's name, type and confidence; otherwise it reports the
      first failing file's exception. */
  lemma AnalyzeAllSpec(files: seq<UploadedFile>, analyze: Analyzer)
    ensures AnalyzeAll(files, analyze).Success? <==>
              forall i :: 0 <= i < |files| ==> analyze(files[i].data, files[i].name).Success?
    ensures AnalyzeAll(files, analyze).Success? ==>
              var out := AnalyzeAll(files, analyze).value;
              && |out| == |files|
              && forall i :: 0 <= i < |files| ==>
                   var result := analyze(files[i].data, files[i].name).value;
                   out[i] == AnalyzedFile(files[i], result.classifiedName, result.documentType, result.confidence)
    ensures AnalyzeAll(files, analyze).Failure? ==>
              exists k :: 0 <= k < |files| && analyze(files[k].data, files[k].name).Failure? &&
                AnalyzeAll(files, analyze).error == analyze(files[k].data, files[k].name).error &&
                forall j :: 0 <= j < k ==> analyze(files[j].data, files[j].name).Success?
  {
    MapOrAbortSpec(files, AnalyzeStep(analyze));
  }

  /** Reading a text property of the object `convert_document` returns: its
      keys are the record's field names, `name`, `data`, `document_type` and
      `format`; any other key reads `undefined`. (`data` is the byte array.) */
  function TextProperty(doc: ExamBackend.ConvertedDocument, key: string): (v: JsValue)
    requires key != "data"
  {
    if key == "name" then JsString(doc.name)
    else if key == "document_type" then JsString(doc.documentType)
    else if key == "format" then JsString(doc.format)
    else Undefined
  }

  /** One pass of the `convertDocuments` loop: the pushed record's `type` is
      read from the result's `type` property, which the result does not have. */
  function ConvertFileAsWritten(convert: Converter, examType: string, file: AnalyzedFile): Result<ConvertedFile, string>
  {
    match convert(file.originalFile.data, file.documentType, examType, file.classifiedName)
    case Failure(e) => Failure(e)
    case Success(doc) =>
      Success(DownloadSection.ConvertedFile(doc.name, doc.data, TextProperty(doc, "type"), file.documentType))
  }

  /** One pass of the `convertDocuments` loop as evidently intended: the pushed
      record's `type` is the result's `format`. Only the lemmas about the
      intended behaviour use it. */
  function ConvertFile(convert: Converter, examType: string, file: AnalyzedFile): Result<ConvertedFile, string>
  {
    match convert(file.originalFile.data, file.documentType, examType, file.classifiedName)
    case Failure(e) => Failure(e)
    case Success(doc) =>
      Success(DownloadSection.ConvertedFile(doc.name, doc.data, TextProperty(doc, "format"), file.documentType))
  }

  function ConvertStep(convert: Converter, examType: string): AnalyzedFile -> Result<ConvertedFile, string>
  {
    file => ConvertFileAsWritten(convert, examType, file)
  }

  /** What `convertDocuments` yields: the records in order, or the first
      exception. */
  function ConvertAll(analyzedFiles: seq<AnalyzedFile>, examType: string, convert: Converter): Result<seq<ConvertedFile>, string>
  {
    MapOrAbort(analyzedFiles, ConvertStep(convert, examType))
  }

  /** `convertDocuments`: the loop over the analyzed files, converting each
      one's original bytes under its type and classified name; an exception
      leaves the loop. */
  method ConvertDocuments(analyzedFiles: seq<AnalyzedFile>, examType: string, convert: Converter)
    returns (r: Result<seq<ConvertedFile>, string>)
    ensures r == ConvertAll(analyzedFiles, examType, convert)
  {
    var convertedFiles := [];
    for i := 0 to |analyzedFiles|
      invariant MapOrAbort(analyzedFiles[..i], ConvertStep(convert, examType)) == Success(convertedFiles)
    {
      var fileData := analyzedFiles[i];
      var converted := convert(fileData.originalFile.data, fileData.documentType, examType, fileData.classifiedName);
      assert analyzedFiles[..i + 1][..i] == analyzedFiles[..i];
      if converted.Failure? {
        MapOrAbortStops(analyzedFiles, i + 1, ConvertStep(convert, examType));
        return Failure(converted.error);
      }
      var doc := converted.value;
      convertedFiles := convertedFiles + [DownloadSection.ConvertedFile(doc.name, doc.data, TextProperty(doc, "type"),
                                                                        fileData.documentType)];
    }
    assert analyzedFiles[..|analyzedFiles|] == analyzedFiles;
    return Success(convertedFiles);
  }

  /** The conversion succeeds exactly when the converter succeeds on every
      analyzed file; it then yields one record per file, in order, named and
      filled as the converter says, with an undefined type, and remembering the
      analyzed type; otherwise it reports the exception of the first failing
      file, before which every file converted. */
  lemma ConvertAllSpec(analyzedFiles: seq<AnalyzedFile>, examType: string, convert: Converter)
    ensures ConvertAll(analyzedFiles, examType, convert).Success? <==>
              forall i :: 0 <= i < |analyzedFiles| ==> ConvertFileAsWritten(convert, examType, analyzedFiles[i]).Success?
    ensures ConvertAll(analyzedFiles, examType, convert).Success? ==>
              var out := ConvertAll(analyzedFiles, examType, convert).value;
              && |out| == |analyzedFiles|
              && forall i :: 0 <= i < |analyzedFiles| ==>
                   var a := analyzedFiles[i];
                   var doc := convert(a.originalFile.data, a.documentType, examType, a.classifiedName).value;
                   out[i] == DownloadSection.ConvertedFile(doc.name, doc.data, Undefined, a.documentType)
    ensures ConvertAll(analyzedFiles, examType, convert).Failure? ==>
              exists k :: 0 <= k < |analyzedFiles| && ConvertFileAsWritten(convert, examType, analyzedFiles[k]).Failure? &&
                ConvertAll(analyzedFiles, examType, convert).error == ConvertFileAsWritten(convert, examType, analyzedFiles[k]).error &&
                forall j :: 0 <= j < k ==> ConvertFileAsWritten(convert, examType, analyzedFiles[j]).Success?
  {
    TypeIsNoField();
    MapOrAbortSpec(analyzedFiles, ConvertStep(convert, examType));
  }

  /** The result object has no `type` property. */
  lemma TypeIsNoField()
    ensures "type" != "name" && "type" != "document_type" && "type" != "format" && "type" != "data"
  {
    assert "type"[0] != "name"[0] && "type"[0] != "document_type"[0] && "type"[0] != "format"[0] && "type"[0] != "data"[0];
  }

  /** As written, the pushed record has no media type: the result object has
      no `type` property. The download screen then calls `getFileIcon` on it,
      which throws. */
  lemma AsWrittenIconThrows(convert: Converter, examType: string, file: AnalyzedFile)
    requires ConvertFileAsWritten(convert, examType, file).Success?
    ensures ConvertFileAsWritten(convert, examType, file).value.fileType == Undefined
    ensures DownloadSection.GetFileIcon(ConvertFileAsWritten(convert, examType, file).value.fileType).Failure?
  {
    TypeIsNoField();
  }

  /** So after a successful conversion the icon lookup throws on every record
      the download screen lists. */
  lemma AsWrittenRunHasNoIcons(analyzedFiles: seq<AnalyzedFile>, examType: string, convert: Converter)
    requires ConvertAll(analyzedFiles, examType, convert).Success?
    ensures forall i :: 0 <= i < |ConvertAll(analyzedFiles, examType, convert).value| ==>
              DownloadSection.GetFileIcon(ConvertAll(analyzedFiles, examType, convert).value[i].fileType).Failure?
  {
    ConvertAllSpec(analyzedFiles, examType, convert);
  }

  /** As intended, every converted file has a media type, so the icon is always
      defined; for the back end's "JPEG" it is the fallback icon. */
  lemma IntendedIconDefined(convert: Converter, examType: string, file: AnalyzedFile)
    requires ConvertFile(convert, examType, file).Success?
    ensures DownloadSection.GetFileIcon(ConvertFile(convert, examType, file).value.fileType).Success?
    ensures ConvertFile(convert, examType, file).value.fileType == JsString("JPEG") ==>
              DownloadSection.GetFileIcon(ConvertFile(convert, examType, file).value.fileType)
                == Success(DownloadSection.OtherIcon)
  {
    assert "format" != "name" && "format" != "document_type" by {
      assert "format"[0] != "name"[0] && "format"[0] != "document_type"[0];
    }
    DownloadSection.IconOfJpegFormat();
  }

  function IntendedStep(convert: Converter, examType: string): AnalyzedFile -> Result<ConvertedFile, string>
  {
    file => ConvertFile(convert, examType, file)
  }

  /** As intended, a successful conversion lists records that all have an
      icon, and the same records as written apart from their type. */
  lemma IntendedRunHasIcons(analyzedFiles: seq<AnalyzedFile>, examType: string, convert: Converter)
    requires MapOrAbort(analyzedFiles, IntendedStep(convert, examType)).Success?
    ensures ConvertAll(analyzedFiles, examType, convert).Success?
    ensures var intended := MapOrAbort(analyzedFiles, IntendedStep(convert, examType)).value;
            var written := ConvertAll(analyzedFiles, examType, convert).value;
            && |intended| == |written| == |analyzedFiles|
            && forall i :: 0 <= i < |intended| ==>
                 && DownloadSection.GetFileIcon(intended[i].fileType).Success?
                 && intended[i] == written[i].(fileType := intended[i].fileType)
  {
    MapOrAbortSpec(analyzedFiles, IntendedStep(convert, examType));
    ConvertAllSpec(analyzedFiles, examType, convert);
    forall i | 0 <= i < |analyzedFiles|
      ensures ConvertFile(convert, examType, analyzedFiles[i]).Success?
      ensures DownloadSection.GetFileIcon(ConvertFile(convert, examType, analyzedFiles[i]).value.fileType).Success?
    {
      assert IntendedStep(convert, examType)(analyzedFiles[i]).Success?;
      IntendedIconDefined(convert, examType, analyzedFiles[i]);
    }
  }

  /** The progress values a run writes. */
  const RunProgress: seq<int> := [0, 20, 60, 100]

  /** The page's state. */
  class AppState {
    var selectedExam: string
    var files: seq<UploadedFile>
    var isConverting: bool
    var conversionProgress: int
    var convertedFiles: seq<ConvertedFile>
    var currentStep: Step
    /** The progress values the last run wrote, in order. */
    ghost var progressWrites: seq<int>

    /** Between two handlers no run is in progress, the progress is one of the
        values a run writes, and the download screen is shown only at 100. */
    ghost predicate Valid()
      reads this
    {
      && !isConverting
      && conversionProgress in RunProgress
      && (currentStep == Completed ==> conversionProgress == 100)
    }

    /** The initial state: exam "upsc", no files, nothing converted, the upload
        screen, progress 0. */
    constructor()
      ensures Valid()
      ensures selectedExam == "upsc" && files == [] && !isConverting && conversionProgress == 0
      ensures convertedFiles == [] && currentStep == Upload && progressWrites == []
    {
      selectedExam := "upsc";
      files := [];
      isConverting := false;
      conversionProgress := 0;
      convertedFiles := [];
      currentStep := Upload;
      progressWrites := [];
    }

    /** `handleFilesSelected`: the new files replace the old ones and the upload
        screen is shown; nothing else changes. */
    method HandleFilesSelected(newFiles: seq<UploadedFile>)
      requires Valid()
      modifies this
      ensures Valid()
      ensures files == newFiles && currentStep == Upload
      ensures selectedExam == old(selectedExam) && isConverting == old(isConverting)
      ensures conversionProgress == old(conversionProgress) && convertedFiles == old(convertedFiles)
      ensures progressWrites == old(progressWrites)
    {
      files := newFiles;
      currentStep := Upload;
    }

    /** `onExamSelect`, which the exam selector calls with the chosen key. */
    method SelectExam(exam: string)
      requires Valid()
      modifies this
      ensures Valid()
      ensures selectedExam == exam
      ensures files == old(files) && isConverting == old(isConverting) && currentStep == old(currentStep)
      ensures conversionProgress == old(conversionProgress) && convertedFiles == old(convertedFiles)
      ensures progressWrites == old(progressWrites)
    {
      selectedExam := exam;
    }

    /** `onStartOver`: back to the upload screen with no files, nothing
        converted and progress 0; the exam stays selected. */
    method OnStartOver()
      requires Valid()
      modifies this
      ensures Valid()
      ensures currentStep == Upload && files == [] && convertedFiles == [] && conversionProgress == 0
      ensures selectedExam == old(selectedExam) && isConverting == old(isConverting)
      ensures progressWrites == old(progressWrites)
    {
      currentStep := Upload;
      files := [];
      convertedFiles := [];
      conversionProgress := 0;
    }

    /** `handleConvert`. With no files nothing changes. Otherwise the progress
        is written as 0, 20, 60, 100 for as far as the run gets; when both
        passes succeed the download screen shows the conversion's records; when
        either throws, the progress screen stays and the previous records are
        kept; no run is in progress afterwards either way. */
    method HandleConvert(analyze: Analyzer, convert: Converter)
      requires Valid()
      modifies this
      ensures Valid()
      ensures old(files) == [] ==> unchanged(this)
      ensures old(files) != [] ==> files == old(files) && selectedExam == old(selectedExam) && !isConverting
      ensures old(files) != [] && AnalyzeAll(old(files), analyze).Failure? ==>
                currentStep == Converting && conversionProgress == 20 &&
                convertedFiles == old(convertedFiles) && progressWrites == [0, 20]
      ensures old(files) != [] && AnalyzeAll(old(files), analyze).Success? &&
              ConvertAll(AnalyzeAll(old(files), analyze).value, old(selectedExam), convert).Failure? ==>
                currentStep == Converting && conversionProgress == 60 &&
                convertedFiles == old(convertedFiles) && progressWrites == [0, 20, 60]
      ensures old(files) != [] && AnalyzeAll(old(files), analyze).Success? &&
              ConvertAll(AnalyzeAll(old(files), analyze).value, old(selectedExam), convert).Success? ==>
                currentStep == Completed && conversionProgress == 100 && progressWrites == RunProgress &&
                convertedFiles == ConvertAll(AnalyzeAll(old(files), analyze).value, old(selectedExam), convert).value
      ensures old(files) != [] && currentStep == Completed ==>
                forall i :: 0 <= i < |convertedFiles| ==> DownloadSection.GetFileIcon(convertedFiles[i].fileType).Failure?
    {
      if |files| == 0 {
        return;
      }
      isConverting := true;
      currentStep := Converting;
      conversionProgress := 0;
      progressWrites := [0];

      conversionProgress := 20;
      progressWrites := [0, 20];
      var analyzedFiles := AnalyzeDocuments(files, analyze);
      if analyzedFiles.Failure? {
        isConverting := false;
        return;
      }

      conversionProgress := 60;
      progressWrites := [0, 20, 60];
      var converted := ConvertDocuments(analyzedFiles.value, selectedExam, convert);
      if converted.Failure? {
        isConverting := false;
        return;
      }

      AsWrittenRunHasNoIcons(analyzedFiles.value, selectedExam, convert);
      conversionProgress := 100;
      progressWrites := RunProgress;
      convertedFiles := converted.value;
      currentStep := Completed;
      isConverting := false;
    }
  }

  /** The texts the progress screen's heading shows, in order. */
  const StageLabels: seq<string> := ["Analyzing documents...", "Converting to exam format...", "Preparing downloads..."]

  /** The heading of the progress screen for a progress value. */
  function StageLabel(progress: int): string
  {
    if progress < 30 then "Analyzing documents..."
    else if progress < 80 then "Converting to exam format..."
    else "Preparing downloads..."
  }

  /** The three progress values a run writes while the progress screen shows
      get three different headings, in the order of `StageLabels`. */
  lemma StageLabelsOfRun()
    ensures StageLabel(20) == StageLabels[0] && StageLabel(60) == StageLabels[1] && StageLabel(100) == StageLabels[2]
    ensures StageLabel(20) != StageLabel(60) && StageLabel(60) != StageLabel(100) && StageLabel(20) != StageLabel(100)
  {
    assert StageLabels[0][0] == 'A' && StageLabels[1][0] == 'C' && StageLabels[2][0] == 'P';
  }

  /** The heading names the furthest active step of the progress screen
      exactly for progress below 30 or from 40 on: the heading switches at 30
      and 80, the steps at 0, 40 and 80. */
  lemma StageLabelMatchesActiveStep(progress: int)
    ensures StageLabel(progress) == StageLabels[if ConversionProgress.ActiveCount(progress) == 0 then 0
                                                else ConversionProgress.ActiveCount(progress) - 1]
            <==> progress < 30 || progress >= 40
  {
    assert StageLabels[0][0] == 'A' && StageLabels[1][0] == 'C' && StageLabels[2][0] == 'P';
  }

  /** The analyzer as the application runs it: the Python function, which
      never raises in the code shown. */
  function PythonAnalyzer(search: DocumentAnalyzer.Search): Analyzer
  {
    (data, name) => Success(DocumentAnalyzer.AnalyzeAndClassify(data, name, search, None))
  }

  /** The converter as the application runs it, on the day `date`. */
  function BackendConverter(lib: ExamBackend.ImageLibrary, date: string): Converter
  {
    (data, docType, examType, name) => ExamBackend.ConvertDocument(lib, data, docType, examType, name, date)
  }

  /** What the real analyzer yields for one file. */
  lemma PythonAnalyzerResult(search: DocumentAnalyzer.Search, data: Bytes, name: string)
    ensures PythonAnalyzer(search)(data, name).Success?
    ensures var r := PythonAnalyzer(search)(data, name).value;
            r.documentType == DocumentAnalyzer.UnknownDocument && r.confidence == 0.0 &&
            r.classifiedName == "UNKNOWN_DOCUMENT" + DocumentAnalyzer.SplitExt(name).1
  {
    DocumentAnalyzer.AnalyzeAndClassifySpec(data, name, search, None);
  }

  /** With the real analyzer, which extracts no text, every file is analyzed
      and every one is "unknown_document", named "UNKNOWN_DOCUMENT" plus its
      extension, with confidence 0.0. */
  lemma PipelineClassifiesAllUnknown(files: seq<UploadedFile>, search: DocumentAnalyzer.Search)
    ensures AnalyzeAll(files, PythonAnalyzer(search)).Success?
    ensures |AnalyzeAll(files, PythonAnalyzer(search)).value| == |files|
    ensures forall i :: 0 <= i < |files| ==>
              var a := AnalyzeAll(files, PythonAnalyzer(search)).value[i];
              && a.originalFile == files[i]
              && a.documentType == DocumentAnalyzer.UnknownDocument && a.confidence == 0.0
              && a.classifiedName == "UNKNOWN_DOCUMENT" + DocumentAnalyzer.SplitExt(files[i].name).1
  {
    var analyze := PythonAnalyzer(search);
    forall i | 0 <= i < |files|
      ensures analyze(files[i].data, files[i].name).Success?
      ensures var r := analyze(files[i].data, files[i].name).value;
              r.documentType == DocumentAnalyzer.UnknownDocument && r.confidence == 0.0 &&
              r.classifiedName == "UNKNOWN_DOCUMENT" + DocumentAnalyzer.SplitExt(files[i].name).1
    {
      PythonAnalyzerResult(search, files[i].data, files[i].name);
    }
    AnalyzeAllSpec(files, analyze);
  }

  /** "unknown_document" has no display name of its own. */
  lemma UnknownIsUnnamed()
    ensures DocumentAnalyzer.UnknownDocument !in ExamBackend.NamedTypes
  {
    assert ExamBackend.NamedTypes[2][0] != DocumentAnalyzer.UnknownDocument[0];
  }

  /** The real back end names a converted file by its type, exam, classified
      name and date. */
  lemma BackendName(lib: ExamBackend.ImageLibrary, date: string, examType: string, file: AnalyzedFile)
    requires ConvertFileAsWritten(BackendConverter(lib, date), examType, file).Success?
    ensures examType in ExamBackend.SupportedExams
    ensures ConvertFileAsWritten(BackendConverter(lib, date), examType, file).value.name
              == ExamBackend.GenerateFilename(file.documentType, ExamBackend.ExamFormatOf(examType).value, file.classifiedName, date)
  {
    var doc := ExamBackend.ConvertDocument(lib, file.originalFile.data, file.documentType, examType, file.classifiedName, date);
    assert BackendConverter(lib, date)(file.originalFile.data, file.documentType, examType, file.classifiedName) == doc;
  }

  /** For a supported exam the back end names an unknown document
      `<EXAM>_Document_<date>.jpg`, whatever it was called before. */
  lemma UnknownDocumentName(examType: string, original: string, date: string)
    requires examType in ExamBackend.SupportedExams
    ensures ExamBackend.GenerateFilename(DocumentAnalyzer.UnknownDocument, ExamBackend.ExamFormatOf(examType).value, original, date)
              == Upper(examType) + "_Document_" + date + ".jpg"
  {
    UnknownIsUnnamed();
    ExamBackend.UnlistedIsDocument(DocumentAnalyzer.UnknownDocument);
    ExamBackend.TableFilename(examType, DocumentAnalyzer.UnknownDocument, original, date);
    assert Upper(examType) + "_" + "Document" + "_" + date + ".jpg" == Upper(examType) + "_Document_" + date + ".jpg";
  }

  /** So every file the real back end converts for a supported exam after the
      real analyzer gets the same name, `<EXAM>_Document_<date>.jpg`. */
  lemma PipelineNamesCollide(analyzedFiles: seq<AnalyzedFile>, examType: string,
                             lib: ExamBackend.ImageLibrary, date: string)
    requires examType in ExamBackend.SupportedExams
    requires forall i :: 0 <= i < |analyzedFiles| ==> analyzedFiles[i].documentType == DocumentAnalyzer.UnknownDocument
    requires ConvertAll(analyzedFiles, examType, BackendConverter(lib, date)).Success?
    ensures |ConvertAll(analyzedFiles, examType, BackendConverter(lib, date)).value| == |analyzedFiles|
    ensures forall i :: 0 <= i < |analyzedFiles| ==>
              ConvertAll(analyzedFiles, examType, BackendConverter(lib, date)).value[i].name
                == Upper(examType) + "_Document_" + date + ".jpg"
  {
    var convert := BackendConverter(lib, date);
    MapOrAbortSpec(analyzedFiles, ConvertStep(convert, examType));
    forall i | 0 <= i < |analyzedFiles|
      ensures ConvertFileAsWritten(convert, examType, analyzedFiles[i]).Success?
      ensures ConvertFileAsWritten(convert, examType, analyzedFiles[i]).value.name == Upper(examType) + "_Document_" + date + ".jpg"
    {
      assert ConvertStep(convert, examType)(analyzedFiles[i]).Success?;
      BackendName(lib, date, examType, analyzedFiles[i]);
      UnknownDocumentName(examType, analyzedFiles[i].classifiedName, date);
    }
  }

  /** Hence the archive of such a batch holds a single entry, the last file's. */
  lemma PipelineArchiveHasOneEntry(converted: seq<ConvertedFile>, examType: string, date: string)
    requires converted != []
    requires forall i :: 0 <= i < |converted| ==> converted[i].name == Upper(examType) + "_Document_" + date + ".jpg"
    ensures |DownloadSection.ArchiveOf(DownloadSection.FolderName(examType), converted)| == 1
  {
    DownloadSection.ArchiveOfOneName(DownloadSection.FolderName(examType), converted,
                                     Upper(examType) + "_Document_" + date + ".jpg");
  }

  /** An exam outside the back end's table makes the first conversion throw
      "Unsupported exam type", so a non-empty batch aborts with that message. */
  lemma UnsupportedExamAborts(analyzedFiles: seq<AnalyzedFile>, examType: string,
                              lib: ExamBackend.ImageLibrary, date: string)
    requires analyzedFiles != [] && examType !in ExamBackend.SupportedExams
    ensures ConvertAll(analyzedFiles, examType, BackendConverter(lib, date)) == Failure(ExamBackend.UnsupportedExam)
  {
    ConvertAllSpec(analyzedFiles, examType, BackendConverter(lib, date));
  }
}
