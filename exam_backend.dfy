/** The conversion back end (rust-backend/src/lib.rs): the per-exam format table,
    the dispatch of a document to its converter by document type, the output
    file name, and the list of documents each exam requires.

    The pixel work belongs to an image library this model cannot see: it is an
    `ImageLibrary` value whose three operations are left abstract, and the
    properties of the converters that depend on it are stated under the laws
    `ResizeIsExact` and `EncodingKeepsSize`. The clock that dates the output
    name is the `date` parameter (the `YYYYMMDD` text of `Utc::now()`). */
module ExamBackend {
  import opened Common
  import opened Text

  /** `ExamFormat`: target pixel sizes, resolution, output encoding and the name
      template in which `{document_type}` is substituted. */
  datatype ExamFormat = ExamFormat(
    photoWidth: nat, photoHeight: nat,
    signatureWidth: nat, signatureHeight: nat,
    dpi: nat, format: string, namingConvention: string)

  /** `ConvertedDocument`, the record handed back to JavaScript. */
  datatype ConvertedDocument = ConvertedDocument(
    name: string, data: Bytes, documentType: string, format: string)

  /** A decoded raster: only its size is observable to the core. */
  datatype Image = Image(width: nat, height: nat, pixels: Bytes)

  /** The image library: `load_from_memory`, `resize_exact` (Lanczos3) and
      `write_to` as JPEG with a quality setting. Their errors are the library's
      messages. */
  datatype ImageLibrary = ImageLibrary(
    load: Bytes -> Result<Image, string>,
    resizeExact: (Image, nat, nat) -> Image,
    encodeJpeg: (Image, nat) -> Result<Bytes, string>)

  /** Law: `resize_exact(w, h)` yields an image of exactly w by h pixels. */
  ghost predicate ResizeIsExact(lib: ImageLibrary)
  {
    forall img, w, h :: lib.resizeExact(img, w, h).width == w && lib.resizeExact(img, w, h).height == h
  }

  /** Law: bytes the encoder produces decode again to an image of the size that
      was encoded. */
  ghost predicate EncodingKeepsSize(lib: ImageLibrary)
  {
    forall img, q :: lib.encodeJpeg(img, q).Success? ==> DecodedSize(lib, lib.encodeJpeg(img, q).value) == Some((img.width, img.height))
  }

  /** The pixel size the library finds in `data`, if it can decode it at all. */
  function DecodedSize(lib: ImageLibrary, data: Bytes): Option<(nat, nat)>
  {
    match lib.load(data)
    case Success(img) => Some((img.width, img.height))
    case Failure(_) => None
  }

  const UnsupportedExam := "Unsupported exam type"
  const LoadErrorPrefix := "Failed to load image: "
  const EncodeErrorPrefix := "Failed to encode image: "
  const DocumentTypeField := "{document_type}"

  /** Every exam key the back end serves (`get_supported_exams`). */
  const SupportedExams: seq<string> := ["neet", "jee", "upsc", "cat", "gate"]

  /** `get_supported_exams`: five distinct keys, exactly those with a format. */
  function GetSupportedExams(): (exams: seq<string>)
    ensures |exams| == 5
    ensures forall i, j :: 0 <= i < j < |exams| ==> exams[i] != exams[j]
    ensures forall e :: e in exams <==> ExamFormatOf(e).Some?
  {
    SupportedExams
  }

  /** The format table described by its design rather than entry by entry:
      every exam has dpi 100, JPEG output and the template
      `<UPPER-CASE KEY>_{document_type}`; UPSC takes a 400x500 photo and a
      400x200 signature, the other four a 350x450 photo and a 350x150 signature. */
  function ExamFormatOf(exam: string): Option<ExamFormat>
  {
    if exam !in SupportedExams then None
    else if exam == "upsc" then Some(ExamFormat(400, 500, 400, 200, 100, "JPEG", Upper(exam) + "_" + DocumentTypeField))
    else Some(ExamFormat(350, 450, 350, 150, 100, "JPEG", Upper(exam) + "_" + DocumentTypeField))
  }

  /** `get_exam_formats`: the table built by five successive inserts into an
      empty map, which agrees entry by entry with `ExamFormatOf`. */
  method GetExamFormats() returns (formats: map<string, ExamFormat>)
    ensures forall e :: e in formats <==> e in SupportedExams
    ensures forall e :: e in formats ==> ExamFormatOf(e) == Some(formats[e])
  {
    formats := map[];
    formats := formats["neet" := ExamFormat(350, 450, 350, 150, 100, "JPEG", "NEET_{document_type}")];
    formats := formats["jee" := ExamFormat(350, 450, 350, 150, 100, "JPEG", "JEE_{document_type}")];
    formats := formats["upsc" := ExamFormat(400, 500, 400, 200, 100, "JPEG", "UPSC_{document_type}")];
    formats := formats["cat" := ExamFormat(350, 450, 350, 150, 100, "JPEG", "CAT_{document_type}")];
    formats := formats["gate" := ExamFormat(350, 450, 350, 150, 100, "JPEG", "GATE_{document_type}")];
    ExamKeysDiffer();
    UpperKeys();
    TemplateLiterals();
    FormatRow("neet", "NEET", ExamFormat(350, 450, 350, 150, 100, "JPEG", "NEET_{document_type}"));
    FormatRow("jee", "JEE", ExamFormat(350, 450, 350, 150, 100, "JPEG", "JEE_{document_type}"));
    FormatRow("upsc", "UPSC", ExamFormat(400, 500, 400, 200, 100, "JPEG", "UPSC_{document_type}"));
    FormatRow("cat", "CAT", ExamFormat(350, 450, 350, 150, 100, "JPEG", "CAT_{document_type}"));
    FormatRow("gate", "GATE", ExamFormat(350, 450, 350, 150, 100, "JPEG", "GATE_{document_type}"));
  }

  /** The upper-cased keys. */
  lemma UpperKeys()
    ensures Upper("neet") == "NEET"
    ensures Upper("jee") == "JEE"
    ensures Upper("upsc") == "UPSC"
    ensures Upper("cat") == "CAT"
    ensures Upper("gate") == "GATE"
  {
  }

  /** The templates as the table spells them. */
  lemma TemplateLiterals()
    ensures "NEET" + "_" + DocumentTypeField == "NEET_{document_type}"
    ensures "JEE" + "_" + DocumentTypeField == "JEE_{document_type}"
    ensures "UPSC" + "_" + DocumentTypeField == "UPSC_{document_type}"
    ensures "CAT" + "_" + DocumentTypeField == "CAT_{document_type}"
    ensures "GATE" + "_" + DocumentTypeField == "GATE_{document_type}"
  {
  }

  /** One row of the table: the literal template is the upper-cased key, and the
      sizes are UPSC's or the common ones. */
  lemma FormatRow(exam: string, upper: string, row: ExamFormat)
    requires exam in SupportedExams && Upper(exam) == upper
    requires row.namingConvention == upper + "_" + DocumentTypeField
    requires row.dpi == 100 && row.format == "JPEG"
    requires exam == "upsc" ==> (row.photoWidth, row.photoHeight, row.signatureWidth, row.signatureHeight) == (400, 500, 400, 200)
    requires exam != "upsc" ==> (row.photoWidth, row.photoHeight, row.signatureWidth, row.signatureHeight) == (350, 450, 350, 150)
    ensures ExamFormatOf(exam) == Some(row)
  {
  }

  /** The five keys begin with five different letters. */
  lemma ExamKeysDiffer()
    ensures "neet" != "jee"
    ensures "neet" != "upsc"
    ensures "neet" != "cat"
    ensures "neet" != "gate"
    ensures "jee" != "upsc"
    ensures "jee" != "cat"
    ensures "jee" != "gate"
    ensures "upsc" != "cat"
    ensures "upsc" != "gate"
    ensures "cat" != "gate"
  {
    assert "neet"[0] != "jee"[0];
    assert "neet"[0] != "upsc"[0];
    assert "neet"[0] != "cat"[0];
    assert "neet"[0] != "gate"[0];
    assert "jee"[0] != "upsc"[0];
    assert "jee"[0] != "cat"[0];
    assert "jee"[0] != "gate"[0];
    assert "upsc"[0] != "cat"[0];
    assert "upsc"[0] != "gate"[0];
    assert "cat"[0] != "gate"[0];
  }

  /** Decode, resize to exactly `width` by `height`, encode as JPEG at quality
      90: the shared body of `convert_photo`, `convert_signature` and
      `convert_thumb_impression`. */
  function ResizeToJpeg(lib: ImageLibrary, data: Bytes, width: nat, height: nat): (r: Result<Bytes, string>)
    ensures lib.load(data).Failure? ==> r == Failure(LoadErrorPrefix + lib.load(data).error)
    ensures r.Failure? ==> HasPrefix(r.error, LoadErrorPrefix) || HasPrefix(r.error, EncodeErrorPrefix)
    ensures r.Success? && ResizeIsExact(lib) && EncodingKeepsSize(lib) ==> DecodedSize(lib, r.value) == Some((width, height))
  {
    match lib.load(data)
    case Failure(e) => Failure(LoadErrorPrefix + e)
    case Success(img) =>
      match lib.encodeJpeg(lib.resizeExact(img, width, height), 90)
      case Failure(e) => Failure(EncodeErrorPrefix + e)
      case Success(out) => Success(out)
  }

  /** `convert_photo`: the exam's photo size. */
  function ConvertPhoto(lib: ImageLibrary, data: Bytes, format: ExamFormat): (r: Result<Bytes, string>)
    ensures r.Success? && ResizeIsExact(lib) && EncodingKeepsSize(lib) ==>
              DecodedSize(lib, r.value) == Some((format.photoWidth, format.photoHeight))
    ensures lib.load(data).Failure? ==> r == Failure(LoadErrorPrefix + lib.load(data).error)
  {
    ResizeToJpeg(lib, data, format.photoWidth, format.photoHeight)
  }

  /** `convert_signature`: the exam's signature size. */
  function ConvertSignature(lib: ImageLibrary, data: Bytes, format: ExamFormat): (r: Result<Bytes, string>)
    ensures r.Success? && ResizeIsExact(lib) && EncodingKeepsSize(lib) ==>
              DecodedSize(lib, r.value) == Some((format.signatureWidth, format.signatureHeight))
    ensures lib.load(data).Failure? ==> r == Failure(LoadErrorPrefix + lib.load(data).error)
  {
    ResizeToJpeg(lib, data, format.signatureWidth, format.signatureHeight)
  }

  /** `convert_thumb_impression`: a square whose side is the signature height. */
  function ConvertThumbImpression(lib: ImageLibrary, data: Bytes, format: ExamFormat): (r: Result<Bytes, string>)
    ensures r.Success? && ResizeIsExact(lib) && EncodingKeepsSize(lib) ==>
              DecodedSize(lib, r.value) == Some((format.signatureHeight, format.signatureHeight))
    ensures lib.load(data).Failure? ==> r == Failure(LoadErrorPrefix + lib.load(data).error)
  {
    var size := format.signatureHeight;
    ResizeToJpeg(lib, data, size, size)
  }

  /** `convert_document_generic`: data the library decodes is re-encoded as
      JPEG at quality 95 without resizing; anything else is passed through. */
  function ConvertGeneric(lib: ImageLibrary, data: Bytes, format: ExamFormat, docType: string): (r: Result<Bytes, string>)
    ensures lib.load(data).Failure? ==> r == Success(data)
    ensures r.Failure? ==> HasPrefix(r.error, EncodeErrorPrefix)
    ensures r.Success? && lib.load(data).Success? && EncodingKeepsSize(lib) ==>
              DecodedSize(lib, r.value) == DecodedSize(lib, data)
  {
    match lib.load(data)
    case Success(img) =>
      (match lib.encodeJpeg(img, 95)
       case Failure(e) => Failure(EncodeErrorPrefix + e)
       case Success(out) => Success(out))
    case Failure(_) => Success(data)
  }

  /** The `match document_type` of `convert_document`. */
  function ConvertBytes(lib: ImageLibrary, data: Bytes, docType: string, format: ExamFormat): Result<Bytes, string>
  {
    if docType == "passport_photo" then ConvertPhoto(lib, data, format)
    else if docType == "signature" then ConvertSignature(lib, data, format)
    else if docType == "thumb_impression" then ConvertThumbImpression(lib, data, format)
    else ConvertGeneric(lib, data, format, docType)
  }

  /** `generate_filename`'s table of display names; every other type is
      "Document". */
  function DisplayName(docType: string): string
  {
    if docType == "passport_photo" then "Photo"
    else if docType == "signature" then "Signature"
    else if docType == "thumb_impression" then "Thumb_Impression"
    else if docType == "aadhar_card" then "Aadhar_Card"
    else if docType == "10th_marksheet" then "10th_Marksheet"
    else if docType == "12th_marksheet" then "12th_Marksheet"
    else if docType == "graduation_certificate" then "Graduation_Certificate"
    else if docType == "community_certificate" then "Community_Certificate"
    else if docType == "income_certificate" then "Income_Certificate"
    else if docType == "pwd_certificate" then "PwD_Certificate"
    else "Document"
  }

  /** The ten document types that have a display name of their own. */
  const NamedTypes: seq<string> := [
    "passport_photo", "signature", "thumb_impression", "aadhar_card",
    "10th_marksheet", "12th_marksheet", "graduation_certificate",
    "community_certificate", "income_certificate", "pwd_certificate"]

  /** `generate_filename`: the template with `{document_type}` replaced by the
      display name, then `_`, the date, `.`, and `jpg` for JPEG output or `pdf`
      otherwise. `original` is accepted and not used. */
  function GenerateFilename(docType: string, format: ExamFormat, original: string, date: string): (r: string)
    ensures HasSuffix(r, ".jpg") <==> format.format == "JPEG"
    ensures HasSuffix(r, ".pdf") <==> format.format != "JPEG"
  {
    var extension := if format.format == "JPEG" then "jpg" else "pdf";
    var docName := DisplayName(docType);
    var stem := ReplaceAll(format.namingConvention, DocumentTypeField, docName) + "_" + date;
    var r := stem + "." + extension;
    assert r[|r| - 4..] == "." + extension;
    assert ".pdf" != ".jpg" by { assert ".pdf"[1] != ".jpg"[1]; }
    r
  }

  /** `convert_document`: unknown exams are refused; otherwise the type picks the
      converter and the record carries the generated name, the input type and
      the exam's format. */
  function ConvertDocument(lib: ImageLibrary, fileData: Bytes, docType: string, examType: string,
                           filename: string, date: string): (r: Result<ConvertedDocument, string>)
    ensures r == Failure(UnsupportedExam) <==> examType !in SupportedExams
    ensures r.Success? ==>
              && examType in SupportedExams
              && r.value.documentType == docType
              && r.value.format == ExamFormatOf(examType).value.format
              && r.value.name == GenerateFilename(docType, ExamFormatOf(examType).value, filename, date)
              && ConvertBytes(lib, fileData, docType, ExamFormatOf(examType).value) == Success(r.value.data)
    ensures examType in SupportedExams ==>
              (r.Success? <==> ConvertBytes(lib, fileData, docType, ExamFormatOf(examType).value).Success?)
  {
    match ExamFormatOf(examType)
    case None => Failure(UnsupportedExam)
    case Some(format) =>
      match ConvertBytes(lib, fileData, docType, format)
      case Failure(e) =>
        assert HasPrefix(e, LoadErrorPrefix) || HasPrefix(e, EncodeErrorPrefix);
        assert e != UnsupportedExam by {
          assert e[0] == 'F' && UnsupportedExam[0] == 'U';
        }
        Failure(e)
      case Success(converted) =>
        Success(ConvertedDocument(GenerateFilename(docType, format, filename, date), converted, docType, format.format))
  }

  /** `get_exam_requirements`: the document types each exam asks for. */
  function ExamRequirements(examType: string): Result<seq<string>, string>
  {
    if examType == "neet" then
      Success(["passport_photo", "signature", "thumb_impression",
               "10th_marksheet", "12th_marksheet", "aadhar_card",
               "community_certificate"])
    else if examType == "jee" then
      Success(["passport_photo", "signature", "thumb_impression",
               "10th_marksheet", "12th_marksheet", "aadhar_card",
               "community_certificate", "pwd_certificate"])
    else if examType == "upsc" then
      Success(["passport_photo", "signature", "thumb_impression",
               "10th_marksheet", "12th_marksheet", "graduation_certificate",
               "aadhar_card", "community_certificate", "pwd_certificate"])
    else if examType == "cat" then
      Success(["passport_photo", "signature", "10th_marksheet",
               "12th_marksheet", "graduation_certificate", "aadhar_card",
               "community_certificate", "pwd_certificate"])
    else if examType == "gate" then
      Success(["passport_photo", "signature", "10th_marksheet",
               "12th_marksheet", "graduation_certificate", "aadhar_card",
               "community_certificate", "pwd_certificate"])
    else Failure(UnsupportedExam)
  }

  /** The size of what `convert_document` returns, by document type: a photo
      has the exam's photo size, a signature its signature size, a thumb
      impression a square of the signature height; any other type is never
      resized, and bytes the library cannot decode come back unchanged. */
  lemma ConvertedDocumentSize(lib: ImageLibrary, fileData: Bytes, docType: string, examType: string,
                              filename: string, date: string)
    requires ResizeIsExact(lib) && EncodingKeepsSize(lib)
    requires ConvertDocument(lib, fileData, docType, examType, filename, date).Success?
    ensures var format := ExamFormatOf(examType).value;
            var out := ConvertDocument(lib, fileData, docType, examType, filename, date).value.data;
            && (docType == "passport_photo" ==> DecodedSize(lib, out) == Some((format.photoWidth, format.photoHeight)))
            && (docType == "signature" ==> DecodedSize(lib, out) == Some((format.signatureWidth, format.signatureHeight)))
            && (docType == "thumb_impression" ==> DecodedSize(lib, out) == Some((format.signatureHeight, format.signatureHeight)))
            && (docType !in ["passport_photo", "signature", "thumb_impression"] ==>
                  if lib.load(fileData).Failure? then out == fileData else DecodedSize(lib, out) == DecodedSize(lib, fileData))
  {
  }

  /** For every exam of the table the name is
      `<UPPER-CASE KEY>_<display name>_<date>.jpg`. */
  lemma {:induction false} TableFilename(examType: string, docType: string, original: string, date: string)
    requires examType in SupportedExams
    ensures GenerateFilename(docType, ExamFormatOf(examType).value, original, date)
            == Upper(examType) + "_" + DisplayName(docType) + "_" + date + ".jpg"
  {
    var prefix := Upper(examType) + "_";
    assert '{' !in examType;
    UpperKeepsOtherChars(examType, '{');
    assert '{' !in prefix;
    assert ExamFormatOf(examType).value.namingConvention == prefix + DocumentTypeField;
    ReplaceAfterPlainPrefix(prefix, DocumentTypeField, DisplayName(docType));
  }

  /** The name does not depend on the original file name. */
  lemma FilenameIgnoresOriginal(docType: string, format: ExamFormat, original1: string, original2: string, date: string)
    ensures GenerateFilename(docType, format, original1, date) == GenerateFilename(docType, format, original2, date)
  {
  }

  /** Two document types without a display name of their own are both named
      "Document", so for one exam and one date they get the same file name. */
  lemma UnlistedTypesShareAName(docType1: string, docType2: string, format: ExamFormat,
                                original1: string, original2: string, date: string)
    requires docType1 !in NamedTypes && docType2 !in NamedTypes
    ensures GenerateFilename(docType1, format, original1, date) == GenerateFilename(docType2, format, original2, date)
  {
    UnlistedIsDocument(docType1);
    UnlistedIsDocument(docType2);
  }

  lemma UnlistedIsDocument(docType: string)
    requires docType !in NamedTypes
    ensures DisplayName(docType) == "Document"
  {
  }

  /** The display names of the ten named types, in the same order. */
  const DisplayNames: seq<string> := [
    "Photo", "Signature", "Thumb_Impression", "Aadhar_Card",
    "10th_Marksheet", "12th_Marksheet", "Graduation_Certificate",
    "Community_Certificate", "Income_Certificate", "PwD_Certificate"]

  lemma DisplayNameAt(i: nat)
    requires i < |NamedTypes|
    ensures DisplayName(NamedTypes[i]) == DisplayNames[i]
  {
  }

  /** The ten display names are pairwise different (only two share a length). */
  lemma DisplayNamesDistinct()
    ensures forall i, j :: 0 <= i < j < |DisplayNames| ==> DisplayNames[i] != DisplayNames[j]
  {
    assert DisplayNames[4][1] != DisplayNames[5][1];
  }

  /** Different named types have different display names. */
  lemma DisplayNameInjective(docType1: string, docType2: string)
    requires docType1 in NamedTypes && docType2 in NamedTypes
    requires DisplayName(docType1) == DisplayName(docType2)
    ensures docType1 == docType2
  {
    var i :| 0 <= i < |NamedTypes| && NamedTypes[i] == docType1;
    var j :| 0 <= j < |NamedTypes| && NamedTypes[j] == docType2;
    DisplayNameAt(i);
    DisplayNameAt(j);
    DisplayNamesDistinct();
  }

  /** `get_exam_requirements` refuses exactly the exams outside the table, with
      the same message as `convert_document`; every list starts with the photo
      and the signature, lists no type twice, and names only types that have a
      display name of their own. */
  lemma RequirementsShape(examType: string)
    ensures ExamRequirements(examType).Success? <==> examType in GetSupportedExams()
    ensures ExamRequirements(examType).Success? <==> ExamFormatOf(examType).Some?
    ensures ExamRequirements(examType).Failure? ==> ExamRequirements(examType).error == UnsupportedExam
    ensures ExamRequirements(examType).Success? ==>
              var docs := ExamRequirements(examType).value;
              && |docs| >= 2 && docs[0] == "passport_photo" && docs[1] == "signature"
              && (forall i, j :: 0 <= i < j < |docs| ==> docs[i] != docs[j])
              && (forall d :: d in docs ==> d in NamedTypes)
  {
    ExamKeysDiffer();
  }

  /** Within one exam, two different named document types never get the same
      file name, whatever the original names. */
  lemma NamedTypesGetDistinctNames(examType: string, docType1: string, docType2: string,
                                   original1: string, original2: string, date: string)
    requires examType in SupportedExams
    requires docType1 in NamedTypes && docType2 in NamedTypes && docType1 != docType2
    ensures GenerateFilename(docType1, ExamFormatOf(examType).value, original1, date)
            != GenerateFilename(docType2, ExamFormatOf(examType).value, original2, date)
  {
    TableFilename(examType, docType1, original1, date);
    TableFilename(examType, docType2, original2, date);
    DisplayNamesDiffer(docType1, docType2);
    FrameKeepsDifference(Upper(examType) + "_", DisplayName(docType1), DisplayName(docType2), date);
  }

  lemma DisplayNamesDiffer(docType1: string, docType2: string)
    requires docType1 in NamedTypes && docType2 in NamedTypes && docType1 != docType2
    ensures DisplayName(docType1) != DisplayName(docType2)
  {
    if DisplayName(docType1) == DisplayName(docType2) {
      DisplayNameInjective(docType1, docType2);
    }
  }

  /** Names built around two different display names differ. */
  lemma FrameKeepsDifference(prefix: string, name1: string, name2: string, date: string)
    requires name1 != name2
    ensures prefix + name1 + "_" + date + ".jpg" != prefix + name2 + "_" + date + ".jpg"
  {
    var s1 := prefix + name1 + "_" + date + ".jpg";
    var s2 := prefix + name2 + "_" + date + ".jpg";
    if |name1| == |name2| {
      var k :| 0 <= k < |name1| && name1[k] != name2[k];
      assert s1[|prefix| + k] == name1[k];
      assert s2[|prefix| + k] == name2[k];
    }
  }

  /** Every type an exam requires has a display name of its own. */
  lemma RequiredAreNamed(examType: string, docType: string)
    requires ExamRequirements(examType).Success? && docType in ExamRequirements(examType).value
    ensures examType in SupportedExams && docType in NamedTypes
  {
    RequirementsShape(examType);
  }

  /** So two different documents required by one exam never share a file name. */
  lemma RequiredDocumentsGetDistinctNames(examType: string, docType1: string, docType2: string,
                                          original1: string, original2: string, date: string)
    requires ExamRequirements(examType).Success?
    requires docType1 in ExamRequirements(examType).value && docType2 in ExamRequirements(examType).value
    requires docType1 != docType2
    ensures GenerateFilename(docType1, ExamFormatOf(examType).value, original1, date)
            != GenerateFilename(docType2, ExamFormatOf(examType).value, original2, date)
  {
    RequiredAreNamed(examType, docType1);
    RequiredAreNamed(examType, docType2);
    NamedTypesGetDistinctNames(examType, docType1, docType2, original1, original2, date);
  }
}
