/** The Python document analyzer: a keyword classifier that scores every known
    document type by the share of its patterns found in the extracted text,
    the file-name rule built on the detected type, and the batch driver. */
module DocumentAnalyzer {
  import opened Common
  import opened Text

  /** A compiled regular expression: its source and whether it was compiled
      with the ignore-case flag. */
  datatype Pattern = Pattern(source: string, ignoreCase: bool)

  /** One item of the keyword table: a document type and its patterns. */
  datatype KeywordEntry = KeywordEntry(docType: string, patterns: seq<Pattern>)

  /** `pattern.search(text)` found a match; the regular-expression engine is not
      part of this model. */
  type Search = (Pattern, string) -> bool

  const UnknownDocument: string := "unknown_document"

  /** The keyword table, in the dictionary's insertion (and so iteration) order. */
  const DocumentKeywords: seq<KeywordEntry> := [
    KeywordEntry("aadhar_card", [
      Pattern("uidai", true),
      Pattern("aadhar", true),
      Pattern("unique identification", true),
      Pattern("\\b\\d{4}\\s?\\d{4}\\s?\\d{4}\\b", false)]),
    KeywordEntry("community_certificate", [
      Pattern("community", true),
      Pattern("caste", true),
      Pattern("scheduled caste", true),
      Pattern("scheduled tribe", true),
      Pattern("MBC|BC|OC|FC|SC|ST", true)]),
    KeywordEntry("income_certificate", [
      Pattern("income certificate", true),
      Pattern("annual income", true)]),
    KeywordEntry("nativity_certificate", [
      Pattern("nativity certificate", true),
      Pattern("native of", true)]),
    KeywordEntry("obc_certificate", [
      Pattern("obc", true),
      Pattern("other backward class", true)]),
    KeywordEntry("pwd_certificate", [
      Pattern("disability certificate", true),
      Pattern("benchmark disability", true),
      Pattern("pwbd", true)]),
    KeywordEntry("driving_license", [
      Pattern("driving license", true),
      Pattern("dl no", true),
      Pattern("licence", true)]),
    KeywordEntry("voter_id", [
      Pattern("election commission", true),
      Pattern("voter id", true),
      Pattern("epic", true)]),
    KeywordEntry("passport", [
      Pattern("passport", true),
      Pattern("republic of india", true)]),
    KeywordEntry("10th_marksheet", [
      Pattern("10th", true),
      Pattern("ssc", true),
      Pattern("secondary school", true),
      Pattern("matriculation", true)]),
    KeywordEntry("11th_marksheet", [
      Pattern("11th", true),
      Pattern("higher secondary", true),
      Pattern("plus one", true)]),
    KeywordEntry("12th_marksheet", [
      Pattern("12th", true),
      Pattern("higher secondary course", true),
      Pattern("plus two", true),
      Pattern("hr sec", true)]),
    KeywordEntry("graduation_certificate", [
      Pattern("bachelor", true),
      Pattern("degree", true),
      Pattern("graduation", true),
      Pattern("university", true)]),
    KeywordEntry("birth_certificate", [
      Pattern("birth certificate", true),
      Pattern("date of birth", true),
      Pattern("place of birth", true)]),
    KeywordEntry("passport_photo", [
      Pattern("passport.*photo", true),
      Pattern("photo.*passport", true)]),
    KeywordEntry("signature", [
      Pattern("signature", true),
      Pattern("signed by", true)]),
    KeywordEntry("thumb_impression", [
      Pattern("thumb impression", true),
      Pattern("fingerprint", true),
      Pattern("thumb print", true)])
  ]

  /** Every entry has at least one pattern, so its score is a well-defined
      fraction. */
  predicate WellFormedTable(table: seq<KeywordEntry>)
  {
    forall i :: 0 <= i < |table| ==> |table[i].patterns| > 0
  }

  /** No pattern of any entry matches `text`. */
  predicate NoPatternMatches(table: seq<KeywordEntry>, text: string, search: Search)
  {
    forall i, k :: 0 <= i < |table| && 0 <= k < |table[i].patterns| ==> !search(table[i].patterns[k], text)
  }

  /** The table has seventeen entries, each with between two and five patterns,
      and none of them is called "unknown_document". */
  lemma KeywordTableFacts()
    ensures |DocumentKeywords| == 17
    ensures WellFormedTable(DocumentKeywords)
    ensures forall i :: 0 <= i < |DocumentKeywords| ==> 2 <= |DocumentKeywords[i].patterns| <= 5
    ensures forall i :: 0 <= i < |DocumentKeywords| ==> DocumentKeywords[i].docType != UnknownDocument
  {
    assert |UnknownDocument| == 16;
    assert DocumentKeywords[16].docType[0] != UnknownDocument[0];
  }

  /** `sum(1 for pattern in patterns if pattern.search(text))`: how many of the
      patterns match; none exactly when the count is zero, all exactly when it
      is the number of patterns. */
  function CountMatches(patterns: seq<Pattern>, text: string, search: Search): (r: nat)
    ensures r <= |patterns|
    ensures r == 0 <==> forall k :: 0 <= k < |patterns| ==> !search(patterns[k], text)
    ensures r == |patterns| <==> forall k :: 0 <= k < |patterns| ==> search(patterns[k], text)
    decreases |patterns|
  {
    if patterns == [] then 0
    else
      var init := patterns[..|patterns| - 1];
      assert forall k :: 0 <= k < |init| ==> init[k] == patterns[k];
      CountMatches(init, text, search) + (if search(patterns[|patterns| - 1], text) then 1 else 0)
  }

  /** `matches / len(patterns)`: a fraction in [0, 1] that is 0 exactly when no
      pattern matches and 1 exactly when all do. */
  function Score(entry: KeywordEntry, text: string, search: Search): (r: real)
    requires |entry.patterns| > 0
    ensures 0.0 <= r <= 1.0
    ensures r == 0.0 <==> forall k :: 0 <= k < |entry.patterns| ==> !search(entry.patterns[k], text)
    ensures r == 1.0 <==> forall k :: 0 <= k < |entry.patterns| ==> search(entry.patterns[k], text)
  {
    var m := CountMatches(entry.patterns, text, search);
    FractionBounds(m, |entry.patterns|);
    m as real / |entry.patterns| as real
  }

  /** A count out of a positive total is a fraction in [0, 1], 0 exactly for a
      zero count and 1 exactly for the full count. */
  lemma FractionBounds(m: nat, n: nat)
    requires 0 < n && m <= n
    ensures 0.0 <= m as real / n as real <= 1.0
    ensures m as real / n as real == 0.0 <==> m == 0
    ensures m as real / n as real == 1.0 <==> m == n
  {
    var r := m as real / n as real;
    assert r * n as real == m as real;
    if r == 1.0 {
      assert m as real == n as real;
    }
  }

  /** The score of every entry of the table, in table order. */
  function Scores(table: seq<KeywordEntry>, text: string, search: Search): (r: seq<real>)
    requires WellFormedTable(table)
    ensures |r| == |table|
    ensures forall i :: 0 <= i < |table| ==> r[i] == Score(table[i], text, search)
  {
    seq(|table|, i requires 0 <= i < |table| => Score(table[i], text, search))
  }

  /** The largest of the scores and 0.0: at least every score, and either 0.0
      or one of the scores. */
  function MaxScore(s: seq<real>): (r: real)
    ensures r >= 0.0
    ensures forall i :: 0 <= i < |s| ==> s[i] <= r
    ensures r == 0.0 || r in s
    decreases |s|
  {
    if s == [] then 0.0
    else
      var init := s[..|s| - 1];
      assert forall i :: 0 <= i < |init| ==> init[i] == s[i];
      var m := MaxScore(init);
      if s[|s| - 1] > m then s[|s| - 1] else m
  }

  /** The first position holding `m`. */
  function FirstIndexOf(s: seq<real>, m: real): (r: nat)
    requires m in s
    ensures r < |s| && s[r] == m
    ensures forall j :: 0 <= j < r ==> s[j] != m
    decreases |s|
  {
    if s[0] == m then 0 else 1 + FirstIndexOf(s[1..], m)
  }

  /** What `classify_document` computes, stated without its loop: empty text is
      unknown; otherwise the confidence is the best score (at least 0.0), and
      the type is the first entry reaching it, or unknown when it is 0.0. */
  function ClassifyIn(table: seq<KeywordEntry>, text: string, search: Search): (string, real)
    requires WellFormedTable(table)
  {
    if text == [] then (UnknownDocument, 0.0)
    else
      var scores := Scores(table, Lower(text), search);
      var m := MaxScore(scores);
      if m == 0.0 then (UnknownDocument, 0.0)
      else (table[FirstIndexOf(scores, m)].docType, m)
  }

  /** `classify_document` over the keyword table. */
  function Classify(text: string, search: Search): (string, real)
  {
    KeywordTableFacts();
    ClassifyIn(DocumentKeywords, text, search)
  }

  /** `classify_document`: the loop over the keyword table keeping the first
      strictly best score. The table, a module-level dictionary in Python, is
      passed in; `DocumentKeywords` is the one the analyzer uses. */
  method ClassifyDocument(keywords: seq<KeywordEntry>, text: string, search: Search) returns (bestMatch: string, bestConfidence: real)
    requires WellFormedTable(keywords)
    ensures (bestMatch, bestConfidence) == ClassifyIn(keywords, text, search)
  {
    if text == [] {
      return UnknownDocument, 0.0;
    }
    var textLower := Lower(text);
    bestMatch := UnknownDocument;
    bestConfidence := 0.0;
    ghost var scores := Scores(keywords, textLower, search);
    ghost var bestIndex := 0;
    var i := 0;
    while i < |keywords|
      invariant 0 <= i <= |keywords|
      invariant bestConfidence >= 0.0
      invariant forall j :: 0 <= j < i ==> scores[j] <= bestConfidence
      invariant bestConfidence == 0.0 ==> bestMatch == UnknownDocument
      invariant bestConfidence > 0.0 ==>
                  0 <= bestIndex < i && scores[bestIndex] == bestConfidence &&
                  bestMatch == keywords[bestIndex].docType &&
                  forall j :: 0 <= j < bestIndex ==> scores[j] < bestConfidence
    {
      var entry := keywords[i];
      var matches := CountMatches(entry.patterns, textLower, search);
      var confidence := matches as real / |entry.patterns| as real;
      assert confidence == scores[i];
      if confidence > bestConfidence {
        bestConfidence := confidence;
        bestMatch := entry.docType;
        bestIndex := i;
      }
      i := i + 1;
    }
    ArgmaxIsFirstBest(scores, bestConfidence, bestIndex);
  }

  /** A value that bounds every score, is at least 0.0 and is 0.0 or a score is
      the maximum; with a position reaching it before which every score is
      smaller, that position is the first one holding it. */
  lemma ArgmaxIsFirstBest(scores: seq<real>, best: real, index: nat)
    requires best >= 0.0 && forall j :: 0 <= j < |scores| ==> scores[j] <= best
    requires best > 0.0 ==> index < |scores| && scores[index] == best &&
                            forall j :: 0 <= j < index ==> scores[j] < best
    ensures best == MaxScore(scores)
    ensures best > 0.0 ==> FirstIndexOf(scores, best) == index
  {
    var m := MaxScore(scores);
    if m != 0.0 {
      var k :| 0 <= k < |scores| && scores[k] == m;
      assert m <= best;
    }
    if best > 0.0 {
      assert best <= m;
    }
  }

  /** What the classification promises, for any table whose entries all have
      patterns: the confidence lies in [0, 1] and bounds every score; a positive
      confidence is the score of the returned type, and every earlier type
      scores strictly less (the first of equal bests wins); the confidence is
      0.0 exactly when the text is empty or nothing matches, and then the type
      is unknown. */
  lemma ClassifyInSpec(table: seq<KeywordEntry>, text: string, search: Search)
    requires WellFormedTable(table)
    ensures var (docType, confidence) := ClassifyIn(table, text, search);
            && 0.0 <= confidence <= 1.0
            && (text != [] ==> forall i :: 0 <= i < |table| ==> Score(table[i], Lower(text), search) <= confidence)
            && (confidence > 0.0 ==>
                  exists i :: 0 <= i < |table| && docType == table[i].docType &&
                    Score(table[i], Lower(text), search) == confidence &&
                    forall j :: 0 <= j < i ==> Score(table[j], Lower(text), search) < confidence)
            && (confidence == 0.0 <==> text == [] || NoPatternMatches(table, Lower(text), search))
            && (confidence == 0.0 ==> docType == UnknownDocument)
  {
    if text != [] {
      var scores := Scores(table, Lower(text), search);
      var m := MaxScore(scores);
      if m != 0.0 {
        var i := FirstIndexOf(scores, m);
        assert Score(table[i], Lower(text), search) == m;
        assert !NoPatternMatches(table, Lower(text), search);
      } else {
        forall i, k | 0 <= i < |table| && 0 <= k < |table[i].patterns|
          ensures !search(table[i].patterns[k], Lower(text))
        {
          assert scores[i] <= 0.0;
        }
      }
    }
  }

  /** Over the keyword table: the result is ("unknown_document", 0.0) exactly
      when the text is empty or no pattern matches its lower-case form, and
      otherwise the type is one of the table's. */
  lemma ClassifyUnknownIff(text: string, search: Search)
    ensures Classify(text, search) == (UnknownDocument, 0.0) <==>
              text == [] || NoPatternMatches(DocumentKeywords, Lower(text), search)
    ensures Classify(text, search).1 != 0.0 ==>
              exists i :: 0 <= i < |DocumentKeywords| && Classify(text, search).0 == DocumentKeywords[i].docType
  {
    KeywordTableFacts();
    ClassifyInSpec(DocumentKeywords, text, search);
  }

  /** Empty text is unknown with confidence 0.0. */
  lemma ClassifyEmpty(search: Search)
    ensures Classify([], search) == (UnknownDocument, 0.0)
  {
  }

  /** Every character of `p` from `lo` up to, not including, `hi` is a '.'. */
  predicate DotsBetween(p: string, lo: int, hi: int)
  {
    forall i :: lo <= i < hi && 0 <= i < |p| ==> p[i] == '.'
  }

  /** `os.path.splitext` on a POSIX path: the extension starts at the last '.'
      of the last path component, unless every character before it in that
      component is a '.' too (so ".bashrc" has none). */
  function SplitExt(p: string): (r: (string, string))
    ensures r.0 + r.1 == p
    ensures r.1 == [] || r.1[0] == '.'
    ensures forall k :: 0 < k < |r.1| ==> r.1[k] != '.' && r.1[k] != '/'
  {
    var sepIndex := RFind(p, '/');
    var dotIndex := RFind(p, '.');
    if dotIndex > sepIndex && !DotsBetween(p, sepIndex + 1, dotIndex) then
      (p[..dotIndex], p[dotIndex..])
    else (p, [])
  }

  /** A name without a directory part whose stem is not made of dots only
      splits at its last '.', keeping the extension's case. */
  lemma SplitAtLastDot(stem: string, ext: string)
    requires !DotsBetween(stem, 0, |stem|) && '/' !in stem && '/' !in ext && '.' !in ext
    ensures SplitExt(stem + "." + ext) == (stem, "." + ext)
  {
    var p := stem + "." + ext;
    assert forall k :: 0 <= k < |stem| ==> p[k] == stem[k];
    assert forall k :: |stem| < k < |p| ==> p[k] == ext[k - |stem| - 1];
    assert p[|stem|] == '.';
    assert RFind(p, '/') == -1;
    assert RFind(p, '.') == |stem|;
    assert !DotsBetween(p, 0, |stem|);
    assert p[..|stem|] == stem;
    assert p[|stem|..] == "." + ext;
  }

  /** A name without a '.' has no extension. */
  lemma NoDotNoExtension(p: string)
    requires '.' !in p
    ensures SplitExt(p) == (p, [])
  {
    assert RFind(p, '.') == -1;
  }

  /** A hidden file's leading '.' does not start an extension. */
  lemma HiddenFileNoExtension(rest: string)
    requires '.' !in rest && '/' !in rest
    ensures SplitExt("." + rest) == ("." + rest, [])
  {
    var p := "." + rest;
    assert forall k :: 0 < k < |p| ==> p[k] == rest[k - 1];
    assert p[0] == '.';
    assert RFind(p, '/') == -1;
    assert RFind(p, '.') == 0;
  }

  /** `generate_filename`: the upper-cased type (replacing '_' by '_' leaves it
      as it is) followed by the original's extension, whose case is kept; the
      rest of the original name is dropped. */
  function GenerateFilename(docType: string, originalName: string): (r: string)
    ensures r == Upper(docType) + SplitExt(originalName).1
  {
    var ext := SplitExt(originalName).1;
    ReplaceCharByItself(docType, '_');
    Upper(ReplaceAll(docType, "_", "_")) + ext
  }

  /** Two originals with the same extension give the same name. */
  lemma FilenameKeepsOnlyExtension(docType: string, original1: string, original2: string)
    requires SplitExt(original1).1 == SplitExt(original2).1
    ensures GenerateFilename(docType, original1) == GenerateFilename(docType, original2)
  {
  }

  /** `extract_text_from_image`, the stand-in for OCR: no text, whatever the
      image. */
  function ExtractTextFromImage(imageData: Bytes): (r: string)
    ensures |r| == 0
  {
    []
  }

  /** The dictionary `analyze_and_classify` returns. `extractedText` is absent
      from the error form and `error` from the normal one. */
  datatype AnalysisResult = AnalysisResult(
    classifiedName: string,
    documentType: string,
    confidence: real,
    extractedText: Option<string>,
    error: Option<string>,
    originalFilename: string)

  const MaxDebugText: nat := 200

  /** `text[:200]` */
  function Truncate(text: string): (r: string)
    ensures |r| <= MaxDebugText
    ensures r <= text
    ensures |text| <= MaxDebugText ==> r == text
  {
    if |text| < MaxDebugText then text else text[..MaxDebugText]
  }

  lemma UpperUnknown()
    ensures Upper(UnknownDocument) == "UNKNOWN_DOCUMENT"
  {
  }

  /** `analyze_and_classify`. `raised` is the message of an exception raised
      inside the `try` block, if one was; none of the visible code raises. */
  function AnalyzeAndClassify(fileData: Bytes, filename: string, search: Search, raised: Option<string>): AnalysisResult
  {
    match raised
    case Some(message) =>
      AnalysisResult(filename, UnknownDocument, 0.0, None, Some(message), filename)
    case None =>
      var extractedText := ExtractTextFromImage(fileData);
      var (docType, confidence) := Classify(extractedText, search);
      AnalysisResult(GenerateFilename(docType, filename), docType, confidence,
                     Some(Truncate(extractedText)), None, filename)
  }

  /** Because the text extraction yields nothing, the result is always the
      unknown type with confidence 0.0; with no exception it is named
      "UNKNOWN_DOCUMENT" plus the original extension and carries an empty
      text, and with one it keeps the original name and carries the message. */
  lemma AnalyzeAndClassifySpec(fileData: Bytes, filename: string, search: Search, raised: Option<string>)
    ensures var r := AnalyzeAndClassify(fileData, filename, search, raised);
            && r.documentType == UnknownDocument && r.confidence == 0.0
            && r.originalFilename == filename
            && (raised.None? ==>
                  r.classifiedName == "UNKNOWN_DOCUMENT" + SplitExt(filename).1 &&
                  r.extractedText == Some([]) && r.error.None?)
            && (raised.Some? ==>
                  r.classifiedName == filename && r.error == raised && r.extractedText.None?)
            && (r.extractedText.Some? ==> |r.extractedText.value| <= MaxDebugText)
  {
    UpperUnknown();
  }

  /** One item of the batch: the `data` and `filename` keys. */
  datatype FileInfo = FileInfo(data: Bytes, filename: string)

  /** `process_document_batch`: one result per input, in input order. `raises`
      says which inputs make the analysis raise, and with what message. */
  method ProcessDocumentBatch(filesData: seq<FileInfo>, search: Search, raises: FileInfo -> Option<string>)
    returns (results: seq<AnalysisResult>)
    ensures |results| == |filesData|
    ensures forall i :: 0 <= i < |filesData| ==>
              results[i] == AnalyzeAndClassify(filesData[i].data, filesData[i].filename, search, raises(filesData[i]))
  {
    results := [];
    for i := 0 to |filesData|
      invariant |results| == i
      invariant forall j :: 0 <= j < i ==>
                  results[j] == AnalyzeAndClassify(filesData[j].data, filesData[j].filename, search, raises(filesData[j]))
    {
      var fileInfo := filesData[i];
      var result := AnalyzeAndClassify(fileInfo.data, fileInfo.filename, search, raises(fileInfo));
      results := results + [result];
    }
  }
}
