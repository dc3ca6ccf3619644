/** The download screen: the archive of every converted file under one folder
    named after the exam, the single-file download, and the icon shown for a
    file's media type. */
module DownloadSection {
  import opened Common
  import opened Text

  /** One item of `convertedFiles` as the application builds it. `fileType` is
      whatever its `type` property reads. */
  datatype ConvertedFile = ConvertedFile(name: string, data: Bytes, fileType: JsValue, originalType: string)

  /** The folder inside the archive: the upper-cased exam key and "_Documents". */
  function FolderName(examType: string): string
  {
    Upper(examType) + "_Documents"
  }

  /** The name the archive is saved under. */
  function ArchiveName(examType: string): string
  {
    Upper(examType) + "_Converted_Documents.zip"
  }

  /** Where `folder.file(name, ...)` puts a file. */
  function EntryPath(folder: string, name: string): string
  {
    folder + "/" + name
  }

  /** A JSZip archive under construction: a map from path to contents, where
      adding a file at a path already present replaces its contents. */
  class Zip {
    var entries: map<string, Bytes>

    constructor()
      ensures entries == map[]
    {
      entries := map[];
    }

    method File(path: string, data: Bytes)
      modifies this
      ensures entries == old(entries)[path := data]
    {
      entries := entries[path := data];
    }
  }

  /** The archive after adding `files` in order under `folder`. */
  function ArchiveOf(folder: string, files: seq<ConvertedFile>): map<string, Bytes>
    decreases |files|
  {
    if files == [] then map[]
    else ArchiveOf(folder, files[..|files| - 1])[EntryPath(folder, files[|files| - 1].name) := files[|files| - 1].data]
  }

  /** `downloadAll`: every converted file is added, in list order, under the
      exam's folder, and the archive is saved under the exam's archive name. */
  method DownloadAll(convertedFiles: seq<ConvertedFile>, examType: string)
    returns (archiveName: string, entries: map<string, Bytes>)
    ensures archiveName == ArchiveName(examType)
    ensures entries == ArchiveOf(FolderName(examType), convertedFiles)
  {
    var zip := new Zip();
    var examFolder := FolderName(examType);
    for i := 0 to |convertedFiles|
      invariant zip.entries == ArchiveOf(examFolder, convertedFiles[..i])
    {
      assert convertedFiles[..i + 1][..i] == convertedFiles[..i];
      zip.File(EntryPath(examFolder, convertedFiles[i].name), convertedFiles[i].data);
    }
    assert convertedFiles[..|convertedFiles|] == convertedFiles;
    entries := zip.entries;
    archiveName := ArchiveName(examType);
  }

  /** The archive holds exactly one path per file name, each under the folder. */
  lemma {:induction false} ArchivePaths(folder: string, files: seq<ConvertedFile>, path: string)
    ensures path in ArchiveOf(folder, files) <==>
              exists i :: 0 <= i < |files| && path == EntryPath(folder, files[i].name)
    decreases |files|
  {
    if files != [] {
      var init := files[..|files| - 1];
      ArchivePaths(folder, init, path);
      if path in ArchiveOf(folder, init) {
        var i :| 0 <= i < |init| && path == EntryPath(folder, init[i].name);
        assert files[i] == init[i];
      }
      if exists i :: 0 <= i < |files| && path == EntryPath(folder, files[i].name) {
        var i :| 0 <= i < |files| && path == EntryPath(folder, files[i].name);
        if i < |init| {
          assert init[i] == files[i];
        }
      }
    }
  }

  /** The entry for a name holds the data of the last file with that name. */
  lemma {:induction false} ArchiveLastWriterWins(folder: string, files: seq<ConvertedFile>, i: nat)
    requires i < |files|
    requires forall j :: i < j < |files| ==> files[j].name != files[i].name
    ensures EntryPath(folder, files[i].name) in ArchiveOf(folder, files)
    ensures ArchiveOf(folder, files)[EntryPath(folder, files[i].name)] == files[i].data
    decreases |files|
  {
    var init := files[..|files| - 1];
    if i < |files| - 1 {
      EntryPathInjective(folder, files[i].name, files[|files| - 1].name);
      assert init[i] == files[i];
      ArchiveLastWriterWins(folder, init, i);
    }
  }

  /** Different names give different paths in the same folder. */
  lemma EntryPathInjective(folder: string, name1: string, name2: string)
    requires name1 != name2
    ensures EntryPath(folder, name1) != EntryPath(folder, name2)
  {
    if EntryPath(folder, name1) == EntryPath(folder, name2) {
      SameFrame(folder + "/", name1, name2, []);
      assert false;
    }
  }

  /** The archive has at most one entry per file, and exactly one per file when
      the names are pairwise different. */
  lemma {:induction false} ArchiveSize(folder: string, files: seq<ConvertedFile>)
    ensures |ArchiveOf(folder, files)| <= |files|
    ensures (forall i, j :: 0 <= i < j < |files| ==> files[i].name != files[j].name) ==>
              |ArchiveOf(folder, files)| == |files|
    decreases |files|
  {
    if files != [] {
      var init := files[..|files| - 1];
      var last := files[|files| - 1];
      ArchiveSize(folder, init);
      if forall i, j :: 0 <= i < j < |files| ==> files[i].name != files[j].name {
        assert forall i, j :: 0 <= i < j < |init| ==> init[i].name != init[j].name by {
          forall i, j | 0 <= i < j < |init|
            ensures init[i].name != init[j].name
          {
            assert init[i] == files[i] && init[j] == files[j];
          }
        }
        ArchivePaths(folder, init, EntryPath(folder, last.name));
        if EntryPath(folder, last.name) in ArchiveOf(folder, init) {
          var k :| 0 <= k < |init| && EntryPath(folder, last.name) == EntryPath(folder, init[k].name);
          assert init[k] == files[k];
          EntryPathInjective(folder, last.name, init[k].name);
          assert false;
        }
      }
    }
  }

  /** When every file has the same name the archive holds that one path, with
      the last file's data. */
  lemma {:induction false} ArchiveOfOneName(folder: string, files: seq<ConvertedFile>, name: string)
    requires files != []
    requires forall i :: 0 <= i < |files| ==> files[i].name == name
    ensures ArchiveOf(folder, files).Keys == {EntryPath(folder, name)}
    ensures |ArchiveOf(folder, files)| == 1
    ensures ArchiveOf(folder, files)[EntryPath(folder, name)] == files[|files| - 1].data
    decreases |files|
  {
    var init := files[..|files| - 1];
    if init != [] {
      assert forall i :: 0 <= i < |init| ==> init[i] == files[i];
      ArchiveOfOneName(folder, init, name);
    }
    assert ArchiveOf(folder, files).Keys == {EntryPath(folder, name)};
  }

  /** What `downloadSingle` hands to the browser: a blob with the file's data
      and media type, saved under the file's name. */
  datatype SavedBlob = SavedBlob(fileName: string, data: Bytes, mediaType: JsValue)

  function DownloadSingle(file: ConvertedFile): SavedBlob
  {
    SavedBlob(file.name, file.data, file.fileType)
  }

  /** With pairwise different names, a file downloaded on its own is saved with
      the same contents the archive holds for it, under the name the archive
      uses inside the exam folder. */
  lemma SingleMatchesArchive(examType: string, files: seq<ConvertedFile>, i: nat)
    requires i < |files|
    requires forall j, k :: 0 <= j < k < |files| ==> files[j].name != files[k].name
    ensures var saved := DownloadSingle(files[i]);
            && EntryPath(FolderName(examType), saved.fileName) in ArchiveOf(FolderName(examType), files)
            && ArchiveOf(FolderName(examType), files)[EntryPath(FolderName(examType), saved.fileName)] == saved.data
  {
    ArchiveLastWriterWins(FolderName(examType), files, i);
  }

  const PdfIcon: string := "\U{1F4C4}"
  const ImageIcon: string := "\U{1F5BC}\U{FE0F}"
  const WordIcon: string := "\U{1F4DD}"
  const OtherIcon: string := "\U{1F4CE}"

  /** What calling `includes` on `undefined` throws. */
  const UndefinedTypeError: string := "TypeError: type is undefined"

  /** `getFileIcon`: the tests run in the order "pdf", "image", "word", the first
      that holds picks the icon, and the paper clip is the fallback; reading a
      property of `undefined` throws. */
  function GetFileIcon(fileType: JsValue): (r: Result<string, string>)
    ensures r.Failure? <==> fileType.Undefined?
    ensures r.Failure? ==> r.error == UndefinedTypeError
    ensures r.Success? ==> r.value in [PdfIcon, ImageIcon, WordIcon, OtherIcon]
  {
    match fileType
    case Undefined => Failure(UndefinedTypeError)
    case JsString(t) =>
      if Contains(t, "pdf") then Success(PdfIcon)
      else if Contains(t, "image") then Success(ImageIcon)
      else if Contains(t, "word") then Success(WordIcon)
      else Success(OtherIcon)
  }

  /** The first test wins: a type that mentions both "pdf" and "image" gets the
      document icon; the image icon needs "image" and no "pdf"; the fallback
      needs none of the three words. */
  lemma IconPrecedence(t: string)
    ensures Contains(t, "pdf") ==> GetFileIcon(JsString(t)) == Success(PdfIcon)
    ensures GetFileIcon(JsString(t)) == Success(ImageIcon) <==> !Contains(t, "pdf") && Contains(t, "image")
    ensures GetFileIcon(JsString(t)) == Success(OtherIcon) <==>
              !Contains(t, "pdf") && !Contains(t, "image") && !Contains(t, "word")
  {
    assert PdfIcon != ImageIcon && ImageIcon != WordIcon && ImageIcon != OtherIcon;
    assert PdfIcon != OtherIcon && WordIcon != OtherIcon;
  }

  /** A text none of whose characters is the pattern's first one doesn't
      contain the pattern. */
  lemma AbsentFirstChar(t: string, pattern: string)
    requires |pattern| > 0 && pattern[0] !in t
    ensures !Contains(t, pattern)
  {
  }

  /** The exam backend's format name "JPEG" gets the fallback icon. */
  lemma IconOfJpegFormat()
    ensures GetFileIcon(JsString("JPEG")) == Success(OtherIcon)
  {
    AbsentFirstChar("JPEG", "pdf");
    AbsentFirstChar("JPEG", "image");
    AbsentFirstChar("JPEG", "word");
  }
}
