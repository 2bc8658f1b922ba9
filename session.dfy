/**
 * The page's state and its three handlers: choosing a file, converting it and
 * downloading the merged text. The state hooks become the fields of one object
 * whose methods update them.
 */
module Session {
  import opened Wrappers
  import opened Convert
  import opened Download

  /** The only MIME type a selection may carry. */
  const ZipMimeType: string := "application/zip"
  /** The label shown before any archive has been accepted. */
  const NoFileLabel: string := "No ZIP file selected"

  /** A file chosen in the browser: its name and the type the browser reports. */
  datatype PickedFile = PickedFile(name: string, mimeType: string)

  /** Why reading the archive failed; the archive library gives no detail the page uses. */
  datatype LoadError = UnreadableArchive

  /** What the download hands to the browser: a file name and the text saved under it. */
  datatype DownloadFile = DownloadFile(fileName: string, text: string)

  class App {
    var zipFile: Option<PickedFile>
    var fileName: string
    var convertedText: string
    var isConverted: bool
    var loading: bool

    /**
     * The label names the accepted archive; text exists only after a conversion,
     * and a conversion or a running one needs an accepted archive.
     */
    ghost predicate Valid()
      reads this
    {
      && fileName == (if zipFile.Some? then zipFile.value.name else NoFileLabel)
      && (convertedText != [] ==> isConverted)
      && (isConverted ==> zipFile.Some?)
      && (loading ==> zipFile.Some?)
    }

    constructor ()
      ensures Valid()
      ensures zipFile == None && fileName == NoFileLabel
      ensures convertedText == [] && !isConverted && !loading
    {
      zipFile := None;
      fileName := NoFileLabel;
      convertedText := [];
      isConverted := false;
      loading := false;
    }

    /**
     * A selection is taken only when there is a file whose type is a ZIP archive;
     * it then replaces the archive and discards the earlier result. Anything else
     * leaves the page as it was.
     */
    method SelectFile(file: Option<PickedFile>) returns (accepted: bool)
      requires Valid()
      modifies this
      ensures Valid()
      ensures accepted <==> file.Some? && file.value.mimeType == ZipMimeType
      ensures accepted ==> zipFile == file && fileName == file.value.name
      ensures accepted ==> convertedText == [] && !isConverted && loading == old(loading)
      ensures !accepted ==> unchanged(this)
    {
      if file.Some? && file.value.mimeType == ZipMimeType {
        zipFile := file;
        fileName := file.value.name;
        isConverted := false;
        convertedText := [];
        accepted := true;
      } else {
        accepted := false;
      }
    }

    /**
     * The conversion starts only with an archive and a loaded archive library;
     * starting it only raises the busy flag.
     */
    method StartConvert(libraryLoaded: bool) returns (started: bool)
      requires Valid()
      modifies this
      ensures Valid()
      ensures started <==> old(zipFile).Some? && libraryLoaded
      ensures started ==> loading
      ensures started ==> zipFile == old(zipFile) && fileName == old(fileName)
      ensures started ==> convertedText == old(convertedText) && isConverted == old(isConverted)
      ensures !started ==> unchanged(this)
    {
      if zipFile.None? || !libraryLoaded {
        return false;
      }
      loading := true;
      started := true;
    }

    /**
     * The end of a conversion. An archive that could not be read only clears
     * the busy flag. A read archive, given as its catalog of entries, becomes
     * the merged document, which is then shown as converted.
     */
    method FinishConvert(decoded: Result<seq<Entry>, LoadError>)
      requires Valid() && zipFile.Some?
      modifies this
      ensures Valid()
      ensures !loading && zipFile == old(zipFile) && fileName == old(fileName)
      ensures decoded.Success? ==> convertedText == Merged(decoded.value) && isConverted
      ensures decoded.Failure? ==> convertedText == old(convertedText) && isConverted == old(isConverted)
    {
      match decoded
      case Failure(_) =>
        loading := false;
      case Success(catalog) =>
        var output := Assemble(catalog);
        convertedText := output;
        isConverted := true;
        loading := false;
    }

    /**
     * Nothing is downloaded while the text is empty; otherwise the text is saved
     * under the archive's name with its extension replaced.
     */
    method Download() returns (file: Option<DownloadFile>)
      requires Valid()
      ensures file.None? <==> convertedText == []
      ensures file.Some? ==> zipFile.Some? && file.value.text == convertedText
      ensures file.Some? ==> file.value.fileName == DownloadName(zipFile.value.name)
    {
      if convertedText == [] {
        return None;
      }
      file := Some(DownloadFile(DownloadName(zipFile.value.name), convertedText));
    }
  }

  /**
   * A whole visit: converting before choosing is refused, a PDF is refused, the
   * ZIP archive is accepted and converted, and the download carries the one
   * Python file under the archive's name.
   */
  method ConvertAndDownload(pdf: PickedFile, zip: PickedFile, main: Entry, notes: Entry, assets: Entry)
    returns (download: Option<DownloadFile>)
    requires pdf == PickedFile("report.pdf", "application/pdf")
    requires zip.mimeType == ZipMimeType
    requires main == Entry("main.py", false, "print('hi')")
    requires notes == Entry("notes.txt", false, "remember")
    requires assets == Entry("assets/", true, "")
    ensures download == Some(DownloadFile(DownloadName(zip.name), "--- File: main.py ---\n\nprint('hi')\n\n\n"))
  {
    var app := new App();
    var started := app.StartConvert(true);
    assert !started;
    var accepted := app.SelectFile(Some(pdf));
    assert !accepted && app.fileName == NoFileLabel;
    accepted := app.SelectFile(Some(zip));
    started := app.StartConvert(true);
    assert started && app.loading;
    app.FinishConvert(Success([main, notes, assets]));
    ScenarioOneSourceFile(main, notes, assets);
    download := app.Download();
  }

  /**
   * A conversion finished after another archive was chosen still lands: its text
   * is kept and is downloaded under the name of the archive chosen later.
   */
  method ConversionOutlivesReselection(first: PickedFile, second: PickedFile, catalog: seq<Entry>)
    returns (download: Option<DownloadFile>)
    requires first.mimeType == ZipMimeType && second.mimeType == ZipMimeType
    requires Merged(catalog) != []
    ensures download == Some(DownloadFile(DownloadName(second.name), Merged(catalog)))
  {
    var app := new App();
    var accepted := app.SelectFile(Some(first));
    var started := app.StartConvert(true);
    accepted := app.SelectFile(Some(second));
    app.FinishConvert(Success(catalog));
    download := app.Download();
  }
}
