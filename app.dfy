/** The "Process" button: the choice between the two output formats, the
    check that e-mail mode has recipients, and the download offered. */
module App {
  import opened Base
  import opened Text
  import opened Recipients
  import opened Partition
  import opened Archive

  /** The "Choose output format" radio button. */
  datatype Mode = Zip | Email

  const MissingRecipients := "Please enter at least one email address."
  const ZipDownloadName := "suppliers_files.zip"
  const EmailDownloadName := "email_files.zip"
  const ZipMime := "application/zip"

  /** What the download button offers: the archive's members, the file
      name and the media type. */
  datatype Download = Download(entries: seq<Entry>, fileName: string, mime: string)

  /** What pressing "Process" yields for the table, the mode and the text
      of the e-mail address box. */
  function Expected(rows: seq<Row>, mode: Mode, emailText: string, libs: Libraries): (r: Result<Download>)
    ensures r.Failure? <==> mode == Email && AllSpace(emailText)
    ensures r.Failure? ==> r.message == MissingRecipients
    ensures r.Success? ==> r.value.mime == ZipMime
    ensures r.Success? ==> r.value.fileName == if mode == Zip then ZipDownloadName else EmailDownloadName
    ensures r.Success? ==> |r.value.entries| == |KeySet(rows)| && DistinctNames(r.value.entries)
  {
    var rs := ParseRecipients(emailText);
    NoRecipientsIffBlank(emailText);
    match mode
    case Zip =>
      ArchiveEntryPerKey(rows, SheetOnly, libs);
      Success(Download(ArchiveOf(rows, SheetOnly, libs), ZipDownloadName, ZipMime))
    case Email =>
      if rs != [] then
        ArchiveEntryPerKey(rows, SheetAsEmail(rs), libs);
        Success(Download(ArchiveOf(rows, SheetAsEmail(rs), libs), EmailDownloadName, ZipMime))
      else Failure(MissingRecipients)
  }

  /** ZIP mode does not read the e-mail address box. */
  lemma ZipIgnoresRecipients(rows: seq<Row>, text1: string, text2: string, libs: Libraries)
    ensures Expected(rows, Zip, text1, libs) == Expected(rows, Zip, text2, libs)
  {
  }

  /** A ZIP download is the archive of one workbook per group. */
  lemma ZipUsesSheets(rows: seq<Row>, emailText: string, libs: Libraries)
    ensures Expected(rows, Zip, emailText, libs).Success?
    ensures Expected(rows, Zip, emailText, libs).value.entries == ArchiveOf(rows, SheetOnly, libs)
  {
  }

  /** An e-mail download is addressed to the parsed recipients: its members
      are the messages for exactly those recipients. */
  lemma EmailUsesParsedRecipients(rows: seq<Row>, emailText: string, libs: Libraries)
    requires Expected(rows, Email, emailText, libs).Success?
    ensures ParseRecipients(emailText) != []
    ensures Expected(rows, Email, emailText, libs).value.entries == ArchiveOf(rows, SheetAsEmail(ParseRecipients(emailText)), libs)
  {
  }

  /** What the page shows after "Process": a download button for the
      archive, or an error message. */
  datatype Outcome = Offer(archive: ZipArchive, fileName: string, mime: string) | ShowError(message: string)

  /** The branch run when "Process" is pressed (the e-mail address box is
      parsed first, in e-mail mode only). */
  method Process(rows: seq<Row>, mode: Mode, emailText: string, libs: Libraries) returns (outcome: Outcome)
    ensures outcome.ShowError? <==> Expected(rows, mode, emailText, libs).Failure?
    ensures outcome.ShowError? ==> outcome.message == Expected(rows, mode, emailText, libs).message
    ensures outcome.Offer? ==> fresh(outcome.archive)
    ensures outcome.Offer? ==>
      Download(outcome.archive.entries, outcome.fileName, outcome.mime) == Expected(rows, mode, emailText, libs).value
  {
    if mode == Zip {
      var zip := SplitExcelAndZip(rows, libs);
      outcome := Offer(zip, ZipDownloadName, ZipMime);
    } else {
      var emailList := ParseRecipients(emailText);
      if emailList != [] {
        var zip := CreateOutlookEmails(rows, emailList, libs);
        outcome := Offer(zip, EmailDownloadName, ZipMime);
      } else {
        outcome := ShowError(MissingRecipients);
      }
    }
  }
}
