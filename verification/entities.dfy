/** The persistent entities and request values the services work on. Only the
    columns the modelled operations read or write are kept. */
module Entities {
  import opened Basics

  /** A row of `case_files1`: one stored file of one case. `fileName` is the
      name on disk and in the metadata store; `caseNumber` stands for the
      owning case reference. */
  datatype CaseFile = CaseFile(
    id: int,
    fileName: string,
    category: Option<string>,
    originalFileName: Option<string>,
    fileSize: nat,
    fileType: string,
    uploadedAt: int,
    uploadedBy: Option<string>,
    caseNumber: string)

  /** A row of `cases1` with its files (the `caseFiles` association); the
      `object` column is `caseObject`, since `object` is a Dafny keyword. */
  datatype Case = Case(
    number: string,
    author: Option<string>,
    investigator: Option<string>,
    policeman: Option<string>,
    caseObject: Option<string>,
    uploadDate: int,
    caseFiles: seq<CaseFile>)

  /** A row of `articles`. */
  datatype Article = Article(id: int, code: string, title: string)

  /** The body of a new-case upload request. */
  datatype UploadCaseRequest = UploadCaseRequest(
    number: string,
    author: Option<string>,
    investigator: Option<string>,
    policeman: Option<string>,
    articles: Option<seq<int>>,
    caseObject: Option<string>)

  /** What the environment does to the writes made for one uploaded file:
      nothing, a failing `Files.copy` (an I/O error other than a name clash,
      which may strike after the target file was created and so leave a
      partial file behind), or a failing insert of its metadata record. */
  datatype Fault = NoFault | CopyFails(leavesPartial: bool) | RecordSaveFails

  /** A `MultipartFile` part: its client-side name, its size in bytes, and the
      fault its writes meet. `isEmpty()` holds exactly when `size == 0`. */
  datatype Upload = Upload(originalFilename: Option<string>, size: nat, fault: Fault)

  /** The wall-clock readings one call makes: today's date, the current
      date-time, that date-time formatted as "yyyyMMdd_HHmmss", and the
      current time in milliseconds. */
  datatype Clock = Clock(today: int, now: int, stamp: string, millis: nat)
}
