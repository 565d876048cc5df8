# Case-file back end: access tracking, recency paging and file storage

This project models the core of a Spring back end for investigation cases.
It covers four parts of that back end.

- **Access tracker** (`CaseAccessTracker`). A process-wide deque of case numbers, most recently looked up first. Every change is mirrored to a JSON snapshot file, which is read back at start-up.
- **Case service** (`CaseService`). Looking a case up by number records an access. The "recent cases" listing joins the tracker's order with a bulk fetch of the cases and cuts one page out of the result.
- **File service** (`FileService`). Stores the extra files of a case. Each upload gets a collision-free name. Upload, metadata record and delete are handled one file at a time, and one file's failure never stops its siblings.
- **Legacy file service** (`PdfService`). The older variant. It keeps a plain list of file names on the case row, stores each file under its client-side name, and does not accept `xlsx`.

Module layout, one file each:

| file | module | contents |
|---|---|---|
| `basics.dfy` | `Basics` | `Option`, `Result`, the Java exceptions the core throws, `Min` |
| `seqs.dfy` | `Seqs` | `RemoveFirst` (`List.remove(Object)`), `Without`, `NoDup`, `Subseq` and their lemmas |
| `text.dfy` | `Text` | `lastIndexOf`, ASCII `toLowerCase`, decimal rendering, the digit filter and `parseInt` |
| `entities.dfy` | `Entities` | `Case`, `CaseFile`, `Article`, the upload request, an uploaded part, the clock readings of one call |
| `tracker.dfy` | `Tracker` | class `CaseAccessTracker` over a `seq<string>` and a snapshot |
| `recency.dfy` | `Recency` | the join and pagination as functions; class `CaseService` |
| `filenames.dfy` | `FileNames` | name splitting, the upload gate, the unique-name search (specification and loop), download names |
| `filestorage.dfy` | `FileStorage` | one batch step and the batch fold; class `FileService` |
| `pdfstorage.dfy` | `PdfStorage` | the legacy batch fold; class `PdfService` |

How the environment is modelled:

- **Repositories.** The database becomes fields of the service classes. The case table is a `map` keyed by case number. The `file_name` column of all file records is a `multiset`.
- **Upload directory.** A `set` of the names present in it. Each service class holds its own set (see "## Left out").
- **Environment faults.** These are inputs, not hidden effects:
  - each uploaded part carries a `Fault`: none, a failing copy (which may leave a partial file behind), or a failing record insert;
  - each delete takes a `diskFault` flag;
  - the tracker has a `WriteFault` that decides how snapshot writes fare: they succeed, fail before the file is opened, or fail after it was opened and truncated, leaving it empty or cut off.
- **Clock.** Each service call receives its clock readings as one `Clock` value.
- **Bulk fetch.** The cases the bulk fetch by number returns are a parameter of the recency listing, in any order.

Where the code's behaviour differs from what a reader of the system's documentation might expect, the model follows the code.

- **Loading the snapshot** replaces the deque with the stored list exactly as stored. It does not de-duplicate. A missing, empty or unparseable file leaves the current contents alone; they are not reset. At start-up the two behaviours coincide, because the deque starts empty. `LoadedDuplicatesSurviveAccess` shows what a hand-edited snapshot with a repeated id does.
- **Unique-name search.** It checks candidates `_1` to `_999` only. Candidate `_1000` is built and at once replaced, unchecked, by the `base_<millis>` fallback.
- **Gate for names without a dot.** `lastIndexOf` returns -1 there, so the gate compares the whole lower-cased name with the allow-list. A part named `PDF` passes; `report` does not (`DotlessNames`).

## Model

| member | source | states |
|---|---|---|
| Tracker.MoveToFront | src/main/java/org/nab/new_afm_back/util/CaseAccessTracker.java:65-74 | The order after an access: the first occurrence is removed and the id put in front. Its properties are stated by `MoveToFrontSpec` and `MoveToFrontNoDup`. |
| Tracker.Loaded | src/main/java/org/nab/new_afm_back/util/CaseAccessTracker.java:130-145 | The order after a load: a parsed list replaces the contents as stored; any other file keeps them. |
| Tracker.AfterSave | src/main/java/org/nab/new_afm_back/util/CaseAccessTracker.java:116-128 | The snapshot file after a save under each write outcome. |
| Tracker.SaveThenLoad | src/main/java/org/nab/new_afm_back/util/CaseAccessTracker.java:116-145 | A later start-up finds the saved order after a successful write, what the old file held after a failure at open, and an empty history after a failure that truncated the file. A readable list after a save was either written by it or there before. |
| Tracker.MoveToFrontSpec | src/main/java/org/nab/new_afm_back/util/CaseAccessTracker.java:65-74 | After an access the id is in front. The length grows by one exactly when the id was new. The other ids keep their relative order and multiplicities. |
| Tracker.MoveToFrontNoDup | src/main/java/org/nab/new_afm_back/util/CaseAccessTracker.java:65-74 | On a duplicate-free deque an access keeps it duplicate-free. The id then occurs only in front, and the rest is the old order without it. |
| Tracker.RemoveKeepsNoDup | src/main/java/org/nab/new_afm_back/util/CaseAccessTracker.java:97-104 | Removal keeps a duplicate-free deque duplicate-free and leaves the id out. |
| Tracker.ReplayNoDup | src/main/java/org/nab/new_afm_back/util/CaseAccessTracker.java:65-74 | Any series of accesses from a duplicate-free deque leaves it duplicate-free, with the last accessed id in front. |
| Tracker.ReplayExample | src/main/java/org/nab/new_afm_back/util/CaseAccessTracker.java:65-74 | Accessing A, B, A gives the order [A, B]. |
| Tracker.LoadedDuplicatesSurviveAccess | src/main/java/org/nab/new_afm_back/util/CaseAccessTracker.java:130-145 | Loading keeps a repeated id, and a later access removes only its first copy. |
| Tracker.CaseAccessTracker.constructor | src/main/java/org/nab/new_afm_back/util/CaseAccessTracker.java:38-56 | Start-up: the deque starts empty and receives the loaded snapshot. |
| Tracker.CaseAccessTracker.SaveToFile | src/main/java/org/nab/new_afm_back/util/CaseAccessTracker.java:116-128 | A successful write makes the snapshot the current order. A write that fails before opening the file leaves the old file. One that fails after opening leaves an empty or unreadable file. |
| Tracker.CaseAccessTracker.LoadFromFile | src/main/java/org/nab/new_afm_back/util/CaseAccessTracker.java:130-145 | A parsed list replaces the contents. A missing, empty or unreadable file changes nothing. |
| Tracker.CaseAccessTracker.AddCaseNumber | src/main/java/org/nab/new_afm_back/util/CaseAccessTracker.java:65-74 | Move-to-front followed by a save. Keeps the no-duplicates invariant. |
| Tracker.CaseAccessTracker.GetAccessedCaseNumbers | src/main/java/org/nab/new_afm_back/util/CaseAccessTracker.java:76-81 | Returns a copy of the order, front first. |
| Tracker.CaseAccessTracker.ClearAccessedCases | src/main/java/org/nab/new_afm_back/util/CaseAccessTracker.java:83-87 | Empties the deque and saves. |
| Tracker.CaseAccessTracker.GetAccessedCasesCount | src/main/java/org/nab/new_afm_back/util/CaseAccessTracker.java:89-91 | The number of ids. |
| Tracker.CaseAccessTracker.ContainsCaseNumber | src/main/java/org/nab/new_afm_back/util/CaseAccessTracker.java:93-95 | True exactly when the id is present. |
| Tracker.CaseAccessTracker.RemoveCaseNumber | src/main/java/org/nab/new_afm_back/util/CaseAccessTracker.java:97-104 | Reports true exactly when the id was present and removes its first occurrence. Saves only when something was removed. Keeps the invariant and leaves the id absent. |
| Tracker.CaseAccessTracker.GetLastAccessedCaseNumber | src/main/java/org/nab/new_afm_back/util/CaseAccessTracker.java:106-108 | The front id, or null for an empty deque. |
| Tracker.CaseAccessTracker.GetLastAccessedCaseNumbers | src/main/java/org/nab/new_afm_back/util/CaseAccessTracker.java:110-114 | The first min(count, size) ids in order. A negative count throws `IllegalArgumentException`. |
| Tracker.CaseAccessTracker.ForceSave | src/main/java/org/nab/new_afm_back/util/CaseAccessTracker.java:147-150 | Same effect as a save. |
| Tracker.CaseAccessTracker.ForceReload | src/main/java/org/nab/new_afm_back/util/CaseAccessTracker.java:152-155 | Same effect as a load. |
| Tracker.CaseAccessTracker.Cleanup | src/main/java/org/nab/new_afm_back/util/CaseAccessTracker.java:58-63 | Shutdown makes a final save. |
| Tracker.SaveThenRestart | src/main/java/org/nab/new_afm_back/util/CaseAccessTracker.java:116-145 | A save followed by a fresh start-up reproduces the order exactly. |
| Recency.RecentPage | src/main/java/org/nab/new_afm_back/service/impl/CaseService.java:44-77 | A page keeps the requested number and size and holds at most `size` cases. The only failures are `IllegalStateException`, `IllegalArgumentException` and `IndexOutOfBoundsException`. Which failure and which slice occur is stated by `RecentPageErrors` and `RecentPageContent`. |
| Recency.CaseMap | src/main/java/org/nab/new_afm_back/service/impl/CaseService.java:53-54 | Succeeds exactly when no two fetched cases share a number; otherwise `IllegalStateException`. The map holds every fetched case under its number and nothing else. |
| Recency.Ordered | src/main/java/org/nab/new_afm_back/service/impl/CaseService.java:57-60 | The tracker's numbers mapped through the case map, with unresolvable ones dropped, in tracker order. Its properties are stated by `OrderedSpec`, `ResolvedSubseq` and `OrderedAgrees`. |
| Recency.OrderedSpec | src/main/java/org/nab/new_afm_back/service/impl/CaseService.java:57-60 | The ordered list is the resolvable tracker numbers mapped to their cases, in tracker order. Unresolvable numbers are skipped and no resolvable one is lost. |
| Recency.ResolvedSubseq | src/main/java/org/nab/new_afm_back/service/impl/CaseService.java:57-60 | The resolved numbers are a subsequence of the tracker order. |
| Recency.OrderedAgrees | src/main/java/org/nab/new_afm_back/service/impl/CaseService.java:57-60 | Maps that agree on the tracker's numbers give the same ordered list. |
| Recency.FetchOrderIrrelevant | src/main/java/org/nab/new_afm_back/service/impl/CaseService.java:50-60 | The order in which the bulk fetch returns cases does not affect the page. |
| Recency.FetchMatchingTable | src/main/java/org/nab/new_afm_back/service/impl/CaseService.java:47-60 | When the fetch returns the stored cases for the tracker's numbers, the ordered list is the case table read in tracker order. Deleted cases drop out. |
| Recency.RecentPageErrors | src/main/java/org/nab/new_afm_back/service/impl/CaseService.java:53-77 | Duplicate numbers fail first, with `IllegalStateException`. Otherwise the call succeeds exactly when page >= 0 and size >= 1. |
| Recency.RecentPageContent | src/main/java/org/nab/new_afm_back/service/impl/CaseService.java:64-77 | For a valid request the total is the number of resolvable cases. The content is the slice starting at page*size, at most `size` long, and empty past the end. |
| Recency.RecentPageFromTable | src/main/java/org/nab/new_afm_back/service/impl/CaseService.java:44-77 | When the fetch returns the stored cases for the tracker's numbers, the call succeeds exactly for a valid request. The total is the number of tracked stored cases, and the content is the page's slice of them in tracker order. |
| Recency.PaginationExample | src/main/java/org/nab/new_afm_back/service/impl/CaseService.java:64-77 | With 25 cases and pages of 10, pages 0, 2 and 3 hold 10, 5 and 0 cases, and each reports 25 in total. |
| Recency.CaseService.constructor | src/main/java/org/nab/new_afm_back/service/impl/CaseService.java:27-30 | Starts from the given tracker and case table. |
| Recency.CaseService.GetCaseByNumber | src/main/java/org/nab/new_afm_back/service/impl/CaseService.java:32-37 | An unknown number throws and records no access. A known number returns the case and moves it to the front of the tracker. |
| Recency.CaseService.GetRecentCasesReq | src/main/java/org/nab/new_afm_back/service/impl/CaseService.java:44-78 | The recency page over the tracker's current order. When the fetch returns the stored cases for the tracker's numbers, the call succeeds exactly for a valid request, and the page is the slice of the case table read in tracker order. |
| Recency.CaseService.GetCaseCount | src/main/java/org/nab/new_afm_back/service/impl/CaseService.java:79-84 | The number of files of the case. An unknown number throws. |
| FileNames.GetFileExtension | src/main/java/org/nab/new_afm_back/service/impl/FileService.java:253-258 | Empty for null or a dotless name. Never contains a dot. |
| FileNames.GetFileNameWithoutExtension | src/main/java/org/nab/new_afm_back/service/impl/FileService.java:184-189 | Null exactly for null. A dotless name is returned whole. |
| FileNames.SplitAtLastDot | src/main/java/org/nab/new_afm_back/service/impl/FileService.java:184-189 | A dotted name is its base, a dot and a dot-free rest. The extension is the rest in lower case. |
| FileNames.ValidateUploadedFile | src/main/java/org/nab/new_afm_back/service/impl/FileService.java:222-251 | Accepts exactly a non-null, non-empty part of at most 100 MiB with a name whose extension, or whole name when dotless, is on the allow-list. |
| FileNames.SizeLimitInclusive | src/main/java/org/nab/new_afm_back/service/impl/FileService.java:228-233 | Exactly 100 MiB passes; one byte more fails. |
| FileNames.DotlessNames | src/main/java/org/nab/new_afm_back/service/impl/FileService.java:241-246 | A dotless name is compared whole: "PDF" passes, "report" fails. |
| FileNames.PdfGateStricter | src/main/java/org/nab/new_afm_back/service/impl/PdfService.java:36 | The legacy gate accepts a subset of the current one. Only `xlsx` separates them. |
| FileNames.SearchFrom | src/main/java/org/nab/new_afm_back/service/impl/FileService.java:144-157 | The candidate search from counter k up to 999, with the fallback after it. Its properties are stated by `SearchFromSpec`. |
| FileNames.UniqueFileName | src/main/java/org/nab/new_afm_back/service/impl/FileService.java:134-164 | The name allocation: the original when free, otherwise the search. Its properties are stated by `UniqueFileNameSpec`. |
| FileNames.SearchFromSpec | src/main/java/org/nab/new_afm_back/service/impl/FileService.java:144-157 | The search yields either the first candidate free in both stores, or the fallback when all of _1 to _999 are taken. |
| FileNames.UniqueFileNameSpec | src/main/java/org/nab/new_afm_back/service/impl/FileService.java:134-164 | A free name is kept. A taken name yields the first free timestamped candidate, or the fallback when all are taken. |
| FileNames.SecondAllocationDiffers | src/main/java/org/nab/new_afm_back/service/impl/FileService.java:134-164 | Once the first allocated name is taken, allocating again for the same name gives a different result unless the fallback is reached. |
| FileNames.GenerateUniqueFileName | src/main/java/org/nab/new_afm_back/service/impl/FileService.java:134-164 | The loop returns exactly the name the search specification describes. |
| FileNames.DetermineFilename | src/main/java/org/nab/new_afm_back/service/impl/FileService.java:418-438 | "documentation.pdf" exactly when the digits of the number read 1, 2 or 3. Null for other digits. The per-case name when the number has no digits. |
| FileNames.DetermineWordFilename | src/main/java/org/nab/new_afm_back/service/impl/FileService.java:503-525 | "documentation.docx" for 1, 2 or 3. The per-case name otherwise. |
| FileNames.DownloadNamesAgree | src/main/java/org/nab/new_afm_back/service/impl/FileService.java:418-525 | Wherever the PDF name exists the Word name is the same name with `.docx`. Where the PDF name is null the Word name is the per-case one. |
| FileNames.NumericCaseNumbers | src/main/java/org/nab/new_afm_back/service/impl/FileService.java:418-438 | For a decimal case number n, the fixed names are chosen exactly for 1 <= n <= 3. |
| FileNames.DownloadNameExamples | src/main/java/org/nab/new_afm_back/service/impl/FileService.java:418-438 | "CASE-002" is case 2, "ABC" gets the per-case name, "7" gets null. |
| FileStorage.Try | src/main/java/org/nab/new_afm_back/service/impl/FileService.java:88-125 | One file of a batch: skipped exactly when empty, rejected exactly when it fails the gate. A written name was free on disk. A failed copy may leave a partial file under a name that was free. A saved record takes the next id, belongs to the case, and appears only without faults. |
| FileStorage.Run | src/main/java/org/nab/new_afm_back/service/impl/FileService.java:78-129 | The batch as a fold of `Try` over the files in order. Its properties are stated by `RunCounts`, `RunDisk`, `RunRecords` and `RunKeepsConsistent`. |
| FileStorage.RunCounts | src/main/java/org/nab/new_afm_back/service/impl/FileService.java:279-318 | Saved records <= written names <= created files <= non-empty inputs. The case's list and the id counter grow by the saved count. |
| FileStorage.RunDisk | src/main/java/org/nab/new_afm_back/service/impl/FileService.java:78-129 | The directory gains exactly the created files: the written names and the partial files of failed copies. These are distinct and none existed before, so nothing is overwritten. The written names are among them, in order. |
| FileStorage.RunRecords | src/main/java/org/nab/new_afm_back/service/impl/FileService.java:100-113 | New records are appended after the existing ones and belong to the case, with consecutive ids. Their names are the written names with the failed inserts left out. The metadata store gains exactly their names. |
| FileStorage.RunKeepsConsistent | src/main/java/org/nab/new_afm_back/service/impl/FileService.java:78-129 | A batch keeps a case consistent: no two records share a name, and every record's file is on disk. |
| FileStorage.DeleteKeepsConsistent | src/main/java/org/nab/new_afm_back/service/impl/FileService.java:330-375 | Deleting a record keeps the case consistent, and no remaining record points at the deleted file. |
| FileStorage.RunSkipsUnusable | src/main/java/org/nab/new_afm_back/service/impl/FileService.java:88-120 | An empty or rejected file changes nothing. A batch with it equals the batch without it. |
| FileStorage.TryStoresFreeName | src/main/java/org/nab/new_afm_back/service/impl/FileService.java:88-113 | A valid, fault-free file whose name is free is stored under that name, with its extension as type. |
| FileStorage.IndexOfId | src/main/java/org/nab/new_afm_back/service/impl/FileService.java:349-350 | The first position holding a record with the id. |
| FileStorage.RemoveRecordById | src/main/java/org/nab/new_afm_back/service/impl/FileService.java:366-367 | Removing that record removes exactly its position; the rest keep their order. |
| FileStorage.DoesContainId | src/main/java/org/nab/new_afm_back/service/impl/FileService.java:377-384 | True exactly when some record has the id. |
| FileStorage.FileService.constructor | src/main/java/org/nab/new_afm_back/service/impl/FileService.java:33-39 | Starts from the given stores. |
| FileStorage.FileService.StoreOne | src/main/java/org/nab/new_afm_back/service/impl/FileService.java:88-125 | One loop iteration has the effect `Try` describes and touches no other case. |
| FileStorage.FileService.WriteAndRecord | src/main/java/org/nab/new_afm_back/service/impl/FileService.java:99-112 | The copy adds the allocated name to the directory. A failing record insert leaves only that. Otherwise the record takes the next id, with the case number, original name, size, extension and upload time. |
| FileStorage.FileService.SaveRecord | src/main/java/org/nab/new_afm_back/service/impl/FileService.java:102-112 | The metadata store gains the record's name. The id counter advances. The record joins the end of its case's list, and no other case changes. |
| FileStorage.FileService.ProcessAdditionalFilesWithTracking | src/main/java/org/nab/new_afm_back/service/impl/FileService.java:78-129 | The loop's new stores and returned names are those of the batch fold. |
| FileStorage.FileService.UploadCaseWithFiles | src/main/java/org/nab/new_afm_back/service/impl/FileService.java:44-76 | An existing number throws before anything is written. Otherwise the case is created with today's date and the author as uploader, then the batch is stored. |
| FileStorage.FileService.AddAdditionalFilesToCase | src/main/java/org/nab/new_afm_back/service/impl/FileService.java:260-327 | A missing case throws before anything is written. Otherwise the batch is stored and the count of saved records is the fold's. |
| FileStorage.FileService.DeleteAdditionalFileById | src/main/java/org/nab/new_afm_back/service/impl/FileService.java:330-375 | Missing case, then missing id, throw `IllegalArgumentException`. A disk error throws before any change. Otherwise the file leaves the directory, the record its case, and one copy of the name the metadata. |
| PdfStorage.ResolveArticle | src/main/java/org/nab/new_afm_back/service/impl/PdfService.java:63-66 | An article exactly when the id list is non-empty and its first id exists. |
| PdfStorage.ResolveArticleFirstOnly | src/main/java/org/nab/new_afm_back/service/impl/PdfService.java:63-66 | Only the first id matters. |
| PdfStorage.SaveAs | src/main/java/org/nab/new_afm_back/service/impl/PdfService.java:74-85 | A file is listed, under its own name, exactly when it is non-empty, passes the gate, its name is not yet on disk and the copy does not fail. |
| PdfStorage.PartialCopy | src/main/java/org/nab/new_afm_back/service/impl/PdfService.java:103-111 | A file whose copy fails after creating its target: it passes the gate, its name is not on disk, and the copy leaves a partial file. |
| PdfStorage.PdfRun | src/main/java/org/nab/new_afm_back/service/impl/PdfService.java:68-88 | The legacy batch as a fold over the files in order. Its properties are stated by `PdfRunSpec`, `PdfRunAllSaved` and `AddKeepsConsistent`. |
| PdfStorage.PdfRunSpec | src/main/java/org/nab/new_afm_back/service/impl/PdfService.java:68-111 | The directory gains exactly the created files: the listed names and the partial files of failed copies. These are distinct and were not on disk. The listed names are among them, in order, and are the gate-passing names in input order with some left out. |
| PdfStorage.PdfRunAllSaved | src/main/java/org/nab/new_afm_back/service/impl/PdfService.java:68-111 | Without copy failures, and with distinct new names, every gate-passing file is listed in input order, and nothing else is created. |
| PdfStorage.PdfRunSkipsUnusable | src/main/java/org/nab/new_afm_back/service/impl/PdfService.java:74-85 | An empty or rejected file changes nothing. |
| PdfStorage.AddKeepsConsistent | src/main/java/org/nab/new_afm_back/service/impl/PdfService.java:143-170 | Appending a batch keeps a case's list duplicate-free and backed by files on disk. |
| PdfStorage.DeleteKeepsConsistent | src/main/java/org/nab/new_afm_back/service/impl/PdfService.java:173-199 | Deleting a listed name keeps the list consistent, shortens it by one, and leaves the name unlisted. |
| PdfStorage.GenerateAdditionalFileName | src/main/java/org/nab/new_afm_back/service/impl/PdfService.java:135-141 | The result always starts with the case number, `_additional_`, the index, `_` and the time. Without a dot in the original name, that is the whole name. |
| PdfStorage.GeneratedNameKeepsExtension | src/main/java/org/nab/new_afm_back/service/impl/PdfService.java:135-141 | A generated name ends with the original's text from its last dot, case included, and so has the original's extension. |
| PdfStorage.PdfService.constructor | src/main/java/org/nab/new_afm_back/service/impl/PdfService.java:30-34 | Starts from the given stores. |
| PdfStorage.PdfService.SaveOne | src/main/java/org/nab/new_afm_back/service/impl/PdfService.java:90-111 | Validate then copy for one file, as `SaveAs` says. The directory gains the name when the file is saved or its copy leaves a partial file. |
| PdfStorage.PdfService.ProcessAdditionalFiles | src/main/java/org/nab/new_afm_back/service/impl/PdfService.java:68-88 | The loop's directory and returned names are those of the batch fold `PdfRun`. |
| PdfStorage.PdfService.UploadCaseWithPdf | src/main/java/org/nab/new_afm_back/service/impl/PdfService.java:39-61 | An existing number throws before anything is written. Otherwise the files are saved, then the case with the resolved article, status false, info 0 and the saved names. |
| PdfStorage.PdfService.AddAdditionalFilesToCase | src/main/java/org/nab/new_afm_back/service/impl/PdfService.java:143-170 | A missing case throws. Otherwise the saved names are appended to the list, with a null list counting as empty. |
| PdfStorage.PdfService.DeleteAdditionalFileByName | src/main/java/org/nab/new_afm_back/service/impl/PdfService.java:173-199 | A missing case, or a name not listed, throws `IllegalArgumentException`. A disk error throws before any change. Otherwise the file leaves the directory and its first occurrence leaves the list. |
| Seqs.RemoveFirst | src/main/java/org/nab/new_afm_back/util/CaseAccessTracker.java:68 | `remove(Object)` on the deque and on the legacy name list. Its properties are stated by `RemoveFirstSplit`, `RemoveFirstCount` and `RemoveFirstNoDup`. |
| Seqs.RemoveFirstSplit | src/main/java/org/nab/new_afm_back/util/CaseAccessTracker.java:68 | `remove(Object)` cuts out exactly the first occurrence, or nothing. |
| Seqs.RemoveFirstCount | src/main/java/org/nab/new_afm_back/util/CaseAccessTracker.java:98 | Removal drops one copy: the length and multiset shrink by one exactly when the element was present. |
| Seqs.RemoveFirstNoDup | src/main/java/org/nab/new_afm_back/service/impl/PdfService.java:195 | On a duplicate-free list, removing the first occurrence removes all occurrences. |
| Text.LastIndexOf | src/main/java/org/nab/new_afm_back/service/impl/FileService.java:241 | -1 exactly when the character is absent. Otherwise the position of its last occurrence. |
| Text.ToLower | src/main/java/org/nab/new_afm_back/service/impl/FileService.java:241 | `toLowerCase`: the same length, each ASCII capital replaced by its small letter and every other character kept. |
| Text.Digits | src/main/java/org/nab/new_afm_back/service/impl/FileService.java:419 | `replaceAll("[^0-9]", "")`: no longer than the input and made of digits only. `DigitsOfDigitString` shows a digit string is kept whole. |
| Text.NatToString | src/main/java/org/nab/new_afm_back/service/impl/PdfService.java:136 | `String.valueOf` of a non-negative number: a non-empty string of digits. Its inverse is stated by `NatToStringRoundTrip`. |
| Text.DigitsValue | src/main/java/org/nab/new_afm_back/service/impl/FileService.java:423 | `Integer.parseInt` of a digit string. Its properties are stated by `NatToStringRoundTrip`. |
| Text.NatToStringRoundTrip | src/main/java/org/nab/new_afm_back/service/impl/FileService.java:423 | Parsing the decimal rendering of a number gives the number back. |

## Left out

- **Concurrency.**
  - The concurrent deque, the scheduled 30-second save, and `synchronized` are not modelled. Each method runs alone.
  - The `remove` followed by `addFirst` in `addCaseNumber` is not atomic. Under concurrency it can leave an id twice in the deque. The model's no-duplicates invariant assumes serial calls.
  - The deque is a process-wide static. The model has one tracker object, and its constructor stands for a process start.
- **Snapshot location.** The file path resolution, directory creation and Jackson serialisation are abstracted into the `Snapshot` value.
- **Null snapshot contents.** A snapshot holding JSON `null`, or null elements, raises a `NullPointerException` after the deque is cleared. This is not modelled.
- **Null arguments.** Null case numbers, null uploaded parts, null file-name arguments and null list arguments are not modelled. An absent file list is the empty sequence; the code returns early in both cases.
- **32-bit integers.**
  - `page * size` and `page * size + size` are computed without 32-bit wrap-around.
  - `Integer.parseInt` in the download-name choice is unbounded: a digit string beyond 2^31-1 throws in the code but not in the model.
  - File sizes and ids are unbounded.
- **Clock readings.**
  - `FileStorage.FileService.UploadCaseWithFiles`, `FileStorage.FileService.AddAdditionalFilesToCase` and `FileNames.GenerateUniqueFileName` read the clock once per call. The source reads the formatted timestamp again on every iteration of the name search, and the milliseconds once per fallback.
  - Upload time and date are opaque integers.
- **Case folding.** `toLowerCase` folds ASCII letters only.
- **Path resolution.** A name containing path separators or `..` is treated as a plain name.
- **Out of scope.** These are outside the modelled core:
  - downloads (`downloadPdfByCaseNumber`, `downloadWordByCaseNumber`, `downloadCaseFile`) beyond their file-name choice;
  - `getFilesWithUploadTime` and `getFileUploadHistory`;
  - the controllers, DTO formatting and `DocumentService`;
  - `CaseService.getRecentCases`, which is a repository query by date;
  - `extractPdfContent`.
- **Transactions.** The rollback of `@Transactional` on delete is not modelled. Nothing in the modelled failure paths is written before the exception.
- **Fields with no effect on the core.** The case's `articles` list in the current service, and the case id, affect nothing modelled. The current service passes a `List<Integer>` into the `List<String>` field.
- **Shared upload directory.** Both services resolve the same directory (`file.upload.directory`, FileService.java:38 and PdfService.java:33). The model gives each service class its own `disk` set. A name stored by one service is therefore not seen by the other's existence check or copy, so cross-service collisions (a legacy copy failing because the current service stored that name, or the name search skipping a legacy file) are not captured.
- **Separate tables per service.** Each service class holds its own copy of the repository state. The legacy service's case rows use fields (`article`, `status`, `info`, `adds`) that the current `Case` entity does not declare. They are modelled as the separate type `LegacyCase`.
- **`FileStorage.FileService.UploadCaseWithFiles`** returns the case with its files as stored. The Java method returns the entity object, whose in-memory file list is never refreshed with the new records.
- **`FileStorage.FileService.AddAdditionalFilesToCase`** has the same gap.
- **Legacy faults.** The legacy service ignores the `RecordSaveFails` fault of an uploaded part, because it inserts no per-file record.
- **Bulk fetch by number.** `CaseRepository.findAllByNumberIn` (repository/CaseRepository.java:23) is declared over a `Set<String>`, while `getRecentCasesReq` passes it the tracker's `List<String>` (CaseService.java:47-50). As written this does not compile. The model takes the intended bulk fetch by number, whose result is the `fetched` parameter.
- **`Recency.RecentPage`.** The `PageImpl` correction of the total is not modelled. For the pages the code builds, it never changes the value.
