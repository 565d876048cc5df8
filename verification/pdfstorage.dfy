/** The older file service, which keeps a case's extra files as a plain list
    of names (`adds`) on the case row, stores each file under its
    client-side name, and accepts one extension fewer than the current
    service. */
module PdfStorage {
  import opened Basics
  import opened Seqs
  import opened Text
  import opened Entities
  import opened FileNames

  /** The case row as this service writes it: besides the columns of the
      current model it has an article, a status flag, an info counter and
      the list of extra file names. */
  datatype LegacyCase = LegacyCase(
    number: string,
    author: Option<string>,
    investigator: Option<string>,
    policeman: Option<string>,
    caseObject: Option<string>,
    article: Option<Article>,
    uploadDate: int,
    status: bool,
    info: int,
    adds: Option<seq<string>>)

  /** `resolveArticle`: the article of the first id, if it exists; no ids,
      an empty list or an unknown first id give none. */
  function ResolveArticle(articleIds: Option<seq<int>>, table: map<int, Article>): (r: Option<Article>)
    ensures r.Some? <==> articleIds.Some? && articleIds.value != [] && articleIds.value[0] in table
  {
    if articleIds.None? || articleIds.value == [] then None
    else if articleIds.value[0] in table then Some(table[articleIds.value[0]])
    else None
  }

  /** Only the first id counts: lists with the same head resolve alike,
      whatever follows it. */
  lemma ResolveArticleFirstOnly(first: int, rest1: seq<int>, rest2: seq<int>, table: map<int, Article>)
    ensures ResolveArticle(Some([first] + rest1), table) == ResolveArticle(Some([first] + rest2), table)
    ensures ResolveArticle(Some([first] + rest1), table) == if first in table then Some(table[first]) else None
  {
  }

  /** The name one file of a batch ends up listed under: its own client-side
      name, provided it is non-empty, passes the gate, and the copy succeeds
      (`Files.copy` refuses a name already in the directory). */
  function SaveAs(disk: set<string>, f: Upload): (r: Option<string>)
    ensures r.Some? ==> f.originalFilename == r && r.value !in disk
    ensures r.Some? <==> f.size > 0 && ValidateUploadedFile(Some(f), PDF_ALLOWED)
                         && f.originalFilename.value !in disk && !f.fault.CopyFails?
  {
    if f.size == 0 || !ValidateUploadedFile(Some(f), PDF_ALLOWED) then None
    else if f.originalFilename.value in disk || f.fault.CopyFails? then None
    else f.originalFilename
  }

  /** A copy that fails after creating its target: the file would otherwise
      have been saved, and leaves a partial file under its name. */
  predicate PartialCopy(disk: set<string>, f: Upload) {
    && f.size > 0 && ValidateUploadedFile(Some(f), PDF_ALLOWED)
    && f.originalFilename.value !in disk && f.fault == CopyFails(true)
  }

  /** The upload directory, the names saved so far, and every name created
      in the directory so far, partial files of failed copies included. */
  datatype Saved = Saved(disk: set<string>, names: seq<string>, created: seq<string>)

  /** One iteration of `processAdditionalFiles`: a saved file's name joins
      the directory and the list; a partial file joins the directory only. */
  function PdfStep(s: Saved, f: Upload): Saved
  {
    match SaveAs(s.disk, f)
    case None =>
      if PartialCopy(s.disk, f) then
        var n := f.originalFilename.value;
        Saved(s.disk + {n}, s.names, s.created + [n])
      else s
    case Some(n) => Saved(s.disk + {n}, s.names + [n], s.created + [n])
  }

  /** `processAdditionalFiles` as a fold: each file is tried independently. */
  function PdfRun(disk: set<string>, files: seq<Upload>): Saved
  {
    if files == [] then Saved(disk, [], [])
    else PdfStep(PdfRun(disk, files[..|files| - 1]), files[|files| - 1])
  }

  /** A batch with one more file at the end is one more step. */
  lemma PdfRunAppend(disk: set<string>, files: seq<Upload>, x: Upload)
    ensures PdfRun(disk, files + [x]) == PdfStep(PdfRun(disk, files), x)
  {
    assert (files + [x])[..|files|] == files;
  }

  /** The client-side name of a file if it is non-empty and passes the gate. */
  function GateName(f: Upload): seq<string>
  {
    if f.size > 0 && ValidateUploadedFile(Some(f), PDF_ALLOWED) then [f.originalFilename.value] else []
  }

  /** The client-side names of the files that are non-empty and pass the
      gate, in input order. */
  function GateNames(files: seq<Upload>): seq<string>
  {
    if files == [] then []
    else GateNames(files[..|files| - 1]) + GateName(files[|files| - 1])
  }

  /** The directory gains exactly the names the batch created: the saved
      names and the partial files of failed copies. They are pairwise
      distinct (a second file with the same name fails its copy) and none
      was in the directory before. The saved names are among them in
      order, and are the gate-passing names in input order with some left
      out. */
  lemma {:induction false} PdfRunSpec(disk: set<string>, files: seq<Upload>)
    ensures var s := PdfRun(disk, files);
      && s.disk == disk + (set n | n in s.created)
      && NoDup(s.created)
      && (forall n :: n in s.created ==> n !in disk)
      && Subseq(s.names, s.created)
      && Subseq(s.names, GateNames(files))
  {
    if files != [] {
      var init := files[..|files| - 1];
      PdfRunSpec(disk, init);
      PdfStepSpec(disk, PdfRun(disk, init), files[|files| - 1], GateNames(init));
    }
  }

  /** One step keeps the invariant of `PdfRunSpec`. */
  lemma PdfStepSpec(disk: set<string>, s: Saved, f: Upload, gate: seq<string>)
    requires s.disk == disk + (set n | n in s.created)
    requires NoDup(s.created) && (forall n :: n in s.created ==> n !in disk)
    requires Subseq(s.names, s.created)
    requires Subseq(s.names, gate)
    ensures var t := PdfStep(s, f);
      && t.disk == disk + (set n | n in t.created)
      && NoDup(t.created)
      && (forall n :: n in t.created ==> n !in disk)
      && Subseq(t.names, t.created)
      && Subseq(t.names, gate + GateName(f))
  {
    PdfStepDisk(disk, s, f);
    PdfStepFresh(disk, s, f);
    PdfStepCreated(s, f);
    PdfStepSubseq(s, f, gate);
  }

  /** The name a step creates in the directory, if any. */
  function StepCreated(s: Saved, f: Upload): seq<string>
  {
    if SaveAs(s.disk, f).Some? || PartialCopy(s.disk, f) then [f.originalFilename.value] else []
  }

  lemma PdfStepCreatedIs(s: Saved, f: Upload)
    ensures PdfStep(s, f).created == s.created + StepCreated(s, f)
    ensures PdfStep(s, f).disk == s.disk + (set n | n in StepCreated(s, f))
  {
    if StepCreated(s, f) == [] {
      assert s.created + [] == s.created;
    }
  }

  lemma PdfStepDisk(disk: set<string>, s: Saved, f: Upload)
    requires s.disk == disk + (set n | n in s.created)
    ensures PdfStep(s, f).disk == disk + (set n | n in PdfStep(s, f).created)
  {
    PdfStepCreatedIs(s, f);
    var c := StepCreated(s, f);
    assert (set m | m in s.created + c) == (set m | m in s.created) + (set m | m in c);
  }

  lemma PdfStepFresh(disk: set<string>, s: Saved, f: Upload)
    requires s.disk == disk + (set n | n in s.created)
    requires NoDup(s.created) && (forall n :: n in s.created ==> n !in disk)
    ensures NoDup(PdfStep(s, f).created)
    ensures forall n :: n in PdfStep(s, f).created ==> n !in disk
  {
    PdfStepCreatedIs(s, f);
    var c := StepCreated(s, f);
    if c != [] {
      assert c[0] !in s.disk;
      assert c[0] !in s.created && c[0] !in disk;
    }
    NoDupConcat(s.created, c);
  }

  lemma PdfStepCreated(s: Saved, f: Upload)
    requires Subseq(s.names, s.created)
    ensures Subseq(PdfStep(s, f).names, PdfStep(s, f).created)
  {
    if SaveAs(s.disk, f).Some? {
      SubseqAppendBoth(s.names, s.created, f.originalFilename.value);
    } else if PartialCopy(s.disk, f) {
      SubseqExtend(s.names, s.created, f.originalFilename.value);
    }
  }

  lemma PdfStepSubseq(s: Saved, f: Upload, gate: seq<string>)
    requires Subseq(s.names, gate)
    ensures Subseq(PdfStep(s, f).names, gate + GateName(f))
  {
    if SaveAs(s.disk, f).Some? {
      SubseqAppendBoth(s.names, gate, f.originalFilename.value);
    } else if GateName(f) == [] {
      assert gate + GateName(f) == gate;
    } else {
      SubseqExtend(s.names, gate, f.originalFilename.value);
    }
  }

  /** Without copy failures, and with gate-passing names that are distinct
      and new to the directory, every such file is saved, in input order. */
  lemma {:induction false} PdfRunAllSaved(disk: set<string>, files: seq<Upload>)
    requires forall i :: 0 <= i < |files| ==> !files[i].fault.CopyFails?
    requires NoDup(GateNames(files))
    requires forall n :: n in GateNames(files) ==> n !in disk
    ensures PdfRun(disk, files).names == GateNames(files)
    ensures PdfRun(disk, files).created == GateNames(files)
    ensures PdfRun(disk, files).disk == disk + set n | n in GateNames(files)
  {
    if files != [] {
      var init := files[..|files| - 1];
      var f := files[|files| - 1];
      var g := GateNames(init);
      NoDupConcat(g, GateName(f));
      PdfRunAllSaved(disk, init);
      PdfStepAllSaved(disk, PdfRun(disk, init), f, g);
    }
  }

  /** One step of `PdfRunAllSaved`. */
  lemma PdfStepAllSaved(disk: set<string>, s: Saved, f: Upload, g: seq<string>)
    requires s.names == g && s.created == g && s.disk == disk + (set n | n in g)
    requires !f.fault.CopyFails?
    requires forall n :: n in GateName(f) ==> n !in g && n !in disk
    ensures PdfStep(s, f).names == g + GateName(f)
    ensures PdfStep(s, f).created == g + GateName(f)
    ensures PdfStep(s, f).disk == disk + set n | n in g + GateName(f)
  {
    if GateName(f) == [] {
      assert g + GateName(f) == g;
    } else {
      assert f.originalFilename.value in GateName(f);
      assert SaveAs(s.disk, f) == f.originalFilename;
    }
  }

  /** A file that is empty or fails the gate changes nothing: a batch with
      it behaves exactly like the batch without it. */
  lemma {:induction false} PdfRunSkipsUnusable(disk: set<string>, pre: seq<Upload>, f: Upload, post: seq<Upload>)
    requires f.size == 0 || !ValidateUploadedFile(Some(f), PDF_ALLOWED)
    ensures PdfRun(disk, pre + [f] + post) == PdfRun(disk, pre + post)
    decreases |post|
  {
    if post == [] {
      PdfRunSkipsLast(disk, pre, f);
    } else {
      PdfRunSkipsUnusable(disk, pre, f, post[..|post| - 1]);
      PdfRunSkipsExtend(disk, pre, f, post);
    }
  }

  /** The base case: an unusable file at the end of a batch changes nothing. */
  lemma PdfRunSkipsLast(disk: set<string>, pre: seq<Upload>, f: Upload)
    requires f.size == 0 || !ValidateUploadedFile(Some(f), PDF_ALLOWED)
    ensures PdfRun(disk, pre + [f] + []) == PdfRun(disk, pre + [])
  {
    assert pre + [f] + [] == pre + [f];
    assert pre + [] == pre;
    PdfRunAppend(disk, pre, f);
  }

  /** The inductive step: the equality survives one more file after the skipped one. */
  lemma PdfRunSkipsExtend(disk: set<string>, pre: seq<Upload>, f: Upload, post: seq<Upload>)
    requires post != []
    requires PdfRun(disk, pre + [f] + post[..|post| - 1]) == PdfRun(disk, pre + post[..|post| - 1])
    ensures PdfRun(disk, pre + [f] + post) == PdfRun(disk, pre + post)
  {
    var x := post[|post| - 1];
    var long := pre + [f] + post[..|post| - 1];
    var short := pre + post[..|post| - 1];
    AppendSplitLast(pre + [f], post);
    AppendSplitLast(pre, post);
    PdfRunSameThenAppend(disk, long, short, x);
  }

  /** Batches that end alike stay alike after one more file. */
  lemma PdfRunSameThenAppend(disk: set<string>, a: seq<Upload>, b: seq<Upload>, x: Upload)
    requires PdfRun(disk, a) == PdfRun(disk, b)
    ensures PdfRun(disk, a + [x]) == PdfRun(disk, b + [x])
  {
    PdfRunAppend(disk, a, x);
    PdfRunAppend(disk, b, x);
  }

  /** A case's name list is consistent with the directory when it has no
      duplicates and every listed file is present. */
  predicate Consistent(adds: seq<string>, disk: set<string>) {
    NoDup(adds) && forall n :: n in adds ==> n in disk
  }

  /** Appending a batch's names keeps a consistent list consistent. */
  lemma AddKeepsConsistent(adds: seq<string>, disk: set<string>, files: seq<Upload>)
    requires Consistent(adds, disk)
    ensures Consistent(adds + PdfRun(disk, files).names, PdfRun(disk, files).disk)
  {
    var s := PdfRun(disk, files);
    PdfRunSpec(disk, files);
    SubseqNoDup(s.names, s.created);
    SubseqMembers(s.names, s.created);
    var all := adds + s.names;
    forall i, j | 0 <= i < j < |all|
      ensures all[i] != all[j]
    {
      if j < |adds| {
      } else if i >= |adds| {
        assert all[i] == s.names[i - |adds|] && all[j] == s.names[j - |adds|];
      } else {
        assert all[i] in adds && all[i] in disk;
        assert all[j] == s.names[j - |adds|] && all[j] in s.names;
      }
    }
  }

  /** Removing a listed name from both the list and the directory keeps
      the list consistent, and the name is then no longer listed. */
  lemma DeleteKeepsConsistent(adds: seq<string>, disk: set<string>, name: string)
    requires Consistent(adds, disk) && name in adds
    ensures Consistent(RemoveFirst(adds, name), disk - {name})
    ensures name !in RemoveFirst(adds, name)
    ensures |RemoveFirst(adds, name)| == |adds| - 1
  {
    RemoveFirstNoDup(adds, name);
    WithoutSpec(adds, name);
    RemoveFirstCount(adds, name);
  }

  /** `generateAdditionalFileName` (never called by the service): the case
      number, the index and the time in milliseconds, followed by the
      original name's last dot and what follows it. */
  function GenerateAdditionalFileName(caseNumber: string, originalFilename: Option<string>, index: int, millis: nat): (r: string)
    ensures var p := caseNumber + "_additional_" + IntToString(index) + "_" + NatToString(millis);
      |p| <= |r| && r[..|p|] == p
    ensures originalFilename.None? || '.' !in originalFilename.value ==>
      r == caseNumber + "_additional_" + IntToString(index) + "_" + NatToString(millis)
  {
    var extension :=
      if originalFilename.Some? && '.' in originalFilename.value
      then originalFilename.value[LastIndexOf(originalFilename.value, '.')..]
      else "";
    caseNumber + "_additional_" + IntToString(index) + "_" + NatToString(millis) + extension
  }

  /** The generated name ends with the original's suffix from its last dot
      on, exactly as written (case included), so it keeps the original's
      extension. */
  lemma GeneratedNameKeepsExtension(caseNumber: string, name: string, index: int, millis: nat)
    requires '.' in name
    ensures var r := GenerateAdditionalFileName(caseNumber, Some(name), index, millis);
      var suffix := name[LastIndexOf(name, '.')..];
      && |suffix| <= |r| && r[|r| - |suffix|..] == suffix
      && GetFileExtension(Some(r)) == GetFileExtension(Some(name))
  {
    var k := LastIndexOf(name, '.');
    LastIndexOfTail(name, '.');
    var prefix := caseNumber + "_additional_" + IntToString(index) + "_" + NatToString(millis);
    var r := GenerateAdditionalFileName(caseNumber, Some(name), index, millis);
    assert r == prefix + name[k..];
    assert r[|r| - |name[k..]|..] == name[k..];
    ExtensionOfDotted(prefix, name[k..]);
    ExtensionOfDotted(name[..k], name[k..]);
  }

  class PdfService {
    /** The case table, keyed by case number. */
    var cases: map<string, LegacyCase>
    /** The names present in the upload directory. */
    var disk: set<string>
    /** The article table, keyed by id. */
    var articles: map<int, Article>

    constructor (cases: map<string, LegacyCase>, disk: set<string>, articles: map<int, Article>)
      ensures this.cases == cases && this.disk == disk && this.articles == articles
    {
      this.cases := cases;
      this.disk := disk;
      this.articles := articles;
    }

    /** `validateAndSaveFile` followed by `savePdfToStorage` for one file
        of a batch, after the emptiness check; any exception is swallowed
        by the caller, so the result says whether the name is listed. */
    method SaveOne(f: Upload) returns (name: Option<string>)
      modifies this`disk
      ensures name == SaveAs(old(disk), f)
      ensures disk == if name.Some? || PartialCopy(old(disk), f) then old(disk) + {f.originalFilename.value} else old(disk)
    {
      if f.size == 0 || !ValidateUploadedFile(Some(f), PDF_ALLOWED) {
        return None;
      }
      var fileName := f.originalFilename.value;
      if fileName in disk {
        return None;
      }
      if f.fault.CopyFails? {
        if f.fault.leavesPartial {
          disk := disk + {fileName};
        }
        return None;
      }
      disk := disk + {fileName};
      name := Some(fileName);
    }

    /** `processAdditionalFiles`: the names saved, in input order. */
    method ProcessAdditionalFiles(additionalFiles: seq<Upload>) returns (fileNames: seq<string>)
      modifies this`disk
      ensures disk == PdfRun(old(disk), additionalFiles).disk
      ensures fileNames == PdfRun(old(disk), additionalFiles).names
    {
      fileNames := [];
      ghost var created: seq<string> := [];
      if additionalFiles == [] {
        return;
      }
      for i := 0 to |additionalFiles|
        invariant Saved(disk, fileNames, created) == PdfRun(old(disk), additionalFiles[..i])
      {
        assert additionalFiles[..i + 1][..i] == additionalFiles[..i];
        ghost var before := disk;
        var name := SaveOne(additionalFiles[i]);
        if name.Some? {
          fileNames := fileNames + [name.value];
          created := created + [name.value];
        } else if PartialCopy(before, additionalFiles[i]) {
          created := created + [additionalFiles[i].originalFilename.value];
        }
      }
      assert additionalFiles[..|additionalFiles|] == additionalFiles;
    }

    /** `uploadCaseWithPdf`: refuses an existing number before writing
        anything; otherwise saves the files first, then the new case with
        the resolved article, status false, info 0 and the saved names. */
    method UploadCaseWithPdf(request: UploadCaseRequest, additionalFiles: seq<Upload>, clock: Clock)
      returns (r: Result<LegacyCase>)
      modifies this
      ensures articles == old(articles)
      ensures request.number in old(cases) ==>
        r == Err(IllegalArgumentException) && cases == old(cases) && disk == old(disk)
      ensures request.number !in old(cases) ==>
        var s := PdfRun(old(disk), additionalFiles);
        && r == Ok(LegacyCase(request.number, request.author, request.investigator, request.policeman,
                              request.caseObject, ResolveArticle(request.articles, old(articles)),
                              clock.today, false, 0, Some(s.names)))
        && cases == old(cases)[request.number := r.value]
        && disk == s.disk
    {
      if request.number in cases {
        return Err(IllegalArgumentException);
      }
      var article := ResolveArticle(request.articles, articles);
      var additionalFileNames := ProcessAdditionalFiles(additionalFiles);
      var newCase := LegacyCase(request.number, request.author, request.investigator, request.policeman,
                                request.caseObject, article, clock.today, false, 0, Some(additionalFileNames));
      cases := cases[request.number := newCase];
      r := Ok(newCase);
    }

    /** `addAdditionalFilesToCase`: refuses a missing case; otherwise
        appends the names saved from the batch to the case's list (a missing
        list counts as empty). */
    method AddAdditionalFilesToCase(caseNumber: string, additionalFiles: seq<Upload>) returns (r: Result<LegacyCase>)
      modifies this
      ensures articles == old(articles)
      ensures caseNumber !in old(cases) ==>
        r == Err(IllegalArgumentException) && cases == old(cases) && disk == old(disk)
      ensures caseNumber in old(cases) ==>
        var s := PdfRun(old(disk), additionalFiles);
        && r == Ok(old(cases)[caseNumber].(adds := Some(old(cases)[caseNumber].adds.GetOr([]) + s.names)))
        && cases == old(cases)[caseNumber := r.value]
        && disk == s.disk
    {
      if caseNumber !in cases {
        return Err(IllegalArgumentException);
      }
      var existingCase := cases[caseNumber];
      var existingFileNames := existingCase.adds.GetOr([]);
      var saved := ProcessAdditionalFiles(additionalFiles);
      existingCase := existingCase.(adds := Some(existingFileNames + saved));
      cases := cases[caseNumber := existingCase];
      r := Ok(existingCase);
    }

    /** `deleteAdditionalFileByName`: the case must exist and list the
        name; the disk file is deleted if present (an I/O error aborts
        before the list changes), then the first occurrence of the name
        leaves the list. */
    method DeleteAdditionalFileByName(caseNumber: string, fileName: string, diskFault: bool) returns (r: Outcome)
      modifies this
      ensures articles == old(articles)
      ensures caseNumber !in old(cases) ==>
        r == Fail(IllegalArgumentException) && cases == old(cases) && disk == old(disk)
      ensures caseNumber in old(cases) && (old(cases)[caseNumber].adds.None? || fileName !in old(cases)[caseNumber].adds.value) ==>
        r == Fail(IllegalArgumentException) && cases == old(cases) && disk == old(disk)
      ensures caseNumber in old(cases) && old(cases)[caseNumber].adds.Some? && fileName in old(cases)[caseNumber].adds.value ==>
        if diskFault then
          r == Fail(RuntimeException) && cases == old(cases) && disk == old(disk)
        else
          && r == Done
          && disk == old(disk) - {fileName}
          && cases == old(cases)[caseNumber := old(cases)[caseNumber].(adds := Some(RemoveFirst(old(cases)[caseNumber].adds.value, fileName)))]
    {
      if caseNumber !in cases {
        return Fail(IllegalArgumentException);
      }
      var existingCase := cases[caseNumber];
      if existingCase.adds.None? || fileName !in existingCase.adds.value {
        return Fail(IllegalArgumentException);
      }
      if diskFault {
        return Fail(RuntimeException);
      }
      disk := disk - {fileName};
      var additionalFiles := RemoveFirst(existingCase.adds.value, fileName);
      cases := cases[caseNumber := existingCase.(adds := Some(additionalFiles))];
      r := Done;
    }
  }
}
