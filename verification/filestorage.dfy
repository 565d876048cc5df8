/** The current file service: uploading a new case with files, adding files
    to an existing case, and deleting one file of a case by record id. The
    metadata store is modelled by the multiset of stored file names (the
    `file_name` column, across all cases), the upload directory by the set of
    names present in it; the two are written one after the other, never
    together. */
module FileStorage {
  import opened Basics
  import opened Seqs
  import opened Entities
  import opened FileNames

  /** What one batch step sees and changes: the metadata names, the upload
      directory, the next record id, and the file list of the target case. */
  datatype Stores = Stores(db: multiset<string>, disk: set<string>, nextId: int, files: seq<CaseFile>)

  /** How far one file of a batch got: skipped as empty, rejected by the gate,
      failed to write (possibly leaving a partial file under its name),
      written to disk with its record insert failing, or written and
      recorded. */
  datatype Attempt =
    | Skipped
    | Rejected
    | WriteFailed(partial: Option<string>)
    | WrittenOnly(name: string)
    | Persisted(record: CaseFile)

  /** The progress of a batch: the stores, the names written to disk in
      input order (the tracking variant returns them), the number of
      records saved (the add variant counts them), and every name the batch
      created in the directory, partial files of failed copies included. */
  datatype Batch = Batch(stores: Stores, names: seq<string>, saved: nat, created: seq<string>)

  /** One file of a batch: allocate a name, pass the gate, copy to the upload
      directory (which fails if the name is there already), insert the record. */
  function Try(st: Stores, f: Upload, caseNumber: string, uploadedBy: Option<string>, clock: Clock): (a: Attempt)
    ensures a.Skipped? <==> f.size == 0
    ensures a.Rejected? <==> f.size > 0 && !ValidateUploadedFile(Some(f), FILE_ALLOWED)
    ensures a.WriteFailed? && a.partial.Some? ==> a.partial.value !in st.disk && f.fault == CopyFails(true)
    ensures a.WrittenOnly? ==> a.name !in st.disk && f.fault.RecordSaveFails?
    ensures a.Persisted? ==>
      && a.record.fileName !in st.disk && a.record.id == st.nextId
      && a.record.caseNumber == caseNumber && f.fault.NoFault?
  {
    if f.size == 0 then Skipped
    else
      var name := UniqueFileName(f.originalFilename, st.db, st.disk, clock.stamp, clock.millis);
      if !ValidateUploadedFile(Some(f), FILE_ALLOWED) then Rejected
      else if name in st.disk then WriteFailed(None)
      else if f.fault.CopyFails? then WriteFailed(if f.fault.leavesPartial then Some(name) else None)
      else if f.fault.RecordSaveFails? then WrittenOnly(name)
      else Persisted(CaseFile(st.nextId, name, None, f.originalFilename, f.size,
                              GetFileExtension(f.originalFilename), clock.now, uploadedBy, caseNumber))
  }

  /** The effect of an attempt on the stores. */
  function Apply(st: Stores, a: Attempt): Stores
  {
    match a
    case WriteFailed(partial) => if partial.Some? then st.(disk := st.disk + {partial.value}) else st
    case WrittenOnly(name) => st.(disk := st.disk + {name})
    case Persisted(rec) =>
      Stores(st.db + multiset{rec.fileName}, st.disk + {rec.fileName}, st.nextId + 1, st.files + [rec])
    case _ => st
  }

  /** The name an attempt wrote to disk, if any. */
  function Written(a: Attempt): seq<string>
  {
    match a
    case WrittenOnly(name) => [name]
    case Persisted(rec) => [rec.fileName]
    case _ => []
  }

  /** The name an attempt created in the directory, if any: the written
      name, or the partial file of a failed copy. */
  function Created(a: Attempt): seq<string>
  {
    match a
    case WriteFailed(partial) => if partial.Some? then [partial.value] else []
    case _ => Written(a)
  }

  /** The batch after one more attempt. */
  function Next(b: Batch, a: Attempt): Batch
  {
    Batch(Apply(b.stores, a), b.names + Written(a), b.saved + (if a.Persisted? then 1 else 0), b.created + Created(a))
  }

  /** One iteration of a batch loop. */
  function Step(b: Batch, f: Upload, caseNumber: string, uploadedBy: Option<string>, clock: Clock): Batch
  {
    Next(b, Try(b.stores, f, caseNumber, uploadedBy, clock))
  }

  /** A whole batch, file after file, each independent of the others' failures. */
  function Run(st: Stores, files: seq<Upload>, caseNumber: string, uploadedBy: Option<string>, clock: Clock): Batch
  {
    if files == [] then Batch(st, [], 0, [])
    else Step(Run(st, files[..|files| - 1], caseNumber, uploadedBy, clock), files[|files| - 1], caseNumber, uploadedBy, clock)
  }

  /** A batch one file longer is one more step. */
  lemma RunSnoc(st: Stores, files: seq<Upload>, i: nat, caseNumber: string, uploadedBy: Option<string>, clock: Clock)
    requires i < |files|
    ensures Run(st, files[..i + 1], caseNumber, uploadedBy, clock)
         == Step(Run(st, files[..i], caseNumber, uploadedBy, clock), files[i], caseNumber, uploadedBy, clock)
  {
    assert files[..i + 1][..i] == files[..i];
  }

  function NonEmptyCount(files: seq<Upload>): nat
  {
    if files == [] then 0
    else NonEmptyCount(files[..|files| - 1]) + if files[|files| - 1].size > 0 then 1 else 0
  }

  function RecordNames(recs: seq<CaseFile>): seq<string>
  {
    seq(|recs|, i requires 0 <= i < |recs| => recs[i].fileName)
  }

  /** Saved records never outnumber written names, which never outnumber the
      non-empty inputs; every saved record extends the case's list and takes
      the next id. */
  lemma {:induction false} RunCounts(st: Stores, files: seq<Upload>, caseNumber: string, uploadedBy: Option<string>, clock: Clock)
    ensures var b := Run(st, files, caseNumber, uploadedBy, clock);
      && b.saved <= |b.names| <= |b.created| <= NonEmptyCount(files)
      && |b.stores.files| == |st.files| + b.saved
      && b.stores.nextId == st.nextId + b.saved
  {
    if files != [] {
      RunCounts(st, files[..|files| - 1], caseNumber, uploadedBy, clock);
    }
  }

  /** The upload directory gains exactly the names the batch created: the
      written names, in order, and the partial files of failed copies. They
      are pairwise distinct and none of them was in the directory before,
      so no existing file is overwritten. */
  lemma {:induction false} RunDisk(st: Stores, files: seq<Upload>, caseNumber: string, uploadedBy: Option<string>, clock: Clock)
    ensures var b := Run(st, files, caseNumber, uploadedBy, clock);
      && b.stores.disk == st.disk + (set n | n in b.created)
      && NoDup(b.created)
      && (forall n :: n in b.created ==> n !in st.disk)
      && Subseq(b.names, b.created)
  {
    if files != [] {
      var prev := Run(st, files[..|files| - 1], caseNumber, uploadedBy, clock);
      RunDisk(st, files[..|files| - 1], caseNumber, uploadedBy, clock);
      var a := Try(prev.stores, files[|files| - 1], caseNumber, uploadedBy, clock);
      assert Run(st, files, caseNumber, uploadedBy, clock) == Step(prev, files[|files| - 1], caseNumber, uploadedBy, clock);
      StepDisk(prev, a);
    }
  }

  /** One attempt keeps the disk invariant of `RunDisk`. */
  lemma StepDisk(prev: Batch, a: Attempt)
    requires a.WriteFailed? && a.partial.Some? ==> a.partial.value !in prev.stores.disk
    requires a.WrittenOnly? ==> a.name !in prev.stores.disk
    requires a.Persisted? ==> a.record.fileName !in prev.stores.disk
    requires NoDup(prev.created)
    requires forall n :: n in prev.created ==> n in prev.stores.disk
    requires Subseq(prev.names, prev.created)
    ensures Apply(prev.stores, a).disk == prev.stores.disk + (set n | n in Created(a))
    ensures NoDup(prev.created + Created(a))
    ensures forall n :: n in Created(a) ==> n !in prev.stores.disk
    ensures Subseq(prev.names + Written(a), prev.created + Created(a))
  {
    CreatedShape(prev.stores, a);
    if Created(a) == [] {
      assert prev.names + Written(a) == prev.names;
      assert prev.created + Created(a) == prev.created;
    } else {
      var x := Created(a)[0];
      NoDupAppendFresh(prev.created, x, prev.stores.disk);
      if Written(a) != [] {
        SubseqAppendBoth(prev.names, prev.created, x);
      } else {
        assert prev.names + Written(a) == prev.names;
        SubseqExtend(prev.names, prev.created, x);
      }
    }
  }

  /** An attempt creates at most one file, adds exactly what it creates to
      the directory, and writes either nothing or what it created. */
  lemma CreatedShape(st: Stores, a: Attempt)
    ensures Created(a) == [] || Created(a) == [Created(a)[0]]
    ensures Written(a) == [] || Written(a) == Created(a)
    ensures Apply(st, a).disk == st.disk + (set n | n in Created(a))
  {
    if Created(a) != [] {
      assert (set n | n in Created(a)) == {Created(a)[0]};
    }
  }

  /** The case's existing files come first and unchanged. */
  ghost predicate KeepsPrefix(st: Stores, files: seq<CaseFile>) {
    |st.files| <= |files| && files[..|st.files|] == st.files
  }

  /** The metadata store gained exactly the names of the added records. */
  ghost predicate AddsToDb(st: Stores, db: multiset<string>, added: seq<CaseFile>) {
    db == st.db + multiset(RecordNames(added))
  }

  /** The added records belong to the case and carry consecutive ids from `firstId`. */
  ghost predicate CaseRun(added: seq<CaseFile>, caseNumber: string, firstId: int) {
    forall i :: 0 <= i < |added| ==> added[i].caseNumber == caseNumber && added[i].id == firstId + i
  }

  /** The records of `b` extend those of `st`: the case's existing files
      come first and unchanged, the added records belong to the case and
      carry consecutive fresh ids, their names are the written names with
      some left out (those whose record insert failed), and the metadata
      store gained exactly their names. */
  ghost predicate Extends(st: Stores, b: Batch, caseNumber: string) {
    && |b.stores.files| == |st.files| + b.saved
    && b.stores.nextId == st.nextId + b.saved
    && KeepsPrefix(st, b.stores.files)
    && AddsToDb(st, b.stores.db, b.stores.files[|st.files|..])
    && Subseq(RecordNames(b.stores.files[|st.files|..]), b.names)
    && CaseRun(b.stores.files[|st.files|..], caseNumber, st.nextId)
  }

  /** The records a batch adds extend the case's list as `Extends` says. */
  lemma {:induction false} RunRecords(st: Stores, files: seq<Upload>, caseNumber: string, uploadedBy: Option<string>, clock: Clock)
    ensures Extends(st, Run(st, files, caseNumber, uploadedBy, clock), caseNumber)
  {
    if files == [] {
      assert st.files[|st.files|..] == [];
    } else {
      var prev := Run(st, files[..|files| - 1], caseNumber, uploadedBy, clock);
      RunRecords(st, files[..|files| - 1], caseNumber, uploadedBy, clock);
      var a := Try(prev.stores, files[|files| - 1], caseNumber, uploadedBy, clock);
      assert Run(st, files, caseNumber, uploadedBy, clock) == Step(prev, files[|files| - 1], caseNumber, uploadedBy, clock);
      StepRecords(st, prev, a, caseNumber);
    }
  }

  /** A case's records are consistent with the stores when no two share a
      file name and every record's file is present in the directory. */
  predicate RecordsConsistent(files: seq<CaseFile>, disk: set<string>) {
    && NoDup(RecordNames(files))
    && forall i :: 0 <= i < |files| ==> files[i].fileName in disk
  }

  /** A batch keeps a consistent case consistent: its new records take
      names that were free on disk and distinct from each other. */
  lemma RunKeepsConsistent(st: Stores, files: seq<Upload>, caseNumber: string, uploadedBy: Option<string>, clock: Clock)
    requires RecordsConsistent(st.files, st.disk)
    ensures var b := Run(st, files, caseNumber, uploadedBy, clock);
      RecordsConsistent(b.stores.files, b.stores.disk)
  {
    RunDisk(st, files, caseNumber, uploadedBy, clock);
    RunRecords(st, files, caseNumber, uploadedBy, clock);
    ExtendsConsistent(st, Run(st, files, caseNumber, uploadedBy, clock), caseNumber);
  }

  /** A batch result whose records extend a consistent case, and whose
      directory gained distinct fresh files among which the written names
      are, leaves the case consistent. */
  lemma ExtendsConsistent(st: Stores, b: Batch, caseNumber: string)
    requires RecordsConsistent(st.files, st.disk) && Extends(st, b, caseNumber)
    requires b.stores.disk == st.disk + (set n | n in b.created)
    requires NoDup(b.created) && (forall n :: n in b.created ==> n !in st.disk)
    requires Subseq(b.names, b.created)
    ensures RecordsConsistent(b.stores.files, b.stores.disk)
  {
    var added := b.stores.files[|st.files|..];
    assert b.stores.files == st.files + added;
    BatchConsistent(st.files, added, b.names, b.created, st.disk, b.stores.disk);
  }

  /** Records named by some of the written names, which are among the
      created files, extend a consistent list consistently once the
      directory gains the created files. */
  lemma BatchConsistent(files: seq<CaseFile>, added: seq<CaseFile>, names: seq<string>, created: seq<string>,
                        disk: set<string>, disk': set<string>)
    requires RecordsConsistent(files, disk)
    requires Subseq(RecordNames(added), names) && Subseq(names, created) && NoDup(created)
    requires forall n :: n in created ==> n !in disk
    requires disk' == disk + set n | n in created
    ensures RecordsConsistent(files + added, disk')
  {
    SubseqNoDup(names, created);
    SubseqMembers(names, created);
    ConsistentAppend(files, added, names, disk);
    ConsistentGrow(files + added, disk + (set n | n in names), disk');
  }

  /** Consistency survives the directory gaining files. */
  lemma ConsistentGrow(files: seq<CaseFile>, disk: set<string>, disk': set<string>)
    requires RecordsConsistent(files, disk) && disk <= disk'
    ensures RecordsConsistent(files, disk')
  {
  }

  /** Records whose names are distinct names new to the directory, then
      written to it, extend a consistent list consistently. */
  lemma ConsistentAppend(files: seq<CaseFile>, added: seq<CaseFile>, names: seq<string>, disk: set<string>)
    requires RecordsConsistent(files, disk)
    requires Subseq(RecordNames(added), names) && NoDup(names)
    requires forall n :: n in names ==> n !in disk
    ensures RecordsConsistent(files + added, disk + set n | n in names)
  {
    var all := files + added;
    assert RecordNames(all) == RecordNames(files) + RecordNames(added);
    SubseqNoDup(RecordNames(added), names);
    SubseqMembers(RecordNames(added), names);
    forall x | x in RecordNames(files)
      ensures x !in RecordNames(added)
    {
      var i :| 0 <= i < |files| && RecordNames(files)[i] == x;
      assert files[i].fileName in disk;
    }
    NoDupConcat(RecordNames(files), RecordNames(added));
    forall i | 0 <= i < |all|
      ensures all[i].fileName in disk + set n | n in names
    {
      if i >= |files| {
        assert RecordNames(added)[i - |files|] == all[i].fileName;
      }
    }
  }

  /** Deleting a record of a consistent case keeps it consistent, and no
      remaining record refers to the deleted file. */
  lemma DeleteKeepsConsistent(files: seq<CaseFile>, disk: set<string>, id: int)
    requires RecordsConsistent(files, disk) && HasId(files, id)
    ensures var k := IndexOfId(files, id);
      && RecordsConsistent(files[..k] + files[k + 1..], disk - {files[k].fileName})
      && files[k].fileName !in RecordNames(files[..k] + files[k + 1..])
  {
    var k := IndexOfId(files, id);
    var rest := files[..k] + files[k + 1..];
    RecordNamesCut(files, k);
    NoDupCut(RecordNames(files), k);
    forall i | 0 <= i < |rest|
      ensures rest[i].fileName in disk - {files[k].fileName}
    {
      assert RecordNames(rest)[i] == rest[i].fileName;
      assert rest[i] in files;
    }
  }

  /** The names of a list with one position cut out. */
  lemma RecordNamesCut(files: seq<CaseFile>, k: nat)
    requires k < |files|
    ensures RecordNames(files[..k] + files[k + 1..]) == RecordNames(files)[..k] + RecordNames(files)[k + 1..]
    ensures RecordNames(files)[k] == files[k].fileName
  {
  }

  /** One attempt keeps `Extends`. */
  lemma StepRecords(st: Stores, prev: Batch, a: Attempt, caseNumber: string)
    requires Extends(st, prev, caseNumber)
    requires a.Persisted? ==> a.record.id == prev.stores.nextId && a.record.caseNumber == caseNumber
    ensures Extends(st, Next(prev, a), caseNumber)
  {
    var added := prev.stores.files[|st.files|..];
    match a
    case Persisted(rec) =>
      PersistKeepsExtends(st, prev, rec, caseNumber);
    case WrittenOnly(name) =>
      SubseqExtend(RecordNames(added), prev.names, name);
      assert Apply(prev.stores, a).files == prev.stores.files;
    case _ =>
      assert prev.names + Written(a) == prev.names;
      assert Apply(prev.stores, a).(disk := prev.stores.disk) == prev.stores;
  }

  lemma PersistKeepsExtends(st: Stores, prev: Batch, rec: CaseFile, caseNumber: string)
    requires Extends(st, prev, caseNumber)
    requires rec.id == prev.stores.nextId && rec.caseNumber == caseNumber
    ensures Extends(st, Next(prev, Persisted(rec)), caseNumber)
  {
    var files := prev.stores.files;
    var added := files[|st.files|..];
    DropAppend(files, |st.files|, rec);
    PrefixAppend(st, files, rec);
    DbAppend(st, prev.stores.db, added, rec);
    NamesAppend(added, prev.names, rec);
    CaseRunAppend(added, caseNumber, st.nextId, rec);
  }

  lemma PrefixAppend(st: Stores, files: seq<CaseFile>, rec: CaseFile)
    requires KeepsPrefix(st, files)
    ensures KeepsPrefix(st, files + [rec])
  {
    assert (files + [rec])[..|st.files|] == files[..|st.files|];
  }

  lemma DbAppend(st: Stores, db: multiset<string>, added: seq<CaseFile>, rec: CaseFile)
    requires AddsToDb(st, db, added)
    ensures AddsToDb(st, db + multiset{rec.fileName}, added + [rec])
  {
    assert RecordNames(added + [rec]) == RecordNames(added) + [rec.fileName];
  }

  lemma NamesAppend(added: seq<CaseFile>, names: seq<string>, rec: CaseFile)
    requires Subseq(RecordNames(added), names)
    ensures Subseq(RecordNames(added + [rec]), names + [rec.fileName])
  {
    assert RecordNames(added + [rec]) == RecordNames(added) + [rec.fileName];
    SubseqAppendBoth(RecordNames(added), names, rec.fileName);
  }

  lemma CaseRunAppend(added: seq<CaseFile>, caseNumber: string, firstId: int, rec: CaseFile)
    requires CaseRun(added, caseNumber, firstId)
    requires rec.caseNumber == caseNumber && rec.id == firstId + |added|
    ensures CaseRun(added + [rec], caseNumber, firstId)
  {
    forall i | 0 <= i < |added| + 1
      ensures (added + [rec])[i].caseNumber == caseNumber && (added + [rec])[i].id == firstId + i
    {
      if i < |added| {
        assert (added + [rec])[i] == added[i];
      }
    }
  }

  /** A file that is empty or fails the gate changes nothing, so a batch
      with it behaves exactly like the batch without it: one file's
      rejection neither blocks nor alters its siblings. */
  lemma {:induction false} RunSkipsUnusable(st: Stores, pre: seq<Upload>, f: Upload, post: seq<Upload>,
                                            caseNumber: string, uploadedBy: Option<string>, clock: Clock)
    requires f.size == 0 || !ValidateUploadedFile(Some(f), FILE_ALLOWED)
    ensures Run(st, pre + [f] + post, caseNumber, uploadedBy, clock) == Run(st, pre + post, caseNumber, uploadedBy, clock)
    decreases |post|
  {
    if post == [] {
      RunSkipsLast(st, pre, f, caseNumber, uploadedBy, clock);
    } else {
      RunSkipsUnusable(st, pre, f, post[..|post| - 1], caseNumber, uploadedBy, clock);
      RunSkipsExtend(st, pre, f, post, caseNumber, uploadedBy, clock);
    }
  }

  /** The base case: an unusable file at the end of a batch changes nothing. */
  lemma RunSkipsLast(st: Stores, pre: seq<Upload>, f: Upload, caseNumber: string, uploadedBy: Option<string>, clock: Clock)
    requires f.size == 0 || !ValidateUploadedFile(Some(f), FILE_ALLOWED)
    ensures Run(st, pre + [f] + [], caseNumber, uploadedBy, clock) == Run(st, pre + [], caseNumber, uploadedBy, clock)
  {
    assert pre + [f] + [] == pre + [f];
    assert pre + [] == pre;
    RunAppend(st, pre, f, caseNumber, uploadedBy, clock);
    StepSkips(Run(st, pre, caseNumber, uploadedBy, clock), f, caseNumber, uploadedBy, clock);
  }

  /** The inductive step: the equality survives one more file after the skipped one. */
  lemma RunSkipsExtend(st: Stores, pre: seq<Upload>, f: Upload, post: seq<Upload>,
                       caseNumber: string, uploadedBy: Option<string>, clock: Clock)
    requires post != []
    requires Run(st, pre + [f] + post[..|post| - 1], caseNumber, uploadedBy, clock)
          == Run(st, pre + post[..|post| - 1], caseNumber, uploadedBy, clock)
    ensures Run(st, pre + [f] + post, caseNumber, uploadedBy, clock) == Run(st, pre + post, caseNumber, uploadedBy, clock)
  {
    var x := post[|post| - 1];
    var long := pre + [f] + post[..|post| - 1];
    var short := pre + post[..|post| - 1];
    AppendSplitLast(pre + [f], post);
    AppendSplitLast(pre, post);
    RunAppend(st, long, x, caseNumber, uploadedBy, clock);
    RunAppend(st, short, x, caseNumber, uploadedBy, clock);
  }

  /** A batch with one more file at the end is one more step. */
  lemma RunAppend(st: Stores, files: seq<Upload>, x: Upload, caseNumber: string, uploadedBy: Option<string>, clock: Clock)
    ensures Run(st, files + [x], caseNumber, uploadedBy, clock)
         == Step(Run(st, files, caseNumber, uploadedBy, clock), x, caseNumber, uploadedBy, clock)
  {
    assert (files + [x])[..|files|] == files;
  }

  /** An empty or rejected file leaves the batch as it is. */
  lemma StepSkips(b: Batch, f: Upload, caseNumber: string, uploadedBy: Option<string>, clock: Clock)
    requires f.size == 0 || !ValidateUploadedFile(Some(f), FILE_ALLOWED)
    ensures Step(b, f, caseNumber, uploadedBy, clock) == b
  {
    var a := Try(b.stores, f, caseNumber, uploadedBy, clock);
    assert a.Skipped? || a.Rejected?;
    assert b.names + [] == b.names;
    assert b.created + [] == b.created;
  }

  /** A non-empty file that passes the gate, meets no fault and asks for a
      name free in both stores is stored under that very name, with its
      extension as type. */
  lemma TryStoresFreeName(st: Stores, f: Upload, caseNumber: string, uploadedBy: Option<string>, clock: Clock)
    requires f.size > 0 && ValidateUploadedFile(Some(f), FILE_ALLOWED) && f.fault == NoFault
    requires !Taken(f.originalFilename.value, st.db, st.disk)
    ensures Try(st, f, caseNumber, uploadedBy, clock) ==
      Persisted(CaseFile(st.nextId, f.originalFilename.value, None, f.originalFilename, f.size,
                         GetFileExtension(f.originalFilename), clock.now, uploadedBy, caseNumber))
  {
  }

  /** The record with the given id is in the list. */
  predicate HasId(files: seq<CaseFile>, id: int) {
    exists k :: 0 <= k < |files| && files[k].id == id
  }

  /** The position of the first record with the given id. */
  function IndexOfId(files: seq<CaseFile>, id: int): (k: nat)
    requires HasId(files, id)
    ensures k < |files| && files[k].id == id
    ensures forall j :: 0 <= j < k ==> files[j].id != id
  {
    if files[0].id == id then 0
    else
      assert HasId(files[1..], id) by {
        var k :| 0 <= k < |files| && files[k].id == id;
        assert files[1..][k - 1].id == id;
      }
      1 + IndexOfId(files[1..], id)
  }

  /** Removing the record found by id removes exactly that position; the
      other files stay, in their order. */
  lemma RemoveRecordById(files: seq<CaseFile>, id: int)
    requires HasId(files, id)
    ensures var k := IndexOfId(files, id);
      && RemoveFirst(files, files[k]) == files[..k] + files[k + 1..]
      && |RemoveFirst(files, files[k])| == |files| - 1
  {
    var k := IndexOfId(files, id);
    RemoveFirstSplit(files, files[k]);
    IndexOfIdFirst(files, id);
  }

  /** The record found by id is also the first record equal to it. */
  lemma IndexOfIdFirst(files: seq<CaseFile>, id: int)
    requires HasId(files, id)
    ensures IndexOf(files, files[IndexOfId(files, id)]) == IndexOfId(files, id)
  {
    var k := IndexOfId(files, id);
    var j := IndexOf(files, files[k]);
    assert j <= k && files[j] == files[k];
  }

  /** `doesContainId`: a linear scan for a record with the id. */
  method DoesContainId(caseFiles: seq<CaseFile>, id: int) returns (found: bool)
    ensures found <==> HasId(caseFiles, id)
  {
    for i := 0 to |caseFiles|
      invariant forall j :: 0 <= j < i ==> caseFiles[j].id != id
    {
      if caseFiles[i].id == id {
        return true;
      }
    }
    return false;
  }

  /** The case table with one case's file list replaced, all else unchanged. */
  function WithFiles(table: map<string, Case>, caseNumber: string, files: seq<CaseFile>): map<string, Case>
    requires caseNumber in table
  {
    table[caseNumber := table[caseNumber].(caseFiles := files)]
  }

  lemma WithFilesTwice(table: map<string, Case>, caseNumber: string, files1: seq<CaseFile>, files2: seq<CaseFile>)
    requires caseNumber in table
    ensures WithFiles(WithFiles(table, caseNumber, files1), caseNumber, files2) == WithFiles(table, caseNumber, files2)
  {
  }

  class FileService {
    /** The case table, keyed by case number, each case with its files. */
    var cases: map<string, Case>
    /** The `file_name` values of all file records. */
    var dbNames: multiset<string>
    /** The names present in the upload directory. */
    var disk: set<string>
    /** The id the next inserted file record receives. */
    var nextId: int

    constructor (cases: map<string, Case>, dbNames: multiset<string>, disk: set<string>, nextId: int)
      ensures this.cases == cases && this.dbNames == dbNames && this.disk == disk && this.nextId == nextId
    {
      this.cases := cases;
      this.dbNames := dbNames;
      this.disk := disk;
      this.nextId := nextId;
    }

    /** The stores as one batch step sees them for the given case. */
    function StoresOf(caseNumber: string): Stores
      reads this
      requires caseNumber in cases
    {
      Stores(dbNames, disk, nextId, cases[caseNumber].caseFiles)
    }

    /** The body of either batch loop for one non-empty file (its try block),
        or nothing for an empty one. */
    method StoreOne(caseNumber: string, f: Upload, uploadedBy: Option<string>, clock: Clock) returns (a: Attempt)
      requires caseNumber in cases
      modifies this
      ensures a == Try(old(StoresOf(caseNumber)), f, caseNumber, uploadedBy, clock)
      ensures caseNumber in cases
      ensures cases == WithFiles(old(cases), caseNumber, cases[caseNumber].caseFiles)
      ensures var st := Apply(old(StoresOf(caseNumber)), a);
        dbNames == st.db && disk == st.disk && nextId == st.nextId && cases[caseNumber].caseFiles == st.files
    {
      if f.size == 0 {
        return Skipped;
      }
      var uniqueFileName := GenerateUniqueFileName(f.originalFilename, dbNames, disk, clock.stamp, clock.millis);
      if !ValidateUploadedFile(Some(f), FILE_ALLOWED) {
        return Rejected;
      }
      if uniqueFileName in disk {
        return WriteFailed(None);
      }
      a := WriteAndRecord(caseNumber, f, uniqueFileName, uploadedBy, clock);
    }

    /** Copying the file under its allocated name (a failing copy may leave
        a partial file), then inserting its record unless that insert fails. */
    method WriteAndRecord(caseNumber: string, f: Upload, name: string, uploadedBy: Option<string>, clock: Clock)
      returns (a: Attempt)
      requires caseNumber in cases
      modifies this
      ensures a == if f.fault.CopyFails? then WriteFailed(if f.fault.leavesPartial then Some(name) else None)
        else if f.fault.RecordSaveFails? then WrittenOnly(name)
        else Persisted(CaseFile(old(nextId), name, None, f.originalFilename, f.size,
                                GetFileExtension(f.originalFilename), clock.now, uploadedBy, caseNumber))
      ensures caseNumber in cases
      ensures cases == WithFiles(old(cases), caseNumber, cases[caseNumber].caseFiles)
      ensures var st := Apply(old(StoresOf(caseNumber)), a);
        dbNames == st.db && disk == st.disk && nextId == st.nextId && cases[caseNumber].caseFiles == st.files
    {
      if f.fault.CopyFails? {
        if f.fault.leavesPartial {
          disk := disk + {name};
          return WriteFailed(Some(name));
        }
        return WriteFailed(None);
      }
      disk := disk + {name};
      if f.fault.RecordSaveFails? {
        return WrittenOnly(name);
      }
      var caseFile := CaseFile(nextId, name, None, f.originalFilename, f.size,
                               GetFileExtension(f.originalFilename), clock.now, uploadedBy, caseNumber);
      SaveRecord(caseNumber, caseFile);
      a := Persisted(caseFile);
    }

    /** Inserting a file record: the metadata store gains its name, the id
        counter moves on, and the record joins the end of the case's list. */
    method SaveRecord(caseNumber: string, caseFile: CaseFile)
      requires caseNumber in cases
      modifies this
      ensures caseNumber in cases
      ensures cases == WithFiles(old(cases), caseNumber, old(cases)[caseNumber].caseFiles + [caseFile])
      ensures dbNames == old(dbNames) + multiset{caseFile.fileName}
      ensures nextId == old(nextId) + 1
      ensures disk == old(disk)
    {
      dbNames := dbNames + multiset{caseFile.fileName};
      nextId := nextId + 1;
      var c := cases[caseNumber];
      cases := cases[caseNumber := c.(caseFiles := c.caseFiles + [caseFile])];
    }

    /** `processAdditionalFilesWithTracking`: returns the names written to
        disk, in input order. */
    method ProcessAdditionalFilesWithTracking(caseNumber: string, additionalFiles: seq<Upload>,
                                              uploadedBy: Option<string>, clock: Clock)
      returns (fileNames: seq<string>)
      requires caseNumber in cases
      modifies this
      ensures caseNumber in cases
      ensures cases == WithFiles(old(cases), caseNumber, cases[caseNumber].caseFiles)
      ensures var b := Run(old(StoresOf(caseNumber)), additionalFiles, caseNumber, uploadedBy, clock);
        StoresOf(caseNumber) == b.stores && fileNames == b.names
    {
      fileNames := [];
      ghost var start := StoresOf(caseNumber);
      ghost var saved := 0;
      ghost var created: seq<string> := [];
      for i := 0 to |additionalFiles|
        invariant caseNumber in cases
        invariant cases == WithFiles(old(cases), caseNumber, cases[caseNumber].caseFiles)
        invariant Batch(StoresOf(caseNumber), fileNames, saved, created) == Run(start, additionalFiles[..i], caseNumber, uploadedBy, clock)
      {
        RunSnoc(start, additionalFiles, i, caseNumber, uploadedBy, clock);
        ghost var before := cases;
        var a := StoreOne(caseNumber, additionalFiles[i], uploadedBy, clock);
        WithFilesTwice(old(cases), caseNumber, before[caseNumber].caseFiles, cases[caseNumber].caseFiles);
        fileNames := fileNames + Written(a);
        created := created + Created(a);
        if a.Persisted? {
          saved := saved + 1;
        }
      }
      assert additionalFiles[..|additionalFiles|] == additionalFiles;
    }

    /** `uploadCaseWithFiles`: refuses an existing number before writing
        anything; otherwise saves the new case, then its files. */
    method UploadCaseWithFiles(request: UploadCaseRequest, additionalFiles: seq<Upload>, clock: Clock)
      returns (r: Result<Case>, fileNames: seq<string>)
      modifies this
      ensures request.number in old(cases) ==>
        && r == Err(IllegalArgumentException) && fileNames == []
        && cases == old(cases) && dbNames == old(dbNames) && disk == old(disk) && nextId == old(nextId)
      ensures request.number !in old(cases) ==>
        var b := Run(Stores(old(dbNames), old(disk), old(nextId), []), additionalFiles, request.number, request.author, clock);
        && r == Ok(Case(request.number, request.author, request.investigator, request.policeman,
                        request.caseObject, clock.today, b.stores.files))
        && cases == old(cases)[request.number := r.value]
        && dbNames == b.stores.db && disk == b.stores.disk && nextId == b.stores.nextId
        && fileNames == b.names
    {
      if request.number in cases {
        return Err(IllegalArgumentException), [];
      }
      var newCase := Case(request.number, request.author, request.investigator, request.policeman,
                          request.caseObject, clock.today, []);
      cases := cases[request.number := newCase];
      fileNames := ProcessAdditionalFilesWithTracking(request.number, additionalFiles, request.author, clock);
      r := Ok(cases[request.number]);
    }

    /** `addAdditionalFilesToCase`: refuses a missing case before writing
        anything; otherwise stores each file independently and counts the
        saved records. */
    method AddAdditionalFilesToCase(caseNumber: string, additionalFiles: seq<Upload>,
                                    uploadedBy: Option<string>, clock: Clock)
      returns (r: Result<Case>, successCount: nat)
      modifies this
      ensures caseNumber !in old(cases) ==>
        && r == Err(IllegalArgumentException) && successCount == 0
        && cases == old(cases) && dbNames == old(dbNames) && disk == old(disk) && nextId == old(nextId)
      ensures caseNumber in old(cases) ==>
        var b := Run(old(StoresOf(caseNumber)), additionalFiles, caseNumber, uploadedBy, clock);
        && caseNumber in cases
        && StoresOf(caseNumber) == b.stores && successCount == b.saved
        && cases == old(cases)[caseNumber := old(cases)[caseNumber].(caseFiles := b.stores.files)]
        && r == Ok(cases[caseNumber])
    {
      if caseNumber !in cases {
        return Err(IllegalArgumentException), 0;
      }
      successCount := 0;
      ghost var start := StoresOf(caseNumber);
      ghost var names: seq<string> := [];
      ghost var created: seq<string> := [];
      for i := 0 to |additionalFiles|
        invariant caseNumber in cases
        invariant cases == WithFiles(old(cases), caseNumber, cases[caseNumber].caseFiles)
        invariant Batch(StoresOf(caseNumber), names, successCount, created) == Run(start, additionalFiles[..i], caseNumber, uploadedBy, clock)
      {
        RunSnoc(start, additionalFiles, i, caseNumber, uploadedBy, clock);
        ghost var before := cases;
        var a := StoreOne(caseNumber, additionalFiles[i], uploadedBy, clock);
        WithFilesTwice(old(cases), caseNumber, before[caseNumber].caseFiles, cases[caseNumber].caseFiles);
        names := names + Written(a);
        created := created + Created(a);
        if a.Persisted? {
          successCount := successCount + 1;
        }
      }
      assert additionalFiles[..|additionalFiles|] == additionalFiles;
      r := Ok(cases[caseNumber]);
    }

    /** `deleteAdditionalFileById`: the case and a record with the id in its
        list must exist; the disk file is deleted if present (an I/O error
        aborts before any other change), then the record leaves the case's
        list and the metadata store. */
    method DeleteAdditionalFileById(caseNumber: string, id: int, diskFault: bool) returns (r: Outcome)
      modifies this
      ensures nextId == old(nextId)
      ensures caseNumber !in old(cases) ==>
        r == Fail(IllegalArgumentException) && cases == old(cases) && dbNames == old(dbNames) && disk == old(disk)
      ensures caseNumber in old(cases) && !HasId(old(cases)[caseNumber].caseFiles, id) ==>
        r == Fail(IllegalArgumentException) && cases == old(cases) && dbNames == old(dbNames) && disk == old(disk)
      ensures caseNumber in old(cases) && HasId(old(cases)[caseNumber].caseFiles, id) && diskFault ==>
        r == Fail(RuntimeException) && cases == old(cases) && dbNames == old(dbNames) && disk == old(disk)
      ensures caseNumber in old(cases) && HasId(old(cases)[caseNumber].caseFiles, id) && !diskFault ==>
        var files := old(cases)[caseNumber].caseFiles;
        var k := IndexOfId(files, id);
        && r == Done
        && disk == old(disk) - {files[k].fileName}
        && dbNames == old(dbNames) - multiset{files[k].fileName}
        && cases == old(cases)[caseNumber := old(cases)[caseNumber].(caseFiles := files[..k] + files[k + 1..])]
    {
      if caseNumber !in cases {
        return Fail(IllegalArgumentException);
      }
      var existingCase := cases[caseNumber];
      var additionalFiles := existingCase.caseFiles;
      var contained := DoesContainId(additionalFiles, id);
      if !contained {
        return Fail(IllegalArgumentException);
      }
      var caseFile := additionalFiles[IndexOfId(additionalFiles, id)];
      if diskFault {
        return Fail(RuntimeException);
      }
      disk := disk - {caseFile.fileName};
      RemoveRecordById(additionalFiles, id);
      additionalFiles := RemoveFirst(additionalFiles, caseFile);
      cases := cases[caseNumber := existingCase.(caseFiles := additionalFiles)];
      dbNames := dbNames - multiset{caseFile.fileName};
      r := Done;
    }
  }
}
