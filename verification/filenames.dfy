/** Naming and validation rules of the file services: splitting a name at
    its last dot, the upload gate, collision-free name allocation against the
    metadata store and the upload directory, and the fixed download names. */
module FileNames {
  import opened Basics
  import opened Text
  import opened Entities

  const MAX_FILE_SIZE: nat := 100 * 1024 * 1024
  /** The extensions the current file service accepts. */
  const FILE_ALLOWED: seq<string> := ["pdf", "doc", "docx", "txt", "xlsx"]
  /** The extensions the older list-of-names service accepts. */
  const PDF_ALLOWED: seq<string> := ["pdf", "doc", "docx", "txt"]
  /** The allocation loop gives up once its counter passes this bound. */
  const MAX_COUNTER: nat := 1000

  /** `getFileExtension`: the lower-cased text after the last dot, or "" for
      a null name or a name without a dot. */
  function GetFileExtension(name: Option<string>): (ext: string)
    ensures (name.None? || '.' !in name.value) ==> ext == ""
    ensures '.' !in ext
  {
    if name.None? || '.' !in name.value then ""
    else
      ToLower(name.value[LastIndexOf(name.value, '.') + 1..])
  }

  /** `getFileNameWithoutExtension`: the text before the last dot, the whole
      name when there is no dot, null for null. */
  function GetFileNameWithoutExtension(name: Option<string>): (base: Option<string>)
    ensures base.Some? <==> name.Some?
    ensures name.Some? && '.' !in name.value ==> base == name
  {
    if name.None? || '.' !in name.value then name
    else Some(name.value[..LastIndexOf(name.value, '.')])
  }

  /** A dotted name is its base, a dot and a dot-free remainder, and the
      extension is that remainder lower-cased. */
  lemma SplitAtLastDot(name: string)
    requires '.' in name
    ensures var base := GetFileNameWithoutExtension(Some(name)).value;
      var rest := name[|base| + 1..];
      && |base| < |name|
      && name == base + "." + rest
      && '.' !in rest
      && GetFileExtension(Some(name)) == ToLower(rest)
  {
    var k := LastIndexOf(name, '.');
    assert name == name[..k] + "." + name[k + 1..];
  }

  /** A name ending in a dot and a dot-free remainder has that remainder,
      lower-cased, as its extension, whatever precedes the dot. */
  lemma ExtensionOfDotted(prefix: string, dotted: string)
    requires |dotted| > 0 && dotted[0] == '.' && '.' !in dotted[1..]
    ensures GetFileExtension(Some(prefix + dotted)) == ToLower(dotted[1..])
  {
    var s := prefix + dotted;
    assert s == prefix + ['.'] + dotted[1..];
    LastIndexOfSplit(prefix, '.', dotted[1..]);
    assert s[|prefix| + 1..] == dotted[1..];
  }

  /** The text `validateUploadedFile` compares with the allow-list:
      everything after the last dot, lower-cased, or the whole name
      lower-cased when there is no dot (`lastIndexOf` gives -1). */
  function GateExtension(name: string): string {
    ToLower(name[LastIndexOf(name, '.') + 1..])
  }

  /** `validateUploadedFile` with the given allow-list. */
  function ValidateUploadedFile(file: Option<Upload>, allowed: seq<string>): (ok: bool)
    ensures ok <==>
      && file.Some?
      && 0 < file.value.size <= MAX_FILE_SIZE
      && file.value.originalFilename.Some?
      && (if '.' in file.value.originalFilename.value
          then GetFileExtension(file.value.originalFilename)
          else ToLower(file.value.originalFilename.value)) in allowed
  {
    if file.None? || file.value.size == 0 then false
    else if file.value.size > MAX_FILE_SIZE then false
    else if file.value.originalFilename.None? then false
    else
      var name := file.value.originalFilename.value;
      GateExtensionSpec(name);
      GateExtension(name) in allowed
  }

  /** The size limit is inclusive: exactly 100 MiB passes, one byte more fails. */
  lemma SizeLimitInclusive(name: string, fault: Fault)
    requires GateExtension(name) in FILE_ALLOWED
    ensures ValidateUploadedFile(Some(Upload(Some(name), MAX_FILE_SIZE, fault)), FILE_ALLOWED)
    ensures !ValidateUploadedFile(Some(Upload(Some(name), MAX_FILE_SIZE + 1, fault)), FILE_ALLOWED)
  {
  }

  /** A name without a dot is judged by its whole text: a file called "PDF"
      passes the gate, one called "report" does not. */
  lemma DotlessNames(fault: Fault)
    ensures ValidateUploadedFile(Some(Upload(Some("PDF"), 1, fault)), FILE_ALLOWED)
    ensures !ValidateUploadedFile(Some(Upload(Some("report"), 1, fault)), FILE_ALLOWED)
  {
    DotlessGate("PDF");
    DotlessGate("report");
    assert ToLower("PDF") == "pdf" by {
      assert "PDF"[1..] == "DF";
      assert "DF"[1..] == "F";
      assert "F"[1..] == "";
    }
    assert |ToLower("report")| == 6;
  }

  /** The gate compares the extension of a dotted name, and the whole
      name, lower-cased, when there is no dot. */
  lemma GateExtensionSpec(name: string)
    ensures GateExtension(name) == if '.' in name then GetFileExtension(Some(name)) else ToLower(name)
  {
    if '.' in name {
      DottedGate(name);
    } else {
      DotlessGate(name);
    }
  }

  /** With a dot, the gate compares the extension. */
  lemma DottedGate(name: string)
    requires '.' in name
    ensures GateExtension(name) == GetFileExtension(Some(name))
  {
  }

  /** Without a dot, the gate compares the whole name, lower-cased. */
  lemma DotlessGate(name: string)
    requires '.' !in name
    ensures GateExtension(name) == ToLower(name)
  {
    assert name[LastIndexOf(name, '.') + 1..] == name;
  }

  /** The older gate accepts a subset of what the current one accepts; the
      only extension that separates them is "xlsx". */
  lemma PdfGateStricter(file: Option<Upload>)
    ensures ValidateUploadedFile(file, PDF_ALLOWED) ==> ValidateUploadedFile(file, FILE_ALLOWED)
    ensures ValidateUploadedFile(file, FILE_ALLOWED) && !ValidateUploadedFile(file, PDF_ALLOWED) ==>
      GateExtension(file.value.originalFilename.value) == "xlsx"
  {
  }

  // ---------------------------------------------------------------------
  // Collision-free names

  /** The name is in use in the metadata store or in the upload directory. */
  predicate Taken(name: string, db: multiset<string>, disk: set<string>) {
    name in db || name in disk
  }

  function DotExt(ext: string): string {
    if ext == "" then "" else "." + ext
  }

  /** The candidate for counter `k`: base_stamp_k, plus the extension. */
  function Candidate(base: string, ext: string, stamp: string, k: nat): string {
    base + "_" + stamp + "_" + NatToString(k) + DotExt(ext)
  }

  /** The unchecked name used once the counter passes its bound. */
  function Fallback(base: string, ext: string, millis: nat): string {
    base + "_" + NatToString(millis) + DotExt(ext)
  }

  /** The search from counter `k` on: the first free candidate among
      k .. MAX_COUNTER-1; candidate MAX_COUNTER is built and at once replaced
      by the fallback without being checked. */
  function SearchFrom(base: string, ext: string, stamp: string, millis: nat,
                      db: multiset<string>, disk: set<string>, k: nat): string
    requires 1 <= k <= MAX_COUNTER
    decreases MAX_COUNTER - k
  {
    if k == MAX_COUNTER then Fallback(base, ext, millis)
    else if Taken(Candidate(base, ext, stamp, k), db, disk) then SearchFrom(base, ext, stamp, millis, db, disk, k + 1)
    else Candidate(base, ext, stamp, k)
  }

  /** The name `generateUniqueFileName` settles on. */
  function UniqueFileName(original: Option<string>, db: multiset<string>, disk: set<string>,
                          stamp: string, millis: nat): string
  {
    match original
    case None => "unnamed_file_" + NatToString(millis)
    case Some(name) =>
      if !Taken(name, db, disk) then name
      else SearchFrom(GetFileNameWithoutExtension(original).value, GetFileExtension(original),
                      stamp, millis, db, disk, 1)
  }

  /** Every candidate with a counter in [from, to) is taken. */
  predicate AllTaken(base: string, ext: string, stamp: string, db: multiset<string>, disk: set<string>,
                     from: nat, to: nat)
  {
    forall j :: from <= j < to ==> Taken(Candidate(base, ext, stamp, j), db, disk)
  }

  /** `r` is candidate `j`, it is free, and every candidate from `from` up to `j` is taken. */
  predicate FirstFreeCandidate(r: string, base: string, ext: string, stamp: string,
                               db: multiset<string>, disk: set<string>, from: nat, j: nat)
  {
    from <= j < MAX_COUNTER && r == Candidate(base, ext, stamp, j) && !Taken(r, db, disk)
    && AllTaken(base, ext, stamp, db, disk, from, j)
  }

  /** From counter `k`: either the result is the first free candidate at or
      after `k`, or every candidate up to the bound is taken and the result is
      the fallback. */
  lemma {:induction false} SearchFromSpec(base: string, ext: string, stamp: string, millis: nat,
                                         db: multiset<string>, disk: set<string>, k: nat)
    returns (j: nat)
    requires 1 <= k <= MAX_COUNTER
    ensures var r := SearchFrom(base, ext, stamp, millis, db, disk, k);
      || (r == Fallback(base, ext, millis) && AllTaken(base, ext, stamp, db, disk, k, MAX_COUNTER))
      || FirstFreeCandidate(r, base, ext, stamp, db, disk, k, j)
    decreases MAX_COUNTER - k
  {
    if k == MAX_COUNTER {
      j := k;
    } else if Taken(Candidate(base, ext, stamp, k), db, disk) {
      j := SearchFromSpec(base, ext, stamp, millis, db, disk, k + 1);
    } else {
      j := k;
    }
  }

  /** A free name comes back unchanged; otherwise the result is the first
      free candidate base_stamp_k[.ext] (k from 1 up, every earlier one
      taken), or, when candidates 1 .. 999 are all taken, the fallback
      base_millis[.ext], which is not checked. Anything but the fallback is
      free in both stores. */
  lemma UniqueFileNameSpec(name: string, db: multiset<string>, disk: set<string>, stamp: string, millis: nat)
    returns (j: nat)
    ensures var r := UniqueFileName(Some(name), db, disk, stamp, millis);
      var base := GetFileNameWithoutExtension(Some(name)).value;
      var ext := GetFileExtension(Some(name));
      && (!Taken(name, db, disk) ==> r == name)
      && (r != Fallback(base, ext, millis) ==> !Taken(r, db, disk))
      && (Taken(name, db, disk) ==>
          || (r == Fallback(base, ext, millis) && AllTaken(base, ext, stamp, db, disk, 1, MAX_COUNTER))
          || FirstFreeCandidate(r, base, ext, stamp, db, disk, 1, j))
  {
    var base := GetFileNameWithoutExtension(Some(name)).value;
    var ext := GetFileExtension(Some(name));
    j := SearchFromSpec(base, ext, stamp, millis, db, disk, 1);
  }

  /** Allocating the same name twice, the first result having been written in
      between, gives a different name the second time unless the second
      allocation fell back to the unchecked name. */
  lemma SecondAllocationDiffers(name: string, db1: multiset<string>, disk1: set<string>,
                                db2: multiset<string>, disk2: set<string>, stamp: string, millis: nat)
    requires UniqueFileName(Some(name), db1, disk1, stamp, millis) in disk2
    ensures var r1 := UniqueFileName(Some(name), db1, disk1, stamp, millis);
      var r2 := UniqueFileName(Some(name), db2, disk2, stamp, millis);
      r2 != r1 || r2 == Fallback(GetFileNameWithoutExtension(Some(name)).value, GetFileExtension(Some(name)), millis)
  {
    var _ := UniqueFileNameSpec(name, db2, disk2, stamp, millis);
  }

  /** `generateUniqueFileName`: check the desired name against both stores,
      then try numbered candidates until one is free or the counter passes
      its bound. */
  method GenerateUniqueFileName(original: Option<string>, db: multiset<string>, disk: set<string>,
                                stamp: string, millis: nat) returns (name: string)
    ensures name == UniqueFileName(original, db, disk, stamp, millis)
  {
    if original.None? {
      return "unnamed_file_" + NatToString(millis);
    }
    var base := GetFileNameWithoutExtension(original).value;
    var ext := GetFileExtension(original);
    var current := original.value;
    var counter := 1;
    while current in db || current in disk
      invariant 1 <= counter <= MAX_COUNTER
      invariant Taken(current, db, disk) ==>
        SearchFrom(base, ext, stamp, millis, db, disk, counter) == UniqueFileName(original, db, disk, stamp, millis)
      invariant !Taken(current, db, disk) ==> current == UniqueFileName(original, db, disk, stamp, millis)
      decreases MAX_COUNTER - counter
    {
      var s := if ext == "" then "" else "." + ext;
      current := base + "_" + stamp + "_" + NatToString(counter) + s;
      counter := counter + 1;
      if counter > MAX_COUNTER {
        current := base + "_" + NatToString(millis) + s;
        break;
      }
    }
    name := current;
  }

  // ---------------------------------------------------------------------
  // Fixed download names

  /** `determineFilename`: the digits of the case number, read as a number,
      select "documentation.pdf" for 1, 2 or 3 and nothing (null) otherwise;
      a number without digits gives "case_<number>_document.pdf". */
  function DetermineFilename(caseNumber: string): (r: Option<string>)
    ensures Digits(caseNumber) == [] ==> r == Some("case_" + caseNumber + "_document.pdf")
    ensures Digits(caseNumber) != [] ==>
      (r == Some("documentation.pdf") <==> DigitsValue(Digits(caseNumber)) in {1, 2, 3})
    ensures r == None <==> Digits(caseNumber) != [] && DigitsValue(Digits(caseNumber)) !in {1, 2, 3}
  {
    var numericPart := Digits(caseNumber);
    if numericPart != [] then
      var caseNum := DigitsValue(numericPart);
      if caseNum == 1 then Some("documentation.pdf")
      else if caseNum == 2 then Some("documentation.pdf")
      else if caseNum == 3 then Some("documentation.pdf")
      else None
    else Some("case_" + caseNumber + "_document.pdf")
  }

  /** `determineWordFilename`: the same choice with ".docx" names, except
      that a number other than 1, 2 or 3 also gets "case_<number>_document.docx". */
  function DetermineWordFilename(caseNumber: string): (r: string)
    ensures Digits(caseNumber) != [] && DigitsValue(Digits(caseNumber)) in {1, 2, 3} ==> r == "documentation.docx"
    ensures !(Digits(caseNumber) != [] && DigitsValue(Digits(caseNumber)) in {1, 2, 3}) ==>
      r == "case_" + caseNumber + "_document.docx"
  {
    var numericPart := Digits(caseNumber);
    if numericPart != [] then
      var caseNum := DigitsValue(numericPart);
      if caseNum == 1 then "documentation.docx"
      else if caseNum == 2 then "documentation.docx"
      else if caseNum == 3 then "documentation.docx"
      else "case_" + caseNumber + "_document.docx"
    else "case_" + caseNumber + "_document.docx"
  }

  /** The two download names agree up to the extension wherever the PDF one
      exists; where it is null the Word one is the per-case name. */
  lemma DownloadNamesAgree(caseNumber: string)
    ensures DetermineFilename(caseNumber) == Some("documentation.pdf") ==> DetermineWordFilename(caseNumber) == "documentation.docx"
    ensures DetermineFilename(caseNumber) == Some("case_" + caseNumber + "_document.pdf") ==>
      DetermineWordFilename(caseNumber) == "case_" + caseNumber + "_document.docx"
    ensures DetermineFilename(caseNumber) == None ==>
      DetermineWordFilename(caseNumber) == "case_" + caseNumber + "_document.docx"
  {
  }

  /** For a case number that is a plain decimal number `n`, the PDF name is
      "documentation.pdf" exactly for 1, 2 and 3 and null otherwise, and the
      Word name is "documentation.docx" or the per-case name accordingly. */
  lemma NumericCaseNumbers(n: nat)
    ensures DetermineFilename(NatToString(n)) == if 1 <= n <= 3 then Some("documentation.pdf") else None
    ensures DetermineWordFilename(NatToString(n)) ==
      if 1 <= n <= 3 then "documentation.docx" else "case_" + NatToString(n) + "_document.docx"
  {
    DigitsOfDigitString(NatToString(n));
    NatToStringRoundTrip(n);
  }

  /** Leading zeros and letters are ignored: "CASE-002" is case 2. */
  lemma DownloadNameExamples()
    ensures DetermineFilename("CASE-002") == Some("documentation.pdf")
    ensures DetermineFilename("ABC") == Some("case_ABC_document.pdf")
    ensures DetermineFilename("7") == None
    ensures DetermineWordFilename("7") == "case_7_document.docx"
  {
    DigitsOfCase002();
    DigitsOfLetters();
    DigitsOfSeven();
    PerCaseNameLiterals();
  }

  lemma PerCaseNameLiterals()
    ensures "case_" + "ABC" + "_document.pdf" == "case_ABC_document.pdf"
    ensures "case_" + "7" + "_document.docx" == "case_7_document.docx"
  {
  }

  lemma DigitsOfCase002()
    ensures Digits("CASE-002") == "002" && DigitsValue("002") == 2
  {
    assert Digits("CASE-002") == "002";
    assert "002"[..2] == "00";
    assert "00"[..1] == "0";
  }

  lemma DigitsOfLetters()
    ensures Digits("ABC") == ""
  {
    assert "ABC"[1..] == "BC";
    assert "BC"[1..] == "C";
    assert "C"[1..] == "";
  }

  lemma DigitsOfSeven()
    ensures Digits("7") == "7" && DigitsValue("7") == 7
  {
    assert Digits("7") == "7";
    assert "7"[..0] == "";
  }
}
