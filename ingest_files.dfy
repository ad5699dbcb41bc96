/**
 * `processPapers` and `getNextReferenceNumber`: each PDF of the papers
 * directory is read, parsed, sent to the analyst with the next reference
 * number, and its `insert_paper` call recorded under that number; every file
 * counts once, as a success or as an error.
 */
module PaperProcessing {
  import opened Wrappers
  import opened Sets
  import opened Schema
  import opened Statements
  import opened IngestStatements
  import opened PaperRecord

  /** `getNextReferenceNumber` given `MAX(reference_number)`: a NULL (or zero) maximum gives 1. */
  function NextReference(max: Option<int>): int {
    match max
    case None => 1
    case Some(m) => if m == 0 then 1 else m + 1
  }

  /** The number handed out is never a stored reference number, so the paper insert cannot clash on it. */
  lemma NextReferenceIsFresh(t: Tables)
    ensures NextReference(MaxReferenceNumber(t)) !in RefSet(t)
  {
  }

  /** What reading and parsing a file gave: only a parsed file goes on. */
  datatype FileInput = Unreadable | Unparsable | Parsed(text: string)

  /** A directory entry and its contents. */
  datatype PaperFile = PaperFile(name: string, input: FileInput)

  /** What the analyst is asked: the file, the reference number the prompt fixes, and the extracted text. */
  datatype PaperRequest = PaperRequest(file: string, referenceNumber: int, text: string)

  /** A function call in the analyst's reply. */
  datatype PaperCall = PaperCall(name: string, args: Extraction)

  /** The analyst's reply: a thrown error, or the function calls it made (maybe none). */
  datatype PaperReply = PaperCallFailed | PaperReplied(calls: seq<PaperCall>)

  /** The analyst (the Gemini model), as a function of the request. */
  type Analyst = PaperRequest -> PaperReply

  /** `file.endsWith('.pdf')`. */
  predicate IsPdf(name: string) {
    |name| >= 4 && name[|name| - 4..] == ".pdf"
  }

  /** The directory listing filtered to PDF files, in listing order. */
  function PdfFiles(files: seq<PaperFile>): (r: seq<PaperFile>)
    ensures forall f :: f in r <==> f in files && IsPdf(f.name)
    ensures |r| <= |files|
  {
    if files == [] then []
    else if IsPdf(files[0].name) then [files[0]] + PdfFiles(files[1..])
    else PdfFiles(files[1..])
  }

  /** `paper_title && authors && themes`: a non-empty title and author string, and a themes array. */
  predicate Complete(x: Extraction) {
    x.title.Some? && x.title.value != "" && x.authors.Some? && x.authors.value != "" && x.themes.Some?
  }

  /** The extraction to record: the first call must be `insert_paper` with complete arguments. */
  function Accepted(reply: PaperReply): (r: Option<Extraction>)
    ensures r.Some? <==>
      reply.PaperReplied? && |reply.calls| > 0 && reply.calls[0].name == "insert_paper" && Complete(reply.calls[0].args)
    ensures r.Some? ==> r.value == reply.calls[0].args
  {
    if reply.PaperReplied? && |reply.calls| > 0 && reply.calls[0].name == "insert_paper" && Complete(reply.calls[0].args)
    then Some(reply.calls[0].args)
    else None
  }

  /** The extraction with the reference number the caller chose, whatever the analyst returned. */
  function Corrected(x: Extraction, n: int): (r: Extraction)
    ensures r.referenceNumber == Some(n)
    ensures r.(referenceNumber := x.referenceNumber) == x
  {
    x.(referenceNumber := Some(n))
  }

  /** The tables after one file, and whether it counted as a success. */
  datatype FileOutcome = FileOutcome(tables: Tables, saved: bool)

  /**
   * One file: unreadable, unparsable and rejected files write nothing and
   * count as errors; an accepted extraction is recorded and counts as a
   * success unless the write threw.
   */
  ghost function HandleFile(t: Tables, f: PaperFile, analyst: Analyst): FileOutcome {
    match f.input
    case Unreadable => FileOutcome(t, false)
    case Unparsable => FileOutcome(t, false)
    case Parsed(text) =>
      var next := NextReference(MaxReferenceNumber(t));
      match Accepted(analyst(PaperRequest(f.name, next, text)))
      case None => FileOutcome(t, false)
      case Some(x) =>
        var w := InsertPaperResult(t, Corrected(x, next));
        FileOutcome(w.tables, w.failure.None?)
  }

  /** The final tables and the three counters of the summary. */
  datatype Tally = Tally(tables: Tables, processed: nat, success: nat, errors: nat)

  /** The files in order, counting each once. */
  ghost function ProcessFiles(t: Tables, files: seq<PaperFile>, analyst: Analyst): Tally
    decreases |files|
  {
    if files == [] then Tally(t, 0, 0, 0)
    else
      var o := HandleFile(t, files[0], analyst);
      var rest := ProcessFiles(o.tables, files[1..], analyst);
      Tally(rest.tables, rest.processed + 1, rest.success + (if o.saved then 1 else 0),
        rest.errors + (if o.saved then 0 else 1))
  }

  /** `processPapers`: an unreadable directory returns before any file; otherwise its PDF files. */
  ghost function ProcessPapers(t: Tables, listing: Option<seq<PaperFile>>, analyst: Analyst): Option<Tally> {
    match listing
    case None => None
    case Some(files) => Some(ProcessFiles(t, PdfFiles(files), analyst))
  }

  /** Every file counts once, as a success or an error; the tables keep their constraints and rows. */
  lemma {:induction false} ProcessFilesCounts(t: Tables, files: seq<PaperFile>, analyst: Analyst)
    requires Valid(t)
    ensures var r := ProcessFiles(t, files, analyst);
      r.processed == |files| && r.success + r.errors == r.processed && Valid(r.tables) && Extends(t, r.tables)
    decreases |files|
  {
    if files == [] {
      ExtendsReflexive(t);
    } else {
      var o := HandleFile(t, files[0], analyst);
      HandleFileValid(t, files[0], analyst);
      ProcessFilesCounts(o.tables, files[1..], analyst);
      ExtendsTransitive(t, o.tables, ProcessFiles(o.tables, files[1..], analyst).tables);
    }
  }

  lemma HandleFileValid(t: Tables, f: PaperFile, analyst: Analyst)
    requires Valid(t)
    ensures Valid(HandleFile(t, f, analyst).tables) && Extends(t, HandleFile(t, f, analyst).tables)
  {
    if f.input.Parsed? {
      var next := NextReference(MaxReferenceNumber(t));
      var reply := analyst(PaperRequest(f.name, next, f.input.text));
      if Accepted(reply).Some? {
        InsertPaperResultValid(t, Corrected(Accepted(reply).value, next));
        return;
      }
    }
    ExtendsReflexive(t);
  }

  /**
   * A file is written only when its first call is a complete `insert_paper`;
   * otherwise it writes nothing and counts as an error.
   */
  lemma RejectedFileWritesNothing(t: Tables, f: PaperFile, analyst: Analyst)
    requires !f.input.Parsed? ||
      Accepted(analyst(PaperRequest(f.name, NextReference(MaxReferenceNumber(t)), f.input.text))).None?
    ensures HandleFile(t, f, analyst) == FileOutcome(t, false)
  {
  }

  /** An already stored title writes nothing, yet counts as a success. */
  lemma StoredTitleCountsAsSuccess(t: Tables, f: PaperFile, analyst: Analyst)
    requires f.input.Parsed?
    requires var x := Accepted(analyst(PaperRequest(f.name, NextReference(MaxReferenceNumber(t)), f.input.text)));
      x.Some? && TitleTaken(t, x.value.title.value)
    ensures HandleFile(t, f, analyst) == FileOutcome(t, true)
  {
  }

  /**
   * A new title is stored under the number the caller chose, with the rest
   * of the extraction as the analyst gave it; the file is a success exactly
   * when no theme, subtheme or code name is NULL.
   */
  lemma NewTitleStoredWithNextReference(t: Tables, f: PaperFile, analyst: Analyst)
    requires Valid(t) && f.input.Parsed?
    requires var x := Accepted(analyst(PaperRequest(f.name, NextReference(MaxReferenceNumber(t)), f.input.text)));
      x.Some? && !TitleTaken(t, x.value.title.value)
    ensures var next := NextReference(MaxReferenceNumber(t));
      var x := Accepted(analyst(PaperRequest(f.name, next, f.input.text))).value;
      var o := HandleFile(t, f, analyst);
      o.tables.researchResults == t.researchResults[t.serials.paper := PaperOf(Corrected(x, next))] &&
      (o.saved <==> !HasNullTheme(x.themes.value))
  {
    NextReferenceIsFresh(t);
    var next := NextReference(MaxReferenceNumber(t));
    var x := Accepted(analyst(PaperRequest(f.name, next, f.input.text))).value;
    InsertPaperResultWrites(t, Corrected(x, next));
  }

  /** The stored reference numbers are exactly 1 .. MAX, with no gap. */
  ghost predicate RefsDense(t: Tables) {
    forall n {:trigger n in RefSet(t)} :: n in RefSet(t) <==> 1 <= n <= TopReference(t)
  }

  /** `MAX(reference_number)`, 0 for NULL. */
  ghost function TopReference(t: Tables): int {
    match MaxReferenceNumber(t)
    case None => 0
    case Some(m) => m
  }

  lemma EmptyTablesDense()
    ensures RefsDense(EmptyTables())
  {
    assert RefSet(EmptyTables()) == {};
  }

  /** Adding a paper adds its reference number, if it has one. */
  lemma RefSetAdd(t: Tables, t2: Tables, p: Id, paper: Paper)
    requires p !in t.researchResults && t2.researchResults == t.researchResults[p := paper]
    ensures RefSet(t2) == RefSet(t) + (if paper.referenceNumber.Some? then {paper.referenceNumber.value} else {})
  {
    var extra := if paper.referenceNumber.Some? then {paper.referenceNumber.value} else {};
    forall n | n in RefSet(t2) ensures n in RefSet(t) + extra {
      var id :| id in t2.researchResults && t2.researchResults[id].referenceNumber == Some(n);
      if id != p {
        assert id in t.researchResults;
      }
    }
    forall n | n in RefSet(t) ensures n in RefSet(t2) {
      var id :| id in t.researchResults && t.researchResults[id].referenceNumber == Some(n);
      assert id in t2.researchResults && t2.researchResults[id] == t.researchResults[id];
    }
    if paper.referenceNumber.Some? {
      assert p in t2.researchResults && t2.researchResults[p] == paper;
    }
  }

  /** Under dense numbers the next number is MAX + 1. */
  lemma NextAfterTop(t: Tables)
    requires RefsDense(t)
    ensures NextReference(MaxReferenceNumber(t)) == TopReference(t) + 1
  {
    if MaxReferenceNumber(t).Some? {
      assert MaxReferenceNumber(t).value in RefSet(t);
    }
  }

  /** A paper numbered MAX + 1 keeps the numbers dense. */
  lemma DenseAfterInsert(t: Tables, t2: Tables, p: Id, paper: Paper)
    requires RefsDense(t) && p !in t.researchResults && t2.researchResults == t.researchResults[p := paper]
    requires paper.referenceNumber == Some(TopReference(t) + 1)
    ensures RefsDense(t2)
  {
    RefSetAdd(t, t2, p, paper);
    MaxOfIs(RefSet(t2), TopReference(t) + 1);
  }

  /** One file keeps the numbers dense; a file that writes no paper consumes no number. */
  lemma HandleFileKeepsDense(t: Tables, f: PaperFile, analyst: Analyst)
    requires Valid(t) && RefsDense(t)
    ensures RefsDense(HandleFile(t, f, analyst).tables)
  {
    if f.input.Parsed? {
      var next := NextReference(MaxReferenceNumber(t));
      var x := Accepted(analyst(PaperRequest(f.name, next, f.input.text)));
      if x.Some? && !TitleTaken(t, x.value.title.value) {
        NewTitleStoredWithNextReference(t, f, analyst);
        NextAfterTop(t);
        DenseAfterInsert(t, HandleFile(t, f, analyst).tables, t.serials.paper, PaperOf(Corrected(x.value, next)));
      }
    }
  }

  /**
   * From the freshly created tables, the reference numbers stay 1 .. MAX
   * after any sequence of files: N new titles get 1 .. N.
   */
  lemma {:induction false} ProcessFilesKeepsDense(t: Tables, files: seq<PaperFile>, analyst: Analyst)
    requires Valid(t) && RefsDense(t)
    ensures RefsDense(ProcessFiles(t, files, analyst).tables)
    decreases |files|
  {
    if files != [] {
      HandleFileValid(t, files[0], analyst);
      HandleFileKeepsDense(t, files[0], analyst);
      ProcessFilesKeepsDense(HandleFile(t, files[0], analyst).tables, files[1..], analyst);
    }
  }

  /** The whole run from `dropAndCreateTables`: every file counted once, dense numbers, every constraint held. */
  lemma AnalysisRun(listing: Option<seq<PaperFile>>, analyst: Analyst)
    ensures var r := ProcessPapers(EmptyTables(), listing, analyst);
      (r.None? <==> listing.None?) &&
      (r.Some? ==>
        r.value.processed == |PdfFiles(listing.value)| && r.value.success + r.value.errors == r.value.processed &&
        Valid(r.value.tables) && RefsDense(r.value.tables))
  {
    if listing.Some? {
      EmptyTablesValid();
      EmptyTablesDense();
      ProcessFilesCounts(EmptyTables(), PdfFiles(listing.value), analyst);
      ProcessFilesKeepsDense(EmptyTables(), PdfFiles(listing.value), analyst);
    }
  }
}
