/** The Library class: a catalog of books, the set of their ids, and for
    each student the set of book ids issued to them. The three operations a
    user runs change these collections in place; the two data files are
    sequences of lines, read when the library is built and written after
    each successful change. */
module LibraryStore {
  import opened Text
  import opened Records
  import opened Bookkeeping

  /** The outcome of an operation: it succeeded, or one of the errors the
      library reports to the user, with nothing changed. */
  datatype Status =
    | Done
    | DuplicateId
    | BookNotFound
    | BookAlreadyIssued
    | StudentHasNoRecords
    | BookNotIssuedToStudent

  /** What display_available_books shows. */
  datatype Report =
    | CatalogEmpty
    | AllIssued
    | Listing(books: seq<Book>)

  class Library {
    var catalog: seq<Book>
    var availableBookIds: set<string>
    var issuedRecords: map<string, set<string>>

    /** The invariants the operations keep. */
    ghost predicate Valid()
      reads this
    {
      Consistent(catalog, availableBookIds, issuedRecords)
    }

    /** Builds the library from the lines of the catalog file and of the
        issued-records file; a missing file is an empty sequence. The
        issued-records file is read as the source reads it, with each book
        id kept as the line has it. The id set mirrors the catalog and no
        student has an empty set whatever the files hold; all invariants
        hold when both files are empty. Bookkeeping.ReloadKeepsConsistent
        and Bookkeeping.ReloadAsWrittenBreaks say what a reload of files the
        library saved gives under the corrected and under this reading. */
    constructor (catalogFile: seq<string>, issuedFile: seq<string>)
      ensures catalog == ParseCatalog(catalogFile)
      ensures availableBookIds == IdsOf(catalog)
      ensures issuedRecords == ParseIssuedFileAsWritten(issuedFile)
      ensures NoEmptySets(issuedRecords)
      ensures catalogFile == [] && issuedFile == [] ==> Valid()
    {
      var loaded := LoadCatalog(catalogFile);
      var records := LoadIssuedRecords(issuedFile);
      catalog := loaded;
      availableBookIds := IdsOf(loaded);
      issuedRecords := records;
    }

    /** The lines _save_catalog writes: one line per book, in catalog order.
        Records.CatalogFileRoundTrip shows they read back as the catalog. */
    method SaveCatalog() returns (lines: seq<string>)
      ensures lines == CatalogFile(catalog)
    {
      lines := [];
      for i := 0 to |catalog|
        invariant |lines| == i
        invariant forall k :: 0 <= k < i ==> lines[k] == FormatCatalogLine(catalog[k]) + "\n"
      {
        lines := lines + [FormatCatalogLine(catalog[i]) + "\n"];
      }
    }

    /** The lines _save_issued_records writes: one `student: id1,id2` line
        per student, in an order the caller cannot rely on, each listing
        that student's ids in an order the caller cannot rely on either.
        Under the corrected reading, they read back as the same records when
        every id is clean for the format. */
    method SaveIssuedRecords() returns (lines: seq<string>)
      ensures |lines| == |issuedRecords|
      ensures SavedIssuedFile(lines, issuedRecords)
      ensures CleanRecords(issuedRecords) ==> ParseIssuedFile(lines) == issuedRecords
    {
      var records := issuedRecords;
      lines := [];
      var pending := records.Keys;
      ghost var students: seq<string> := [];
      ghost var orders: seq<seq<string>> := [];
      while pending != {}
        invariant pending <= records.Keys
        invariant |students| == |orders| && lines == IssuedFile(students, orders)
        invariant forall k :: 0 <= k < |students| ==> students[k] in records && (set b | b in orders[k]) == records[students[k]]
        invariant forall t :: t in students <==> t in records && t !in pending
        invariant forall i, j :: 0 <= i < j < |students| ==> students[i] != students[j]
        decreases pending
      {
        var s :| s in pending;
        var order := Enumerate(records[s]);
        assert s !in students;
        lines := lines + [FormatIssuedLine(s, order) + "\n"];
        students, orders := students + [s], orders + [order];
        pending := pending - {s};
      }
      DistinctCount(students);
      assert (set t | t in students) == records.Keys;
      assert |records| == |records.Keys|;
      assert SavedIssuedFile(lines, records);
      if CleanRecords(records) {
        IssuedFileReadsBack(records, students, orders);
      }
    }

    /** add_book: the id is stripped and upper-cased, the title and author
        stripped and title-cased. An id already in use is rejected and
        nothing changes; otherwise exactly one book is appended, its id
        joins the id set, the issued records are untouched, and the catalog
        file is written. */
    method AddBook(rawId: string, rawTitle: string, rawAuthor: string) returns (status: Status, written: Option<seq<string>>)
      modifies this`catalog, this`availableBookIds
      ensures var id := NormalizeId(rawId);
        if id in old(availableBookIds) then
          && status == DuplicateId && written == None
          && catalog == old(catalog) && availableBookIds == old(availableBookIds)
        else
          && status == Done
          && catalog == old(catalog) + [Book(id, TitleCase(Trim(rawTitle)), TitleCase(Trim(rawAuthor)))]
          && availableBookIds == old(availableBookIds) + {id}
          && written == Some(CatalogFile(catalog))
      ensures issuedRecords == old(issuedRecords)
      ensures old(availableBookIds == IdsOf(catalog)) ==> availableBookIds == IdsOf(catalog)
      ensures old(availableBookIds == IdsOf(catalog) && UniqueIds(catalog)) ==> UniqueIds(catalog)
      ensures old(Valid()) ==> Valid()
    {
      var id := NormalizeId(rawId);
      if id in availableBookIds {
        return DuplicateId, None;
      }
      var book := Book(id, TitleCase(Trim(rawTitle)), TitleCase(Trim(rawAuthor)));
      IdsAfterAdd(catalog, book);
      if availableBookIds == IdsOf(catalog) && UniqueIds(catalog) {
        UniqueAfterAdd(catalog, book);
      }
      if Valid() {
        AddKeepsConsistent(catalog, availableBookIds, issuedRecords, book);
      }
      catalog := catalog + [book];
      availableBookIds := availableBookIds + {id};
      var lines := SaveCatalog();
      status, written := Done, Some(lines);
    }

    /** issue_book: both ids are stripped and upper-cased. A book that is not
        in the catalog, or is issued to anyone, is refused and nothing
        changes. Otherwise the book joins exactly that student's set, which
        is created if the student had none, every other entry is kept, and
        the issued-records file is written. */
    method IssueBook(rawStudent: string, rawBook: string) returns (status: Status, written: Option<seq<string>>)
      modifies this`issuedRecords
      ensures var b := NormalizeId(rawBook);
        b !in IdsOf(catalog) ==> status == BookNotFound && written == None && issuedRecords == old(issuedRecords)
      ensures var b := NormalizeId(rawBook);
        b in IdsOf(catalog) && b in IssuedIds(old(issuedRecords)) ==>
          status == BookAlreadyIssued && written == None && issuedRecords == old(issuedRecords)
      ensures var s, b := NormalizeId(rawStudent), NormalizeId(rawBook);
        b in IdsOf(catalog) && b !in IssuedIds(old(issuedRecords)) ==>
          && status == Done
          && issuedRecords == Issue(old(issuedRecords), s, b)
          && issuedRecords.Keys == old(issuedRecords).Keys + {s}
          && issuedRecords[s] == (if s in old(issuedRecords) then old(issuedRecords)[s] else {}) + {b}
          && (forall t :: t in old(issuedRecords) && t != s ==> issuedRecords[t] == old(issuedRecords)[t])
          && IssuedIds(issuedRecords) == IssuedIds(old(issuedRecords)) + {b}
      ensures written.Some? <==> status == Done
      ensures written.Some? ==> |written.value| == |issuedRecords| && SavedIssuedFile(written.value, issuedRecords)
      ensures written.Some? && CleanRecords(issuedRecords) ==> ParseIssuedFile(written.value) == issuedRecords
      ensures old(Exclusive(issuedRecords)) ==> Exclusive(issuedRecords)
      ensures old(Valid()) ==> Valid()
    {
      var s := NormalizeId(rawStudent);
      var b := NormalizeId(rawBook);
      var bookExists := exists i :: 0 <= i < |catalog| && catalog[i].id == b;
      if !bookExists {
        return BookNotFound, None;
      }
      var records := issuedRecords;
      var isIssued := FindIssued(records, b);
      if isIssued {
        return BookAlreadyIssued, None;
      }
      assert b in IdsOf(catalog);
      if Valid() {
        IssueKeepsConsistent(catalog, availableBookIds, records, s, b);
      }
      ghost var kept := Valid() ==> Consistent(catalog, availableBookIds, Issue(records, s, b));
      if Exclusive(records) {
        IssueKeepsExclusive(records, s, b);
      }
      ghost var exclusive := Exclusive(records) ==> Exclusive(Issue(records, s, b));
      IssuedIdsAfterIssue(records, s, b);
      issuedRecords := Issue(records, s, b);
      assert kept && old(Valid()) ==> Valid();
      assert exclusive && old(Exclusive(issuedRecords)) ==> Exclusive(issuedRecords);
      var lines := SaveIssuedRecords();
      status, written := Done, Some(lines);
    }

    /** return_book: both ids are stripped and upper-cased. A student with no
        entry, or a book not in that student's set, is an error and nothing
        changes. Otherwise the book leaves the student's set, the entry is
        deleted if that set became empty, every other entry is kept, and the
        issued-records file is written. */
    method ReturnBook(rawStudent: string, rawBook: string) returns (status: Status, written: Option<seq<string>>)
      modifies this`issuedRecords
      ensures var s, b := NormalizeId(rawStudent), NormalizeId(rawBook);
        if s !in old(issuedRecords) then
          status == StudentHasNoRecords && written == None && issuedRecords == old(issuedRecords)
        else if b !in old(issuedRecords)[s] then
          status == BookNotIssuedToStudent && written == None && issuedRecords == old(issuedRecords)
        else
          && status == Done
          && issuedRecords == Return(old(issuedRecords), s, b)
          && (s in issuedRecords <==> old(issuedRecords)[s] != {b})
          && (s in issuedRecords ==> issuedRecords[s] == old(issuedRecords)[s] - {b})
          && (forall t :: t != s ==> (t in issuedRecords <==> t in old(issuedRecords)))
          && (forall t :: t in old(issuedRecords) && t != s ==> issuedRecords[t] == old(issuedRecords)[t])
      ensures written.Some? <==> status == Done
      ensures written.Some? ==> |written.value| == |issuedRecords| && SavedIssuedFile(written.value, issuedRecords)
      ensures written.Some? && CleanRecords(issuedRecords) ==> ParseIssuedFile(written.value) == issuedRecords
      ensures old(NoEmptySets(issuedRecords)) ==> NoEmptySets(issuedRecords)
      ensures old(Exclusive(issuedRecords)) ==> Exclusive(issuedRecords)
      ensures old(Valid()) ==> Valid()
    {
      var s := NormalizeId(rawStudent);
      var b := NormalizeId(rawBook);
      if s !in issuedRecords {
        return StudentHasNoRecords, None;
      }
      if b !in issuedRecords[s] {
        return BookNotIssuedToStudent, None;
      }
      if Valid() {
        ReturnKeepsConsistent(catalog, availableBookIds, issuedRecords, s, b);
      }
      ghost var kept := Valid() ==> Consistent(catalog, availableBookIds, Return(issuedRecords, s, b));
      ghost var exclusive := Exclusive(issuedRecords) ==> Exclusive(Return(issuedRecords, s, b));
      if Exclusive(issuedRecords) {
        ReturnKeepsExclusive(issuedRecords, s, b);
      }
      assert exclusive;
      var rest := issuedRecords[s] - {b};
      assert rest == {} <==> issuedRecords[s] == {b};
      if rest == {} {
        issuedRecords := issuedRecords - {s};
      } else {
        issuedRecords := issuedRecords[s := rest];
      }
      assert issuedRecords == Return(old(issuedRecords), s, b);
      assert kept && old(Valid()) ==> Valid();
      assert exclusive && old(Exclusive(issuedRecords)) ==> Exclusive(issuedRecords);
      var lines := SaveIssuedRecords();
      status, written := Done, Some(lines);
    }

    /** display_available_books: an empty catalog is reported first; then
        either every book is issued, or the books not issued to anyone are
        listed in catalog order. */
    function DisplayAvailableBooks(): (r: Report)
      reads this
      ensures r == CatalogEmpty <==> catalog == []
      ensures r == AllIssued <==> catalog != [] && forall i :: 0 <= i < |catalog| ==> catalog[i].id in IssuedIds(issuedRecords)
      ensures r.Listing? ==> r.books == Available(catalog, issuedRecords) && r.books != []
    {
      if catalog == [] then CatalogEmpty
      else
        var available := Available(catalog, issuedRecords);
        if available == [] then AllIssued
        else
          assert available[0] in available;
          Listing(available)
    }
  }

  /** The double issue the source's reading allows: a library restarted
      from the files saved while one student held a book finds that book
      unissued and lets any student borrow it again (for instance B101,
      saved as "S101: B101" and then issued to S102). */
  method IssueAgainAfterRestart(book: Book, holder: string, rawStudent: string) returns (status: Status)
    requires CleanBook(book) && Clean(book.id, {':', ','}) && book.id != []
    requires NormalizeId(book.id) == book.id
    requires Clean(holder, {':'})
    ensures status == Done
  {
    CatalogFileRoundTrip([book]);
    IssuedFileAsWrittenSingle(holder, book.id);
    var library := new Library(CatalogFile([book]), [FormatIssuedLine(holder, [book.id]) + "\n"]);
    assert book.id in IdsOf(library.catalog);
    IssuedIdsMember(library.issuedRecords, book.id);
    var written;
    status, written := library.IssueBook(rawStudent, book.id);
  }

  /** The book B101 and the student S101 of that instance meet what
      IssueAgainAfterRestart asks of its inputs. */
  lemma RestartExampleApplies()
    ensures var book := Book("B101", "T", "A");
      CleanBook(book) && Clean(book.id, {':', ','}) && book.id != [] && NormalizeId(book.id) == book.id
    ensures Clean("S101", {':'})
  {
    assert Upper("B101") == "B101";
  }
}
