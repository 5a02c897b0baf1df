/** The bookkeeping behind the Library class as pure values: the invariants
    its three collections keep, the effect of issuing and returning a book on
    the issued records, and the list of available books. */
module Bookkeeping {
  import opened Text
  import opened Records

  /** The ids of the books in a catalog. */
  function IdsOf(catalog: seq<Book>): set<string> {
    set i | 0 <= i < |catalog| :: catalog[i].id
  }

  /** set().union(*issued_records.values()): every book id issued to anyone;
      it holds each student's set. */
  function IssuedIds(records: map<string, set<string>>): (r: set<string>)
  {
    set v, b | v in records.Values && b in v :: b
  }

  lemma IssuedIdsMember(records: map<string, set<string>>, b: string)
    ensures b in IssuedIds(records) <==> exists s :: s in records && b in records[s]
  {
    if b in IssuedIds(records) {
      var v :| v in records.Values && b in v;
      var s :| s in records && records[s] == v;
    }
  }

  // ---------------------------------------------------------------- invariants

  /** No two books of the catalog share an id. */
  predicate UniqueIds(catalog: seq<Book>) {
    forall i, j :: 0 <= i < j < |catalog| ==> catalog[i].id != catalog[j].id
  }

  /** A book id is in at most one student's set. */
  predicate Exclusive(records: map<string, set<string>>) {
    forall s, t, b :: s in records && t in records && b in records[s] && b in records[t] ==> s == t
  }

  /** A student has an entry only while some book is issued to them. */
  predicate NoEmptySets(records: map<string, set<string>>) {
    forall s :: s in records ==> records[s] != {}
  }

  /** Everything the three collections keep true when the state is built
      through the operations from empty files. */
  predicate Consistent(catalog: seq<Book>, ids: set<string>, records: map<string, set<string>>) {
    && ids == IdsOf(catalog)
    && UniqueIds(catalog)
    && Exclusive(records)
    && IssuedIds(records) <= IdsOf(catalog)
    && NoEmptySets(records)
  }

  lemma EmptyIsConsistent()
    ensures Consistent([], {}, map[])
  {
  }

  // ---------------------------------------------------------------- transitions

  /** The issued records after book b has been issued to student s: the
      student's entry, created if absent, gains b, and every other entry is
      kept. */
  function Issue(records: map<string, set<string>>, s: string, b: string): (r: map<string, set<string>>)
    ensures r.Keys == records.Keys + {s}
    ensures r[s] == (if s in records then records[s] else {}) + {b}
    ensures forall t :: t in records && t != s ==> r[t] == records[t]
  {
    records[s := (if s in records then records[s] else {}) + {b}]
  }

  /** The issued records after student s has returned book b: b leaves the
      student's entry, the entry is deleted exactly when no other book is
      left in it, and every other entry is kept. */
  function Return(records: map<string, set<string>>, s: string, b: string): (r: map<string, set<string>>)
    requires s in records
    ensures s in r <==> records[s] - {b} != {}
    ensures s in r ==> r[s] == records[s] - {b}
    ensures forall t :: t != s ==> (t in r <==> t in records)
    ensures forall t :: t in records && t != s ==> r[t] == records[t]
  {
    var rest := records[s] - {b};
    if rest == {} then records - {s} else records[s := rest]
  }

  /** Issuing a book adds exactly that id to the issued ids. */
  lemma IssuedIdsAfterIssue(records: map<string, set<string>>, s: string, b: string)
    ensures IssuedIds(Issue(records, s, b)) == IssuedIds(records) + {b}
  {
    var after := Issue(records, s, b);
    forall x ensures x in IssuedIds(after) <==> x in IssuedIds(records) + {b} {
      IssuedIdsMember(after, x);
      IssuedIdsMember(records, x);
      if x in IssuedIds(records) {
        var t :| t in records && x in records[t];
        assert x in after[t];
      }
      if x == b {
        assert b in after[s];
      }
    }
  }

  /** Returning a book removes exactly that id from the issued ids, because
      no other student holds it. */
  lemma IssuedIdsAfterReturn(records: map<string, set<string>>, s: string, b: string)
    requires s in records && b in records[s]
    requires Exclusive(records)
    ensures IssuedIds(Return(records, s, b)) == IssuedIds(records) - {b}
  {
    var after := Return(records, s, b);
    forall x ensures x in IssuedIds(after) <==> x in IssuedIds(records) - {b} {
      IssuedIdsMember(after, x);
      IssuedIdsMember(records, x);
      if x in IssuedIds(after) {
        var t :| t in after && x in after[t];
        assert t in records && x in records[t];
      }
      if x in IssuedIds(records) && x != b {
        var t :| t in records && x in records[t];
        if t == s {
          assert x in records[s] - {b};
        }
        assert t in after && x in after[t];
      }
    }
  }

  /** Appending a book adds exactly its id to the catalog's ids. */
  lemma IdsAfterAdd(catalog: seq<Book>, book: Book)
    ensures IdsOf(catalog + [book]) == IdsOf(catalog) + {book.id}
  {
    var c := catalog + [book];
    forall x ensures x in IdsOf(c) <==> x in IdsOf(catalog) + {book.id} {
      if x in IdsOf(c) {
        var i :| 0 <= i < |c| && c[i].id == x;
        if i < |catalog| { assert catalog[i].id == x; }
      }
      if x in IdsOf(catalog) {
        var i :| 0 <= i < |catalog| && catalog[i].id == x;
        assert c[i].id == x;
      }
      if x == book.id {
        assert c[|catalog|].id == x;
      }
    }
  }

  /** Appending a book whose id is new keeps the ids unique. */
  lemma UniqueAfterAdd(catalog: seq<Book>, book: Book)
    requires UniqueIds(catalog) && book.id !in IdsOf(catalog)
    ensures UniqueIds(catalog + [book])
  {
    var c := catalog + [book];
    forall i, j | 0 <= i < j < |c| ensures c[i].id != c[j].id {
      if j == |catalog| {
        assert catalog[i].id in IdsOf(catalog);
      }
    }
  }

  /** A new book with a fresh id keeps the invariants. */
  lemma AddKeepsConsistent(catalog: seq<Book>, ids: set<string>, records: map<string, set<string>>, book: Book)
    requires Consistent(catalog, ids, records)
    requires book.id !in ids
    ensures Consistent(catalog + [book], ids + {book.id}, records)
  {
    IdsAfterAdd(catalog, book);
    UniqueAfterAdd(catalog, book);
  }

  /** Issuing a catalog book that nobody holds keeps the invariants: the book
      is then held by exactly one student, and it is a catalog book. */
  lemma IssueKeepsConsistent(catalog: seq<Book>, ids: set<string>, records: map<string, set<string>>, s: string, b: string)
    requires Consistent(catalog, ids, records)
    requires b in IdsOf(catalog) && b !in IssuedIds(records)
    ensures Consistent(catalog, ids, Issue(records, s, b))
  {
    IssuedIdsAfterIssue(records, s, b);
    IssueKeepsExclusive(records, s, b);
  }

  /** Issuing a book nobody holds leaves every book with at most one holder. */
  lemma IssueKeepsExclusive(records: map<string, set<string>>, s: string, b: string)
    requires Exclusive(records) && b !in IssuedIds(records)
    ensures Exclusive(Issue(records, s, b))
  {
    var after := Issue(records, s, b);
    forall t, u, x | t in after && u in after && x in after[t] && x in after[u] ensures t == u {
      if x == b {
        IssuedIdsMember(records, b);
        assert t == s && u == s;
      } else {
        assert x in records[t] && x in records[u];
      }
    }
  }

  /** Returning a book the student holds keeps the invariants; in particular
      no student is left with an empty set. */
  lemma ReturnKeepsConsistent(catalog: seq<Book>, ids: set<string>, records: map<string, set<string>>, s: string, b: string)
    requires Consistent(catalog, ids, records)
    requires s in records && b in records[s]
    ensures Consistent(catalog, ids, Return(records, s, b))
  {
    IssuedIdsAfterReturn(records, s, b);
    ReturnKeepsExclusive(records, s, b);
  }

  /** Returning a book gives no book a second holder. */
  lemma ReturnKeepsExclusive(records: map<string, set<string>>, s: string, b: string)
    requires Exclusive(records) && s in records
    ensures Exclusive(Return(records, s, b))
  {
    var after := Return(records, s, b);
    forall t, u, x | t in after && u in after && x in after[t] && x in after[u] ensures t == u {
      assert x in records[t] && x in records[u];
    }
  }

  /** Issuing a book and then returning it restores the issued records,
      provided the student did not hold it before and has no empty entry. */
  lemma IssueThenReturn(records: map<string, set<string>>, s: string, b: string)
    requires s in records ==> b !in records[s] && records[s] != {}
    ensures Return(Issue(records, s, b), s, b) == records
  {
    var after := Return(Issue(records, s, b), s, b);
    if s in records {
      assert records[s] + {b} - {b} == records[s];
    } else {
      assert after.Keys == records.Keys;
    }
  }

  // ---------------------------------------------------------------- available books

  /** The books of the catalog whose id is not in `issued`, in catalog order. */
  function Unissued(catalog: seq<Book>, issued: set<string>): (r: seq<Book>)
    ensures |r| <= |catalog|
  {
    if catalog == [] then []
    else (if catalog[0].id in issued then [] else [catalog[0]]) + Unissued(catalog[1..], issued)
  }

  /** A book is listed exactly when it is in the catalog and its id is not issued. */
  lemma {:induction false} UnissuedMembers(catalog: seq<Book>, issued: set<string>)
    ensures forall b :: b in Unissued(catalog, issued) <==> b in catalog && b.id !in issued
  {
    if catalog != [] {
      UnissuedMembers(catalog[1..], issued);
      assert forall b :: b in catalog <==> b == catalog[0] || b in catalog[1..];
    }
  }

  /** The books display_available_books lists: exactly the catalog's books
      whose id nobody holds. */
  function Available(catalog: seq<Book>, records: map<string, set<string>>): (r: seq<Book>)
    ensures |r| <= |catalog|
    ensures forall x :: x in r <==> x in catalog && x.id !in IssuedIds(records)
  {
    UnissuedMembers(catalog, IssuedIds(records));
    Unissued(catalog, IssuedIds(records))
  }

  /** The positions, counted from `from`, of the books whose id is not in `issued`. */
  function PositionsFrom(catalog: seq<Book>, issued: set<string>, from: nat): seq<nat> {
    if catalog == [] then []
    else (if catalog[0].id in issued then [] else [from]) + PositionsFrom(catalog[1..], issued, from + 1)
  }

  lemma {:induction false} PositionsOrdered(catalog: seq<Book>, issued: set<string>, from: nat)
    ensures forall k :: 0 <= k < |PositionsFrom(catalog, issued, from)| ==> from <= PositionsFrom(catalog, issued, from)[k] < from + |catalog|
    ensures forall k, l :: 0 <= k < l < |PositionsFrom(catalog, issued, from)| ==> PositionsFrom(catalog, issued, from)[k] < PositionsFrom(catalog, issued, from)[l]
  {
    if catalog != [] {
      PositionsOrdered(catalog[1..], issued, from + 1);
      var rest := PositionsFrom(catalog[1..], issued, from + 1);
      if catalog[0].id !in issued {
        assert PositionsFrom(catalog, issued, from) == [from] + rest;
      }
    }
  }

  lemma {:induction false} PositionsPick(catalog: seq<Book>, issued: set<string>, from: nat)
    ensures |PositionsFrom(catalog, issued, from)| == |Unissued(catalog, issued)|
    ensures forall k :: 0 <= k < |PositionsFrom(catalog, issued, from)| ==>
      from <= PositionsFrom(catalog, issued, from)[k] < from + |catalog| && catalog[PositionsFrom(catalog, issued, from)[k] - from] == Unissued(catalog, issued)[k]
  {
    if catalog != [] {
      var tail := catalog[1..];
      PositionsPick(tail, issued, from + 1);
      var rest := PositionsFrom(tail, issued, from + 1);
      var u := Unissued(tail, issued);
      if catalog[0].id in issued {
        assert PositionsFrom(catalog, issued, from) == rest;
        assert Unissued(catalog, issued) == u;
      } else {
        assert PositionsFrom(catalog, issued, from) == [from] + rest;
        assert Unissued(catalog, issued) == [catalog[0]] + u;
      }
    }
  }

  lemma {:induction false} PositionsMembers(catalog: seq<Book>, issued: set<string>, from: nat)
    ensures forall i :: 0 <= i < |catalog| ==> (from + i in PositionsFrom(catalog, issued, from) <==> catalog[i].id !in issued)
  {
    if catalog != [] {
      var tail := catalog[1..];
      PositionsMembers(tail, issued, from + 1);
      PositionsOrdered(tail, issued, from + 1);
      var rest := PositionsFrom(tail, issued, from + 1);
      var idx := PositionsFrom(catalog, issued, from);
      assert from !in rest by {
        forall k | 0 <= k < |rest| ensures rest[k] != from {
        }
      }
      forall i | 0 <= i < |catalog| ensures (from + i in idx <==> catalog[i].id !in issued) {
        if i > 0 {
          assert catalog[i] == tail[i - 1];
          assert from + i == (from + 1) + (i - 1);
        }
      }
    }
  }

  /** The available list is the subsequence of the catalog at exactly the
      positions whose id is not issued: `idx` lists those positions in
      increasing order. */
  lemma UnissuedPositions(catalog: seq<Book>, issued: set<string>) returns (idx: seq<nat>)
    ensures |idx| == |Unissued(catalog, issued)|
    ensures forall k, l :: 0 <= k < l < |idx| ==> idx[k] < idx[l]
    ensures forall k :: 0 <= k < |idx| ==> idx[k] < |catalog| && catalog[idx[k]] == Unissued(catalog, issued)[k]
    ensures forall i :: 0 <= i < |catalog| ==> (i in idx <==> catalog[i].id !in issued)
  {
    idx := PositionsFrom(catalog, issued, 0);
    PositionsOrdered(catalog, issued, 0);
    PositionsPick(catalog, issued, 0);
    PositionsMembers(catalog, issued, 0);
  }

  lemma {:induction false} UnissuedAppend(catalog: seq<Book>, book: Book, issued: set<string>)
    requires book.id !in issued
    ensures Unissued(catalog + [book], issued) == Unissued(catalog, issued) + [book]
  {
    if catalog == [] {
      assert [book][1..] == [];
    } else {
      assert (catalog + [book])[1..] == catalog[1..] + [book];
      UnissuedAppend(catalog[1..], book, issued);
    }
  }

  /** A book added with a fresh id is listed as available exactly once, at
      the end, until it is issued. */
  lemma AvailableAfterAdd(catalog: seq<Book>, records: map<string, set<string>>, book: Book)
    requires book.id !in IdsOf(catalog) && book.id !in IssuedIds(records)
    ensures Available(catalog + [book], records) == Available(catalog, records) + [book]
    ensures multiset(Available(catalog + [book], records))[book] == 1
  {
    UnissuedAppend(catalog, book, IssuedIds(records));
    forall i | 0 <= i < |catalog| ensures catalog[i] != book {
      assert catalog[i].id in IdsOf(catalog);
    }
    UnissuedMembers(catalog, IssuedIds(records));
    assert book !in Available(catalog, records);
  }

  /** Issuing a book removes it, and only it, from the available list. */
  lemma AvailableAfterIssue(catalog: seq<Book>, records: map<string, set<string>>, s: string, b: string)
    ensures forall x :: x in Available(catalog, Issue(records, s, b)) <==> x in Available(catalog, records) && x.id != b
  {
    IssuedIdsAfterIssue(records, s, b);
    UnissuedMembers(catalog, IssuedIds(records));
    UnissuedMembers(catalog, IssuedIds(Issue(records, s, b)));
  }

  /** Issuing a book and returning it gives back the available list. */
  lemma AvailableAfterIssueReturn(catalog: seq<Book>, records: map<string, set<string>>, s: string, b: string)
    requires NoEmptySets(records) && b !in IssuedIds(records)
    ensures Available(catalog, Return(Issue(records, s, b), s, b)) == Available(catalog, records)
  {
    IssuedIdsMember(records, b);
    IssueThenReturn(records, s, b);
  }

  // ---------------------------------------------------------------- reloading

  /** A state reached through the operations, saved to its two files and
      loaded again under the corrected reading of the issued-records file,
      comes back unchanged, and so keeps every invariant. */
  lemma ReloadKeepsConsistent(catalog: seq<Book>, ids: set<string>, records: map<string, set<string>>, catalogLines: seq<string>, issuedLines: seq<string>)
    requires Consistent(catalog, ids, records)
    requires forall i :: 0 <= i < |catalog| ==> CleanBook(catalog[i])
    requires CleanRecords(records)
    requires catalogLines == CatalogFile(catalog) && SavedIssuedFile(issuedLines, records)
    ensures ParseCatalog(catalogLines) == catalog && ParseIssuedFile(issuedLines) == records
    ensures Consistent(ParseCatalog(catalogLines), IdsOf(ParseCatalog(catalogLines)), ParseIssuedFile(issuedLines))
  {
    CatalogFileRoundTrip(catalog);
    SavedFileReadsBack(issuedLines, records);
  }

  /** The same reload under the source's own reading breaks the invariants
      as soon as any student s has an entry: the last line saved loads its first id
      with the blank after the colon, an id no catalog book has. */
  lemma ReloadAsWrittenBreaks(catalog: seq<Book>, ids: set<string>, records: map<string, set<string>>, s: string, issuedLines: seq<string>)
    requires Consistent(catalog, ids, records)
    requires forall i :: 0 <= i < |catalog| ==> CleanBook(catalog[i]) && catalog[i].id != []
    requires CleanRecords(records) && s in records
    requires SavedIssuedFile(issuedLines, records)
    ensures !Consistent(catalog, ids, ParseIssuedFileAsWritten(issuedLines))
  {
    var last, order := LastSavedLine(issuedLines, records, s);
    SavedOrderOfCatalogIds(catalog, ids, records, last, order);
    IssuedLineAsWrittenFirstId(last, order);
    FoldEntriesLast(issuedLines, ParseIssuedLineAsWritten);
    var reloaded := ParseIssuedFileAsWritten(issuedLines);
    var first := " " + order[0];
    assert first in reloaded[last];
    BlankIdNotInCatalog(catalog, order[0]);
    assert first in IssuedIds(reloaded);
  }

  /** The last line of a saved file of records in which student s has an
      entry: the line of some student, listing that student's ids in some
      order. */
  lemma LastSavedLine(lines: seq<string>, records: map<string, set<string>>, s: string) returns (last: string, order: seq<string>)
    requires SavedIssuedFile(lines, records) && s in records
    ensures lines != [] && lines[|lines| - 1] == FormatIssuedLine(last, order) + "\n"
    ensures last in records && (set b | b in order) == records[last]
  {
    var students, orders := SavedOrders(lines, records);
    assert s in students;
    var n := |students|;
    last, order := students[n - 1], orders[n - 1];
    assert lines[n - 1] == IssuedFile(students, orders)[n - 1];
  }

  /** The ids a saved line lists for a student of a consistent state with
      clean, non-empty catalog ids: at least one, each clean, joined into a
      non-empty text. */
  lemma SavedOrderOfCatalogIds(catalog: seq<Book>, ids: set<string>, records: map<string, set<string>>, s: string, order: seq<string>)
    requires Consistent(catalog, ids, records)
    requires forall i :: 0 <= i < |catalog| ==> catalog[i].id != []
    requires CleanRecords(records) && s in records && (set b | b in order) == records[s]
    ensures Clean(s, {':'}) && |order| >= 1 && Join(order, ',') != []
    ensures forall i :: 0 <= i < |order| ==> Clean(order[i], {':', ','})
  {
    assert order != [] by {
      var b :| b in records[s];
    }
    assert order[0] in records[s];
    assert order[0] in IdsOf(catalog);
    assert |order| == 1 || Join(order, ',') == order[0] + [','] + Join(order[1..], ',');
    forall i | 0 <= i < |order| ensures Clean(order[i], {':', ','}) {
      assert order[i] in records[s];
    }
  }

  /** The entry of the last line that parses is the one the fold keeps. */
  lemma FoldEntriesLast(lines: seq<string>, parse: string -> Option<IssuedEntry>)
    requires lines != [] && parse(lines[|lines| - 1]).Some?
    ensures var e := parse(lines[|lines| - 1]).value;
      e.student in FoldEntries(lines, parse) && FoldEntries(lines, parse)[e.student] == e.books
  {
  }

  /** An id with a blank in front is no id of a catalog whose ids are stripped. */
  lemma BlankIdNotInCatalog(catalog: seq<Book>, x: string)
    requires forall i :: 0 <= i < |catalog| ==> CleanBook(catalog[i])
    ensures " " + x !in IdsOf(catalog)
  {
    forall i | 0 <= i < |catalog| ensures catalog[i].id != " " + x {
      assert Trim(catalog[i].id) == catalog[i].id;
    }
  }

  // ---------------------------------------------------------------- the is_issued scan

  /** The scan of issue_book over issued_records.values(), stopping at the
      first set that holds the book. */
  method FindIssued(records: map<string, set<string>>, b: string) returns (issued: bool)
    ensures issued <==> b in IssuedIds(records)
  {
    issued := false;
    var pending := records.Values;
    while pending != {} && !issued
      invariant pending <= records.Values
      invariant issued <==> exists v :: v in records.Values - pending && b in v
      decreases pending
    {
      var v :| v in pending;
      if b in v {
        issued := true;
      }
      pending := pending - {v};
    }
  }
}
