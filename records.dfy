/** The two data files of the library and their line formats.

    A file is modelled as the sequence of its lines, each as Python's
    line iteration yields it (a line break at the end included). The
    catalog file holds one `id|title|author` line per book; the
    issued-records file holds one `student: id1,id2,...` line per student. */
module Records {
  import opened Text

  datatype Option<T> = None | Some(value: T)

  datatype Book = Book(id: string, title: string, author: string)

  /** One line of the issued-records file, once read: a student and the
      ids of the books issued to them. */
  datatype IssuedEntry = IssuedEntry(student: string, books: set<string>)

  /** A character at which reading a file in text mode ends a line. */
  predicate IsLineBreak(c: char) { c == '\n' || c == '\r' }

  /** A field that a save and a reload carry over unchanged: no surrounding
      whitespace, no line break (which would split its line in two when the
      file is read), and none of the format's delimiters. */
  predicate Clean(f: string, delims: set<char>) {
    Trim(f) == f && forall i :: 0 <= i < |f| ==> f[i] !in delims && !IsLineBreak(f[i])
  }

  lemma CleanAvoids(f: string, delims: set<char>, c: char)
    requires Clean(f, delims) && c in delims
    ensures c !in f
  {
  }

  // ---------------------------------------------------------------- catalog lines

  /** The line _save_catalog writes for a book, without its line break: when
      no field holds a `|`, it splits at `|` into exactly the three fields. */
  function FormatCatalogLine(b: Book): (r: string)
    ensures '|' !in b.id && '|' !in b.title && '|' !in b.author ==> Split(r, '|') == [b.id, b.title, b.author]
  {
    var rest := b.title + "|" + b.author;
    if '|' !in b.id && '|' !in b.title && '|' !in b.author then
      SplitAtSep(b.id, rest, '|');
      SplitAtSep(b.title, b.author, '|');
      SplitNoSep(b.author, '|');
      b.id + ['|'] + rest
    else
      b.id + ['|'] + rest
  }

  /** The reading of one catalog line by _load_catalog: strip the line, split
      it at every `|`, keep it only if there are exactly three pieces, and
      strip each piece. */
  function ParseCatalogLine(line: string): (r: Option<Book>)
    ensures r.Some? <==> Count(line, '|') == 2
  {
    TrimCount(line, '|');
    var parts := Split(Trim(line), '|');
    if |parts| == 3 then
      Some(Book(Trim(parts[0]), Trim(parts[1]), Trim(parts[2])))
    else
      None
  }

  /** Every field of a book read from the catalog file is stripped and free
      of `|`. */
  lemma ParsedBookFields(line: string)
    requires ParseCatalogLine(line).Some?
    ensures var b := ParseCatalogLine(line).value;
      && Trim(b.id) == b.id && '|' !in b.id
      && Trim(b.title) == b.title && '|' !in b.title
      && Trim(b.author) == b.author && '|' !in b.author
  {
    var parts := Split(Trim(line), '|');
    TrimKeepsOut(parts[0], '|');
    TrimKeepsOut(parts[1], '|');
    TrimKeepsOut(parts[2], '|');
  }

  predicate CleanBook(b: Book) {
    Clean(b.id, {'|'}) && Clean(b.title, {'|'}) && Clean(b.author, {'|'})
  }

  lemma CatalogLineEnds(b: Book)
    requires Trim(b.id) == b.id && Trim(b.author) == b.author
    ensures var x := FormatCatalogLine(b); x != [] && !IsSpace(x[0]) && !IsSpace(x[|x| - 1])
  {
    var x := FormatCatalogLine(b);
    assert x[0] == if b.id == [] then '|' else b.id[0];
    assert x[|x| - 1] == if b.author == [] then '|' else b.author[|b.author| - 1];
  }

  /** A saved catalog line reads back as the book it was written from,
      provided no field has surrounding whitespace or a `|`. */
  lemma CatalogLineRoundTrip(b: Book)
    requires CleanBook(b)
    ensures ParseCatalogLine(FormatCatalogLine(b) + "\n") == Some(b)
  {
    CleanAvoids(b.id, {'|'}, '|');
    CleanAvoids(b.title, {'|'}, '|');
    CleanAvoids(b.author, {'|'}, '|');
    CatalogLineEnds(b);
    TrimLineBreak(FormatCatalogLine(b));
  }

  // ---------------------------------------------------------------- catalog file

  /** The whole catalog file as _save_catalog writes it. */
  function CatalogFile(catalog: seq<Book>): (lines: seq<string>)
    ensures |lines| == |catalog|
  {
    seq(|catalog|, i requires 0 <= i < |catalog| => FormatCatalogLine(catalog[i]) + "\n")
  }

  /** The results of the lines that parse, in line order; the others are skipped. */
  function FilterMap<T>(lines: seq<string>, parse: string -> Option<T>): (r: seq<T>)
    ensures |r| <= |lines|
  {
    if lines == [] then []
    else
      var init := FilterMap(lines[..|lines| - 1], parse);
      match parse(lines[|lines| - 1])
      case None => init
      case Some(x) => init + [x]
  }

  /** When every line parses to the corresponding value, nothing is skipped. */
  lemma {:induction false} FilterMapAll<T>(lines: seq<string>, parse: string -> Option<T>, xs: seq<T>)
    requires |lines| == |xs|
    requires forall i :: 0 <= i < |lines| ==> parse(lines[i]) == Some(xs[i])
    ensures FilterMap(lines, parse) == xs
  {
    if lines != [] {
      var n := |lines|;
      FilterMapAll(lines[..n - 1], parse, xs[..n - 1]);
      assert xs == xs[..n - 1] + [xs[n - 1]];
    }
  }

  /** The catalog _load_catalog builds from the lines of the file: the
      well-formed lines in file order, the others skipped. */
  function ParseCatalog(lines: seq<string>): seq<Book> {
    FilterMap(lines, ParseCatalogLine)
  }

  /** Saving a catalog and loading the file again gives the same catalog. */
  lemma CatalogFileRoundTrip(catalog: seq<Book>)
    requires forall i :: 0 <= i < |catalog| ==> CleanBook(catalog[i])
    ensures ParseCatalog(CatalogFile(catalog)) == catalog
  {
    var lines := CatalogFile(catalog);
    forall i | 0 <= i < |lines| ensures ParseCatalogLine(lines[i]) == Some(catalog[i]) {
      CatalogLineRoundTrip(catalog[i]);
    }
    FilterMapAll(lines, ParseCatalogLine, catalog);
  }

  // ---------------------------------------------------------------- issued lines

  /** The line _save_issued_records writes for a student, without its line
      break; `order` is the order in which the student's set is iterated.
      When neither the student nor an id holds a `:`, the line splits at `:`
      into the student and the joined ids behind a blank. */
  function FormatIssuedLine(student: string, order: seq<string>): (r: string)
    ensures ':' !in student && (forall i :: 0 <= i < |order| ==> ':' !in order[i]) ==>
      Split(r, ':') == [student, " " + Join(order, ',')]
  {
    var j := Join(order, ',');
    if ':' !in student && (forall i :: 0 <= i < |order| ==> ':' !in order[i]) then
      JoinKeepsOut(order, ',', ':');
      IssuedLineColon(student, j);
      student + ": " + j
    else
      student + ": " + j
  }

  /** The reading of one issued-records line, with every book id stripped:
      strip the line, split it at every `:`, keep it only if there are exactly
      two pieces, strip the first, split the second at every `,` and strip
      each id. A line that is kept never yields an empty set. */
  function ParseIssuedLine(line: string): (r: Option<IssuedEntry>)
    ensures r.Some? <==> Count(line, ':') == 1
    ensures r.Some? ==> r.value.books != {}
  {
    TrimCount(line, ':');
    var parts := Split(Trim(line), ':');
    if |parts| == 2 then
      var pieces := Split(parts[1], ',');
      var books := set p | p in pieces :: Trim(p);
      assert pieces[0] in pieces && Trim(pieces[0]) in books;
      Some(IssuedEntry(Trim(parts[0]), books))
    else
      None
  }

  /** The same reading as _load_issued_records does it: the book ids are
      not stripped. */
  function ParseIssuedLineAsWritten(line: string): (r: Option<IssuedEntry>)
    ensures r.Some? <==> Count(line, ':') == 1
    ensures r.Some? ==> r.value.books != {}
  {
    TrimCount(line, ':');
    var parts := Split(Trim(line), ':');
    if |parts| == 2 then
      var pieces := Split(parts[1], ',');
      var books := set p | p in pieces;
      assert pieces[0] in books;
      Some(IssuedEntry(Trim(parts[0]), books))
    else
      None
  }

  lemma JoinPrefixFirst(prefix: string, parts: seq<string>, sep: char)
    requires |parts| >= 1
    ensures Join([prefix + parts[0]] + parts[1..], sep) == prefix + Join(parts, sep)
  {
    var q := [prefix + parts[0]] + parts[1..];
    assert q[1..] == parts[1..];
  }

  /** The facts about a list of clean ids that the issued-line lemmas use. */
  predicate PlainIds(order: seq<string>) {
    forall i :: 0 <= i < |order| ==> ':' !in order[i] && ',' !in order[i] && Trim(order[i]) == order[i]
  }

  lemma CleanIdsArePlain(order: seq<string>)
    requires forall i :: 0 <= i < |order| ==> Clean(order[i], {':', ','})
    ensures PlainIds(order)
  {
    forall i | 0 <= i < |order| ensures ':' !in order[i] && ',' !in order[i] && Trim(order[i]) == order[i] {
      CleanAvoids(order[i], {':', ','}, ':');
      CleanAvoids(order[i], {':', ','}, ',');
    }
  }

  lemma IssuedLineStrip(student: string, j: string)
    requires Trim(student) == student
    requires j != [] && !IsSpace(j[|j| - 1])
    ensures Trim(student + ": " + j + "\n") == student + ": " + j
  {
    var x := student + ": " + j;
    assert x[0] == if student == [] then ':' else student[0];
    assert x[|x| - 1] == j[|j| - 1];
    TrimLineBreak(x);
  }

  lemma IssuedLineColon(student: string, j: string)
    requires ':' !in student && ':' !in j
    ensures Split(student + ": " + j, ':') == [student, " " + j]
  {
    assert student + ": " + j == student + [':'] + (" " + j);
    SplitAtSep(student, " " + j, ':');
    assert ':' !in " " + j;
    SplitNoSep(" " + j, ':');
  }

  lemma SavedIdsTextSplit(order: seq<string>)
    requires |order| >= 1 && PlainIds(order)
    ensures Split(" " + Join(order, ','), ',') == [" " + order[0]] + order[1..]
  {
    JoinPrefixFirst(" ", order, ',');
    var p := [" " + order[0]] + order[1..];
    forall i | 0 <= i < |p| ensures ',' !in p[i] {
      if i == 0 {
        assert ',' !in order[0];
      } else {
        assert p[i] == order[i];
      }
    }
    SplitJoin(p, ',');
  }

  /** How a saved issued line with a non-empty id list splits when read:
      the text after the colon keeps the blank the writer put there, and the
      first id carries it. */
  lemma IssuedLinePieces(student: string, order: seq<string>)
    requires Trim(student) == student && ':' !in student
    requires PlainIds(order)
    requires Join(order, ',') != []
    ensures Split(Trim(FormatIssuedLine(student, order) + "\n"), ':') == [student, " " + Join(order, ',')]
  {
    var j := Join(order, ',');
    JoinEndsNonSpace(order, ',');
    assert FormatIssuedLine(student, order) == student + ": " + j;
    IssuedLineStrip(student, j);
  }

  /** A saved issued line whose only id is empty: the blank after the colon
      is stripped with the line break. */
  lemma IssuedLineNoIds(student: string)
    requires Trim(student) == student && ':' !in student
    ensures Split(Trim(FormatIssuedLine(student, [""]) + "\n"), ':') == [student, ""]
  {
    assert FormatIssuedLine(student, [""]) + "\n" == student + ": \n";
    ColonLineNoIds(student);
  }

  lemma ColonLineNoIds(student: string)
    requires Trim(student) == student && ':' !in student
    ensures Split(Trim(student + ": \n"), ':') == [student, ""]
  {
    var x := student + ":";
    var line := student + ": \n";
    assert line == x + [' '] + ['\n'];
    assert x[0] == if student == [] then ':' else student[0];
    assert TrimLeft(line) == line;
    TrimRightSpaceBack(x + [' '], '\n');
    TrimRightSpaceBack(x, ' ');
    assert TrimRight(x) == x;
    assert x == student + [':'] + "";
    SplitAtSep(student, "", ':');
  }

  /** What the two readings make of a line, given how it splits at `:`. */
  lemma ParseIssuedLineOf(line: string, head: string, tail: string)
    requires Split(Trim(line), ':') == [head, tail]
    ensures ParseIssuedLine(line) == Some(IssuedEntry(Trim(head), set p | p in Split(tail, ',') :: Trim(p)))
    ensures ParseIssuedLineAsWritten(line) == Some(IssuedEntry(Trim(head), set p | p in Split(tail, ',')))
  {
  }

  /** Stripping the pieces undoes the blank in front of the first id. */
  lemma TrimmedPiecesOf(order: seq<string>)
    requires |order| >= 1 && PlainIds(order)
    ensures (set q | q in [" " + order[0]] + order[1..] :: Trim(q)) == set b | b in order
  {
    var p := [" " + order[0]] + order[1..];
    TrimSpaceFront(' ', order[0]);
    forall i | 0 <= i < |p| ensures Trim(p[i]) == order[i] {
      if i > 0 {
        assert p[i] == order[i];
      }
    }
    StrippedSet(p, order);
  }

  /** Pieces that strip to the ids, position by position, strip to the set of the ids. */
  lemma StrippedSet(p: seq<string>, order: seq<string>)
    requires |p| == |order|
    requires forall i :: 0 <= i < |p| ==> Trim(p[i]) == order[i]
    ensures (set q | q in p :: Trim(q)) == set b | b in order
  {
    var got := set q | q in p :: Trim(q);
    var want := set b | b in order;
    forall x | x in got ensures x in want {
      var i :| 0 <= i < |p| && Trim(p[i]) == x;
    }
    forall x | x in want ensures x in got {
      var i :| 0 <= i < |order| && order[i] == x;
      assert Trim(p[i]) == x;
    }
  }

  /** With every id stripped, a saved issued line reads back as the student
      and the set it was written from, whatever order the set was written in. */
  lemma IssuedLineRoundTrip(student: string, order: seq<string>)
    requires Clean(student, {':'})
    requires |order| >= 1
    requires forall i :: 0 <= i < |order| ==> Clean(order[i], {':', ','})
    ensures ParseIssuedLine(FormatIssuedLine(student, order) + "\n")
         == Some(IssuedEntry(student, set b | b in order))
  {
    CleanAvoids(student, {':'}, ':');
    CleanIdsArePlain(order);
    var line := FormatIssuedLine(student, order) + "\n";
    var j := Join(order, ',');
    if j == [] {
      SplitJoin(order, ',');
      assert order == [""];
      IssuedLineNoIds(student);
      ParseIssuedLineOf(line, student, "");
      assert Split("", ',') == [""];
      assert (set p | p in [""] :: Trim(p)) == {""};
      assert (set b | b in order) == {""};
    } else {
      IssuedLinePieces(student, order);
      SavedIdsTextSplit(order);
      ParseIssuedLineOf(line, student, " " + j);
      TrimmedPiecesOf(order);
    }
  }

  /** As written, a saved issued line does not read back as what was saved:
      the first id written comes back with a leading blank, an id that no
      book in a stripped catalog has. */
  lemma IssuedLineAsWrittenFirstId(student: string, order: seq<string>)
    requires Clean(student, {':'})
    requires |order| >= 1
    requires forall i :: 0 <= i < |order| ==> Clean(order[i], {':', ','})
    requires Join(order, ',') != []
    ensures var r := ParseIssuedLineAsWritten(FormatIssuedLine(student, order) + "\n");
      r.Some? && r.value.student == student && " " + order[0] in r.value.books
    ensures ParseIssuedLineAsWritten(FormatIssuedLine(student, order) + "\n")
         != Some(IssuedEntry(student, set b | b in order))
  {
    CleanAvoids(student, {':'}, ':');
    CleanIdsArePlain(order);
    var line := FormatIssuedLine(student, order) + "\n";
    var j := Join(order, ',');
    IssuedLinePieces(student, order);
    SavedIdsTextSplit(order);
    ParseIssuedLineOf(line, student, " " + j);
    var p := [" " + order[0]] + order[1..];
    assert p[0] in set q | q in p;
    var first := " " + order[0];
    assert Trim(first) != first;
    assert first !in set b | b in order;
  }

  /** One concrete input: the line saved for student S101 holding B101,
      "S101: B101", reads back holding " B101" and so not what was saved. */
  lemma IssuedLineAsWrittenExample()
    ensures var r := ParseIssuedLineAsWritten(FormatIssuedLine("S101", ["B101"]) + "\n");
      r.Some? && " B101" in r.value.books && r != Some(IssuedEntry("S101", {"B101"}))
  {
    var order := ["B101"];
    assert (set b | b in order) == {"B101"};
    assert " " + order[0] == " B101";
    IssuedLineAsWrittenFirstId("S101", order);
  }

  /** As written, the saved line of a student holding one book reads back
      holding only that id with a blank in front. */
  lemma IssuedLineAsWrittenSingle(student: string, id: string)
    requires Clean(student, {':'}) && Clean(id, {':', ','}) && id != []
    ensures ParseIssuedLineAsWritten(FormatIssuedLine(student, [id]) + "\n") == Some(IssuedEntry(student, {" " + id}))
  {
    var order := [id];
    assert Join(order, ',') == id;
    CleanAvoids(student, {':'}, ':');
    CleanIdsArePlain(order);
    IssuedLinePieces(student, order);
    SavedIdsTextSplit(order);
    var p := [" " + order[0]] + order[1..];
    assert p == [" " + id];
    assert (set q | q in p) == {" " + id};
    ParseIssuedLineOf(FormatIssuedLine(student, order) + "\n", student, " " + Join(order, ','));
  }

  /** The issued-records file saved while one student held one book loads,
      as written, with that student holding the id with a blank in front and
      not the id itself. */
  lemma IssuedFileAsWrittenSingle(student: string, id: string)
    requires Clean(student, {':'}) && Clean(id, {':', ','}) && id != []
    ensures ParseIssuedFileAsWritten([FormatIssuedLine(student, [id]) + "\n"]) == map[student := {" " + id}]
    ensures id !in ParseIssuedFileAsWritten([FormatIssuedLine(student, [id]) + "\n"])[student]
  {
    var lines := [FormatIssuedLine(student, [id]) + "\n"];
    IssuedLineAsWrittenSingle(student, id);
    assert lines[..|lines| - 1] == [];
    assert FoldEntries(lines[..|lines| - 1], ParseIssuedLineAsWritten) == map[];
    assert ParseIssuedLineAsWritten(lines[|lines| - 1]) == Some(IssuedEntry(student, {" " + id}));
    assert FoldEntries(lines, ParseIssuedLineAsWritten) == map[student := {" " + id}];
    assert |" " + id| != |id|;
  }

  // ---------------------------------------------------------------- issued file

  /** The entries of the lines that parse, in line order, each replacing any
      earlier entry of the same student; the other lines are skipped. */
  function FoldEntries(lines: seq<string>, parse: string -> Option<IssuedEntry>): map<string, set<string>> {
    if lines == [] then map[]
    else
      var init := FoldEntries(lines[..|lines| - 1], parse);
      match parse(lines[|lines| - 1])
      case None => init
      case Some(e) => init[e.student := e.books]
  }

  lemma {:induction false} FoldEntriesNoEmpty(lines: seq<string>, parse: string -> Option<IssuedEntry>)
    requires forall line :: parse(line).Some? ==> parse(line).value.books != {}
    ensures forall s :: s in FoldEntries(lines, parse) ==> FoldEntries(lines, parse)[s] != {}
  {
    if lines != [] {
      FoldEntriesNoEmpty(lines[..|lines| - 1], parse);
    }
  }

  /** When line k holds the entry of students[k], the fold gives those
      students' entries. */
  lemma {:induction false} FoldEntriesAll(lines: seq<string>, parse: string -> Option<IssuedEntry>, students: seq<string>, m: map<string, set<string>>)
    requires |lines| == |students|
    requires forall k :: 0 <= k < |lines| ==> students[k] in m && parse(lines[k]) == Some(IssuedEntry(students[k], m[students[k]]))
    ensures FoldEntries(lines, parse) == map t | t in students :: m[t]
  {
    var n := |lines|;
    if n > 0 {
      FoldEntriesAll(lines[..n - 1], parse, students[..n - 1], m);
      assert forall t :: t in students <==> t in students[..n - 1] || t == students[n - 1];
    }
  }

  /** The records _load_issued_records builds from the lines of the file:
      the well-formed lines in file order, a later line for the same student
      replacing an earlier one; each book id is kept as the line has it, so
      the blank after the colon stays on the first id. */
  function ParseIssuedFileAsWritten(lines: seq<string>): (records: map<string, set<string>>)
    ensures forall s :: s in records ==> records[s] != {}
  {
    FoldEntriesNoEmpty(lines, ParseIssuedLineAsWritten);
    FoldEntries(lines, ParseIssuedLineAsWritten)
  }

  /** The corrected reading of the issued-records file: the same fold, with
      each book id stripped. */
  function ParseIssuedFile(lines: seq<string>): (records: map<string, set<string>>)
    ensures forall s :: s in records ==> records[s] != {}
  {
    FoldEntriesNoEmpty(lines, ParseIssuedLine);
    FoldEntries(lines, ParseIssuedLine)
  }

  /** Records that a save and a reload carry over: every student and book id
      clean for the format, and no student with an empty set. */
  predicate CleanRecords(records: map<string, set<string>>) {
    forall s :: s in records ==>
      Clean(s, {':'}) && records[s] != {} && forall b :: b in records[s] ==> Clean(b, {':', ','})
  }

  /** The line saved for a student of clean records, listing their ids in
      any order, reads back as that student and their set. */
  lemma SavedEntryReadsBack(records: map<string, set<string>>, s: string, order: seq<string>)
    requires CleanRecords(records) && s in records
    requires (set b | b in order) == records[s]
    ensures ParseIssuedLine(FormatIssuedLine(s, order) + "\n") == Some(IssuedEntry(s, records[s]))
  {
    assert order != [] by {
      var b :| b in records[s];
    }
    forall i | 0 <= i < |order| ensures Clean(order[i], {':', ','}) {
      assert order[i] in records[s];
    }
    IssuedLineRoundTrip(s, order);
  }

  /** The lines written for the given students, each with its ids in the given order. */
  function IssuedFile(students: seq<string>, orders: seq<seq<string>>): (lines: seq<string>)
    requires |students| == |orders|
    ensures |lines| == |students|
  {
    seq(|students|, k requires 0 <= k < |students| => FormatIssuedLine(students[k], orders[k]) + "\n")
  }

  /** Saving clean records, students and ids in any order, and loading the
      file again gives back the same records. */
  lemma IssuedFileReadsBack(records: map<string, set<string>>, students: seq<string>, orders: seq<seq<string>>)
    requires CleanRecords(records)
    requires |students| == |orders|
    requires forall t :: t in students <==> t in records
    requires forall k :: 0 <= k < |students| ==> students[k] in records && (set b | b in orders[k]) == records[students[k]]
    ensures ParseIssuedFile(IssuedFile(students, orders)) == records
  {
    var lines := IssuedFile(students, orders);
    forall k | 0 <= k < |lines| ensures ParseIssuedLine(lines[k]) == Some(IssuedEntry(students[k], records[students[k]])) {
      SavedEntryReadsBack(records, students[k], orders[k]);
    }
    FoldEntriesAll(lines, ParseIssuedLine, students, records);
    EntriesOfAllKeys(records, students);
  }

  /** The lines are what _save_issued_records writes for the records: one
      line per student, in some order, each listing that student's ids in
      some order. */
  ghost predicate SavedIssuedFile(lines: seq<string>, records: map<string, set<string>>) {
    exists students: seq<string>, orders: seq<seq<string>> ::
      && |students| == |orders|
      && lines == IssuedFile(students, orders)
      && (forall t :: t in students <==> t in records)
      && forall k :: 0 <= k < |students| ==> students[k] in records && (set b | b in orders[k]) == records[students[k]]
  }

  /** Under the corrected reading, a saved file of clean records reads back
      as those records. */
  lemma SavedFileReadsBack(lines: seq<string>, records: map<string, set<string>>)
    requires SavedIssuedFile(lines, records) && CleanRecords(records)
    ensures ParseIssuedFile(lines) == records
  {
    var students, orders := SavedOrders(lines, records);
    IssuedFileReadsBack(records, students, orders);
  }

  /** The order of students and of ids in which a saved file was written. */
  lemma SavedOrders(lines: seq<string>, records: map<string, set<string>>) returns (students: seq<string>, orders: seq<seq<string>>)
    requires SavedIssuedFile(lines, records)
    ensures |students| == |orders| && lines == IssuedFile(students, orders)
    ensures forall t :: t in students <==> t in records
    ensures forall k :: 0 <= k < |students| ==> students[k] in records && (set b | b in orders[k]) == records[students[k]]
  {
    students, orders :|
      && |students| == |orders|
      && lines == IssuedFile(students, orders)
      && (forall t :: t in students <==> t in records)
      && forall k :: 0 <= k < |students| ==> students[k] in records && (set b | b in orders[k]) == records[students[k]];
  }

  lemma EntriesOfAllKeys(records: map<string, set<string>>, students: seq<string>)
    requires forall t :: t in students <==> t in records
    ensures (map t | t in students :: records[t]) == records
  {
  }

  // ---------------------------------------------------------------- loaders

  /** _load_catalog on the lines of the catalog file (no file: no lines). */
  method LoadCatalog(lines: seq<string>) returns (catalog: seq<Book>)
    ensures catalog == ParseCatalog(lines)
  {
    catalog := [];
    for i := 0 to |lines|
      invariant catalog == ParseCatalog(lines[..i])
    {
      assert lines[..i + 1][..i] == lines[..i];
      assert lines[..i + 1][i] == lines[i];
      var parsed := ParseCatalogLine(lines[i]);
      if parsed.Some? {
        catalog := catalog + [parsed.value];
      }
    }
    assert lines[..|lines|] == lines;
  }

  /** _load_issued_records on the lines of the issued-records file (no file:
      no lines), keeping each book id as the line has it. */
  method LoadIssuedRecords(lines: seq<string>) returns (records: map<string, set<string>>)
    ensures records == ParseIssuedFileAsWritten(lines)
  {
    records := map[];
    for i := 0 to |lines|
      invariant records == ParseIssuedFileAsWritten(lines[..i])
    {
      assert lines[..i + 1][..i] == lines[..i];
      var parsed := ParseIssuedLineAsWritten(lines[i]);
      if parsed.Some? {
        records := records[parsed.value.student := parsed.value.books];
      }
    }
    assert lines[..|lines|] == lines;
  }

  /** An iteration order of a set: every element once, in an order the
      caller cannot rely on (Python's set iteration order). */
  method Enumerate(ids: set<string>) returns (order: seq<string>)
    ensures (set b | b in order) == ids
    ensures forall i, j :: 0 <= i < j < |order| ==> order[i] != order[j]
  {
    order := [];
    var remaining := ids;
    while remaining != {}
      invariant remaining <= ids
      invariant (set b | b in order) == ids - remaining
      invariant forall i, j :: 0 <= i < j < |order| ==> order[i] != order[j]
      decreases remaining
    {
      var b :| b in remaining;
      assert b !in order;
      assert (set x | x in order + [b]) == (set x | x in order) + {b};
      order := order + [b];
      remaining := remaining - {b};
    }
  }

  /** A sequence without repetitions has as many elements as its set. */
  lemma {:induction false} DistinctCount(xs: seq<string>)
    requires forall i, j :: 0 <= i < j < |xs| ==> xs[i] != xs[j]
    ensures |set x | x in xs| == |xs|
  {
    if xs != [] {
      var n := |xs|;
      var init := xs[..n - 1];
      DistinctCount(init);
      assert xs == init + [xs[n - 1]];
      assert (set x | x in xs) == (set x | x in init) + {xs[n - 1]};
      assert xs[n - 1] !in init;
    }
  }
}
