# Library management: a verified model of the `Library` class

The system is a small console library manager. One `Library` object holds
three collections:

- the **catalog**, a list of books, each with an id, a title and an author;
- **available_book_ids**, the set of ids in the catalog;
- **issued_records**, which maps each student id to the set of book ids issued to that student.

Three operations change this state:

- **add_book** adds a book under an id that is not yet in use.
- **issue_book** gives a catalog book that nobody holds to a student.
- **return_book** takes a book back from the student who holds it, and drops the student's entry once it is empty.

**display_available_books** lists the books that nobody holds. The state is read from two text files when the library starts, and written back after each successful change:

- the catalog file has one `id|title|author` line per book;
- the issued-records file has one `student: id1,id2` line per student.

The model has four modules:

- `Text` (`text.dfy`) holds ASCII versions of the string operations the source applies: `strip`, `upper`, `title`, `split` and `join`. It proves their facts once: stripping keeps every non-blank character, split and join are inverse, and a normalised id is a fixed point.
- `Records` (`records.dfy`) holds the two line formats and the loaders and savers. A file is the sequence of its lines. A field counts as clean for a format when it has no surrounding whitespace, no line break and none of the format's delimiters, so the saved lines of clean data are exactly the lines a reader meets in the file. It proves that each format round-trips on clean data, and it keeps the Finding below.
- `Bookkeeping` (`bookkeeping.dfy`) holds the pure description of the state:
  - the invariants (unique ids, a book held by one student at most, every issued id in the catalog, no empty entry);
  - the record changes made by issuing and by returning;
  - the filtered list of available books;
  - the scan over `issued_records.values()`;
  - the lemmas that connect them.
- `LibraryStore` (`library.dfy`) holds the class `Library`. It has the source's three fields, and its methods change them in place. Each method states its whole new state and each error case. Each keeps `Valid()`, the conjunction of the invariants.

Ids are passed in as raw strings, and each method strips and upper-cases them as the source does. Title and author are stripped and title-cased.

A file that does not exist is represented by the empty sequence of lines.

Each mutator returns its result in two parts:

- a `Status`: `Done`, or the error the source reports;
- the lines it writes to its file (`Some(lines)`), or `None` when it writes nothing.

The issued-records file has two readings in the model:

- the source's own reading (`Records.ParseIssuedLineAsWritten`, `Records.ParseIssuedFileAsWritten`) keeps each id as the line has it. The saver writes `student: ids` with a blank after the colon, so when the ids are clean and non-empty, the first id of every saved line comes back with a leading blank. The class loads its file this way, as the source does.
- the corrected reading (`Records.ParseIssuedLine`, `Records.ParseIssuedFile`) strips each id. This is the evidently intended reading: under it, a saved record reads back unchanged.

The Finding below records the difference. Every round trip about the issued-records file is proved under the corrected reading; `Bookkeeping.ReloadAsWrittenBreaks` shows that under the source's reading, reloading a saved state whose ids are clean and non-empty, in which some student holds a book, breaks the invariants.

## Model

| member | source | states |
|---|---|---|
| LibraryStore.Library.constructor | Library.py:12-22 | The catalog is the file's well-formed lines in order. The id set is exactly the catalog's ids. The records are the file's well-formed lines under the source's reading, which keeps the blank after the colon on the first id, and no student has an empty set. With two absent files, every invariant holds. |
| LibraryStore.Library.AddBook | Library.py:87-105 | The id is normalised. A used id changes nothing and reports `DuplicateId`. A new id appends exactly one book, adds exactly its id to the id set, leaves the records unchanged, and writes the catalog file. The methods keep the id set equal to the catalog's ids, keep ids unique, and keep `Valid()`. |
| LibraryStore.Library.IssueBook | Library.py:132-164 | Both ids are normalised. A book not in the catalog, or held by anyone, changes nothing and reports the matching error. Otherwise the book joins exactly that student's set, which is created if the student had none. No other entry changes. The issued ids grow by exactly that book, each book stays in at most one student's set, and `Valid()` is kept. The lines written are one `student: ids` line per student of the new records, as `SaveIssuedRecords` states. |
| LibraryStore.Library.ReturnBook | Library.py:167-188 | A student with no entry, or a book not in that student's set, changes nothing and reports the matching error. Otherwise the book leaves the set, and the entry is deleted exactly when the set becomes empty. No other entry changes. "No empty set" is kept, so is "each book in at most one set", and so is `Valid()`. The lines written are one `student: ids` line per student of the new records, as `SaveIssuedRecords` states. |
| LibraryStore.Library.DisplayAvailableBooks | Library.py:107-128 | An empty catalog is reported before anything else. "All issued" is reported exactly when every catalog book's id is issued. Otherwise the list is the non-empty available list. |
| LibraryStore.Library.SaveCatalog | Library.py:46-54 | The loop writes exactly `CatalogFile(catalog)`: line k is book k's formatted line. `Records.CatalogFileRoundTrip` shows that this file reads back as the catalog when every field is clean. |
| LibraryStore.Library.SaveIssuedRecords | Library.py:74-83 | Writes one line per student: for some order of the students and of each student's ids, line k is student k's formatted `student: id1,id2` line. Under the corrected reading, the file reads back as the same records when all ids are clean. |
| Records.LoadCatalog | Library.py:27-44 | The loop keeps exactly the lines that parse, in file order. |
| Records.LoadIssuedRecords | Library.py:56-72 | The loop is the source's reading of the file: it keeps the entry of every line that parses, with each id as the line has it. A later line for the same student replaces an earlier one. |
| Records.FormatCatalogLine | Library.py:51-51 | The saved line of a book whose fields hold no `\|` splits at `\|` into exactly its id, title and author. |
| Records.ParseCatalogLine | Library.py:34-41 | A line yields a book exactly when it holds two `\|` characters, that is, when the stripped line splits into three pieces. |
| Records.ParsedBookFields | Library.py:35-41 | Every field of a book read from a line is stripped and free of `\|`. |
| Records.CatalogLineRoundTrip | Library.py:35-51 | A book whose fields are stripped and free of `\|` reads back, after its saved line, as the same book. |
| Records.CatalogFileRoundTrip | Library.py:27-54 | Saving a catalog of clean books and loading the file gives back the same catalog. A clean field holds no line break, so each saved line is one line of the file. |
| Records.FormatIssuedLine | Library.py:80-80 | When neither the student nor an id holds a `:`, the saved line splits at `:` into the student and, behind a blank, the ids joined by `,`. |
| Records.ParseIssuedLine | Library.py:63-69 | A line yields an entry exactly when it holds one `:`. The entry's set is never empty. This is the corrected reading, which strips each id. |
| Records.ParseIssuedLineAsWritten | Library.py:63-69 | The source's own reading, without stripping the ids. It accepts the same lines and gives a non-empty set. |
| Records.IssuedLineRoundTrip | Library.py:64-80 | Under the corrected reading, a saved line reads back as its student and exactly the set of ids it lists, provided the student and the ids are clean. |
| Records.IssuedLineAsWrittenFirstId | Library.py:68-80 | Under the source's reading, a saved line gives back the first id with the blank the writer placed after the colon. The entry read back differs from the one saved. |
| Records.IssuedLineAsWrittenExample | Library.py:68-80 | The line saved for student `S101` holding `B101` is read back with the id `" B101"`. |
| Records.IssuedLineAsWrittenSingle | Library.py:64-80 | The saved line of a student holding one clean book reads back, as written, as that student holding exactly the id with a blank in front. |
| Records.IssuedFileAsWrittenSingle | Library.py:56-80 | The file saved while one student held one clean book loads, as written, as that student holding exactly the id with a blank in front, and not the id itself. |
| LibraryStore.IssueAgainAfterRestart | Library.py:12-164 | A library restarted from the files saved while one student held a book (such as `S101` holding `B101`) lets any student, the holder included, borrow that same book again: `issue_book` reports success. |
| LibraryStore.RestartExampleApplies | Library.py:68-80 | The book `B101` and the student `S101` meet what `IssueAgainAfterRestart` asks of its inputs. |
| Records.ParseIssuedFileAsWritten | Library.py:56-72 | The source's reading of the whole file, with each id kept as the line has it. The records read never hold an empty set. |
| Records.ParseIssuedFile | Library.py:56-72 | The corrected reading of the whole file, with each id stripped. The records read never hold an empty set. |
| Records.IssuedFileReadsBack | Library.py:56-83 | Under the corrected reading, saving clean records, with students and ids in any order, and loading the file again gives back the same records. |
| Records.SavedFileReadsBack | Library.py:56-83 | Under the corrected reading, any file that `SaveIssuedRecords` may write for clean records reads back as those records. |
| Records.Enumerate | Library.py:78-80 | An iteration order of a set visits every element exactly once. |
| Bookkeeping.FindIssued | Library.py:145-149 | The scan stops at the first set that holds the book. It reports true exactly when some student holds the book. |
| Bookkeeping.IssuedIdsMember | Library.py:115-115 | An id is in the union of the issued sets exactly when some student's set holds it. |
| Bookkeeping.Issue | Library.py:158-161 | Issuing adds the student's key if it was absent and adds the book to that student's set. Every other entry stays as it was. |
| Bookkeeping.Return | Library.py:177-183 | Returning removes the book from the student's set. The key is deleted exactly when nothing else is left in it. Every other key and entry stays as it was. |
| Bookkeeping.IssuedIdsAfterIssue | Library.py:158-161 | After an issue, the issued ids are the old ones plus exactly the book. |
| Bookkeeping.IssuedIdsAfterReturn | Library.py:177-183 | After a return, the issued ids are the old ones minus exactly the book, since no other student holds it. |
| Bookkeeping.IdsAfterAdd | Library.py:100-102 | Appending a book adds exactly its id to the catalog's ids, so the id set keeps mirroring the catalog. |
| Bookkeeping.UniqueAfterAdd | Library.py:90-102 | Appending a book whose id is new keeps the catalog free of duplicate ids. |
| Bookkeeping.AddKeepsConsistent | Library.py:87-105 | Adding a book under a new id keeps every invariant. |
| Bookkeeping.IssueKeepsConsistent | Library.py:138-161 | Issuing a catalog book that nobody holds keeps every invariant: a book is held by one student at most, every issued id is in the catalog, and no set is empty. |
| Bookkeeping.IssueKeepsExclusive | Library.py:145-161 | Issuing a book that nobody holds leaves every book in at most one student's set. |
| Bookkeeping.ReturnKeepsExclusive | Library.py:173-183 | Returning a book leaves every book in at most one student's set. |
| Bookkeeping.ReturnKeepsConsistent | Library.py:173-183 | Returning a held book keeps every invariant. In particular, no student is left with an empty set. |
| Bookkeeping.EmptyIsConsistent | Library.py:12-22 | The state built from two absent files meets every invariant. |
| Bookkeeping.IssueThenReturn | Library.py:158-183 | Issuing a book and then returning it restores the issued records exactly. This holds when the student did not hold the book and had no empty entry. |
| Bookkeeping.Available | Library.py:115-120 | The available list holds a book exactly when the book is in the catalog and its id is in no issued set. It is no longer than the catalog. |
| Bookkeeping.ReloadKeepsConsistent | Library.py:12-83 | A consistent state with clean books and records, saved to both files and loaded again under the corrected reading, comes back unchanged and so is consistent. |
| Bookkeeping.ReloadAsWrittenBreaks | Library.py:56-83 | Under the source's reading, the same reload is not consistent as soon as any student holds a book (with non-empty catalog ids): the last saved line loads an id with a leading blank, which no catalog book has. |
| Bookkeeping.UnissuedMembers | Library.py:115-120 | A book is listed exactly when it is in the catalog and its id is in no issued set. |
| Bookkeeping.UnissuedPositions | Library.py:117-120 | The list is the catalog's subsequence at exactly the positions whose id is not issued, taken in increasing order. |
| Bookkeeping.AvailableAfterAdd | Library.py:100-120 | A book added under an id that is neither a catalog id nor issued is listed at the end of the list, exactly once; the issued ids need not be catalog ids, as after a restart. |
| Bookkeeping.AvailableAfterIssue | Library.py:115-161 | Issuing a book removes it, and only it, from the list. |
| Bookkeeping.AvailableAfterIssueReturn | Library.py:115-183 | Issuing a free book and returning it gives back the same list. |
| Text.Trim | Library.py:35-35 | The stripped string neither starts nor ends with whitespace. A string that already has that shape is unchanged. |
| Text.TrimSlice | Library.py:35-35 | The stripped string is a contiguous piece of the string. |
| Text.TrimCount | Library.py:35-35 | Stripping keeps every occurrence of a non-blank character. |
| Text.Split | Library.py:35-35 | Splitting gives one more piece than there are separators, and no piece holds the separator. |
| Text.JoinSplit | Library.py:64-80 | Joining the pieces of a split gives back the string. |
| Text.SplitJoin | Library.py:64-80 | Splitting a join of separator-free pieces gives back the pieces. |
| Text.NormalizeId | Library.py:91-91 | A normalised id is stripped, as long as the stripped input, and has no lower-case letter. |
| Text.NormalizeIdIdempotent | Library.py:91-91 | Normalising a normalised id again changes nothing. |
| Text.NormalizeIdUpperFirst | Library.py:91-91 | Normalising an id gives the same result as upper-casing it first and then stripping it. |
| Text.NormalizeIdSame | Library.py:91-92 | Two inputs normalise to the same id exactly when they are equal after upper-casing and stripping, that is, when they differ only in case and in surrounding blanks. So the duplicate test in `add_book` ignores case. |
| Text.TitleFrom | Library.py:97-98 | Title-casing keeps the length. It changes only letters, and keeps each letter a letter. Every letter is lower-cased when a letter precedes it and upper-cased otherwise; for the first character, the flag says whether a letter precedes it. |
| Text.TitleCaseKeepsTrim | Library.py:97-98 | A stripped title stays stripped after title-casing. |

## Left out

- Console input and output are not modelled: the prompts, messages and printed listings. Each operation takes its inputs as parameters and returns a `Status` or a `Report` instead.
- LibraryStore.Library.AddBook: a used id returns `DuplicateId` with nothing changed. The source instead asks for another id until it gets an unused one (Library.py:90-95).
- The main menu loop (Library.py:193-224) is not modelled.
- The file system is not modelled: opening files, `os.path.exists`, and the `IOError` branches. A file is the sequence of its lines, an absent file is the empty sequence, and every write is taken to succeed.
- Text.IsSpace: the model's characters are ASCII only. Whitespace, `upper` and `title` are defined for code points below 128, whereas Python applies its Unicode tables.
- LibraryStore.Library.SaveIssuedRecords: the students are written in any order the model chooses, whereas Python writes them in dictionary insertion order. The order of lines does not change the records read back.
- LibraryStore.Library.constructor: the invariants are established only for two absent files. The source does not check a file it reads: it may hold duplicate ids, or a book issued to two students. So for arbitrary files the model states only what the loader guarantees. For files the library saved, `Bookkeeping.ReloadKeepsConsistent` proves the invariants under the corrected reading only. Under the source's reading they fail for a saved state whose ids are clean and non-empty, in which some student holds a book (`Bookkeeping.ReloadAsWrittenBreaks`).
- LibraryStore.Library.DisplayAvailableBooks: it returns the list. It does not model the printed count or the numbered lines.
- LibraryStore.Library.IssueBook updates the records in one step, with `Bookkeeping.Issue`. The source does it in two: it creates the empty set, then adds to it. The resulting map is the same.

## Findings

| source | as written | input that shows it | evidently intended | confidence | as-written member | corrected member |
|---|---|---|---|---|---|---|
| Library.py:68 | The loader splits the text after the colon at each comma and keeps every piece as it is, without stripping it. The saver (Library.py:80) writes a blank after the colon. | Student `S101` holding `B101` is saved as `S101: B101`, which loads with the id `" B101"`. After a restart, issue_book then finds `B101` unissued and issues it a second time. | Each id is stripped on reading, so that a saved record reads back unchanged. | not executed | Records.IssuedLineAsWrittenFirstId | Records.IssuedLineRoundTrip |
