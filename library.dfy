/** The console handlers of the library system with the prompts and printing taken out: each
    reads whole files, changes the list step by step, and writes whole files back. */
module LibrarySystem {
  import opened JavaInt
  import opened Text
  import opened Books
  import opened Handlers

  /** The two data files: `BOOK_FILE` (the catalog) and `ISSUE_FILE` (the issued ledger). */
  datatype FileName = BookFile | IssueFile

  /** The index-search loop of the handlers (and of `findBookById`): the position of the first
      record with `id`, or -1 when there is none. */
  method LocateId(books: seq<Book>, id: int32) returns (k: int)
    ensures -1 <= k < |books|
    ensures k == IndexOf(books, id)
  {
    k := -1;
    for i := 0 to |books|
      invariant forall j :: 0 <= j < i ==> books[j].id != id
    {
      if books[i].id == id {
        k := i;
        break;
      }
    }
  }

  class Library {
    /** What `BOOK_FILE` holds. */
    var bookFile: seq<Book>
    /** What `ISSUE_FILE` holds. */
    var issueFile: seq<Book>

    /** A fresh start: neither file exists yet, and a missing file reads as an empty list. */
    constructor ()
      ensures bookFile == [] && issueFile == []
    {
      bookFile, issueFile := [], [];
    }

    /** Both files' contents. */
    function Contents(): Files
      reads this
    {
      Files(bookFile, issueFile)
    }

    /** What the named file holds. */
    function Stored(name: FileName): seq<Book>
      reads this
    {
      match name
      case BookFile => bookFile
      case IssueFile => issueFile
    }

    /** `readFromFile`: the whole list saved in the file, in saved order. */
    method ReadFromFile(name: FileName) returns (books: seq<Book>)
      ensures books == Stored(name)
    {
      books := if name == BookFile then bookFile else issueFile;
    }

    /** `writeToFile`: replaces the whole file; the other file is untouched, and reading the file
        back yields exactly `books`. */
    method WriteToFile(name: FileName, books: seq<Book>)
      modifies this
      ensures Stored(name) == books
      ensures name == BookFile ==> issueFile == old(issueFile)
      ensures name == IssueFile ==> bookFile == old(bookFile)
    {
      if name == BookFile {
        bookFile := books;
      } else {
        issueFile := books;
      }
    }

    /** `findBookById`: the first record of the file with `id`, or nothing. */
    method FindBookById(id: int32, name: FileName) returns (r: Option<Book>)
      ensures r.None? <==> !HasId(Stored(name), id)
      ensures r.Some? ==> r.value.id == id && r.value == Stored(name)[IndexOf(Stored(name), id)]
    {
      var books := ReadFromFile(name);
      var k := LocateId(books, id);
      r := if k < 0 then None else Some(books[k]);
    }

    /** `addBook`, with the values typed at its prompts as parameters. */
    method AddBook(categoryChoice: int32, id: int32, name: string, author: string,
                   quantity: int32, price: real, rackNo: int32) returns (outcome: Outcome)
      modifies this
      ensures Step(outcome, Contents()) ==
                Handlers.AddBook(old(Contents()), categoryChoice, id, name, author, quantity, price, rackNo)
    {
      if categoryChoice <= 0 || categoryChoice > |CATEGORIES| as int32 {
        return InvalidCategory;
      }
      var category := CATEGORIES[categoryChoice - 1];
      var existing := FindBookById(id, BookFile);
      if existing.Some? {
        return DuplicateId;
      }
      var newBook := NewBook(id, name, author, quantity, price, rackNo, category);
      var books := ReadFromFile(BookFile);
      books := books + [newBook];
      WriteToFile(BookFile, books);
      outcome := Done;
    }

    /** `deleteBook`: `confirm` is the answer to "Do you want to delete it? (Y/N)". */
    method DeleteBook(id: int32, confirm: string) returns (outcome: Outcome)
      modifies this
      ensures Step(outcome, Contents()) == Handlers.DeleteBook(old(Contents()), id, confirm)
    {
      var books := ReadFromFile(BookFile);
      var k := LocateId(books, id);
      if k < 0 {
        return NotFound;
      }
      if !EqualsIgnoreCase(confirm, "y") {
        return Cancelled;
      }
      books := RemoveAt(books, k);
      WriteToFile(BookFile, books);
      outcome := Done;
    }

    /** `searchBooks`: choice "1" searches by `id`, choice "2" by `name`; any other choice finds
        nothing. */
    method SearchBooks(choice: string, id: int32, name: string) returns (results: seq<Book>)
      ensures choice == "1" ==> results == SearchById(bookFile, id)
      ensures choice == "2" ==> results == SearchByName(bookFile, name)
      ensures choice != "1" && choice != "2" ==> results == []
      ensures forall b :: b in results ==> b in bookFile
    {
      var books := ReadFromFile(BookFile);
      results := [];
      if choice == "1" {
        results := SearchById(books, id);
      } else if choice == "2" {
        results := SearchByName(books, name);
      }
    }

    /** `issueBook` on day `today` (the clock reading `LocalDate.now()`). */
    method IssueBook(id: int32, studentName: string, today: Day) returns (outcome: Outcome)
      modifies this
      ensures Step(outcome, Contents()) == Handlers.IssueBook(old(Contents()), id, studentName, today)
    {
      var libraryBooks := ReadFromFile(BookFile);
      var bookIndex := LocateId(libraryBooks, id);
      if bookIndex < 0 {
        return NotFound;
      }
      var bookToIssue := libraryBooks[bookIndex];
      if bookToIssue.quantity <= 0 {
        return OutOfStock;
      }
      bookToIssue := Stamped(bookToIssue, studentName, RETURN_TIME, today);
      bookToIssue := bookToIssue.(quantity := bookToIssue.quantity - 1);
      libraryBooks := libraryBooks[bookIndex := bookToIssue];
      WriteToFile(BookFile, libraryBooks);
      var issuedBooks := ReadFromFile(IssueFile);
      issuedBooks := issuedBooks + [bookToIssue];
      WriteToFile(IssueFile, issuedBooks);
      outcome := Done;
    }

    /** `removeIssuedBook`: the return of a book. */
    method RemoveIssuedBook(id: int32) returns (outcome: Outcome)
      modifies this
      ensures Step(outcome, Contents()) == Handlers.ReturnBook(old(Contents()), id)
    {
      var issuedBooks := ReadFromFile(IssueFile);
      var returnedIndex := LocateId(issuedBooks, id);
      if returnedIndex < 0 {
        return NotFound;
      }
      issuedBooks := RemoveAt(issuedBooks, returnedIndex);
      WriteToFile(IssueFile, issuedBooks);
      var libraryBooks := ReadFromFile(BookFile);
      var i := LocateId(libraryBooks, id);
      if i >= 0 {
        var libBook := libraryBooks[i];
        libBook := libBook.(quantity := Increment(libBook.quantity));
        libraryBooks := libraryBooks[i := libBook];
      }
      WriteToFile(BookFile, libraryBooks);
      outcome := Done;
    }

    /** `viewBooks`: the catalog and the total of its quantities, accumulated in a Java `int`;
        the total is the exact sum whenever that sum fits in an `int`. */
    method ViewBooks() returns (books: seq<Book>, totalBooks: int32)
      ensures books == bookFile
      ensures totalBooks == Wrap(Sum(bookFile))
      ensures InRange(Sum(bookFile)) ==> totalBooks == Sum(bookFile)
    {
      books := ReadFromFile(BookFile);
      totalBooks := 0;
      for i := 0 to |books|
        invariant totalBooks == Wrap(Sum(books[..i]))
      {
        assert books[..i + 1][..i] == books[..i];
        WrapAdd(Sum(books[..i]), books[i].quantity);
        totalBooks := Wrap(totalBooks + books[i].quantity);
      }
      assert books[..|books|] == books;
    }

    /** `editBooks`, with the already-parsed answers to its five prompts. */
    method EditBooks(id: int32, edits: Edits) returns (outcome: Outcome)
      modifies this
      ensures Step(outcome, Contents()) == Handlers.EditBook(old(Contents()), id, edits)
    {
      var books := ReadFromFile(BookFile);
      var bookIndex := LocateId(books, id);
      if bookIndex < 0 {
        return NotFound;
      }
      var bookToEdit := books[bookIndex];
      if edits.name != "" { bookToEdit := bookToEdit.(name := edits.name); }
      if edits.author != "" { bookToEdit := bookToEdit.(author := edits.author); }
      if edits.quantity.Some? { bookToEdit := bookToEdit.(quantity := edits.quantity.value); }
      if edits.price.Some? { bookToEdit := bookToEdit.(price := edits.price.value); }
      if edits.rackNo.Some? { bookToEdit := bookToEdit.(rackNo := edits.rackNo.value); }
      books := books[bookIndex := bookToEdit];
      WriteToFile(BookFile, books);
      outcome := Done;
    }
  }

  /** A session on empty files: add one book with two copies, issue it, run out of stock,
      return it. Only the handlers' contracts are used. */
  method IssueAndReturnSession() {
    var lib := new Library();
    var added := lib.AddBook(4, 1, "X", "A", 2, 9.99, 3);
    assert added == Done;
    assert lib.bookFile[0].category == "Civil";
    var found := lib.FindBookById(1, BookFile);
    assert found.Some? && found.value.quantity == 2;
    var again := lib.AddBook(1, 1, "Y", "B", 5, 1.0, 1);
    assert again == DuplicateId;

    var issued := lib.IssueBook(1, "Alice", 100);
    assert issued == Done;
    assert lib.bookFile[0].quantity == 1;
    assert |lib.issueFile| == 1 && lib.issueFile[0].dueDate == Some(115);
    issued := lib.IssueBook(1, "Bob", 101);
    assert issued == Done && lib.bookFile[0].quantity == 0;
    issued := lib.IssueBook(1, "Carol", 102);
    assert issued == OutOfStock;

    var returned := lib.RemoveIssuedBook(1);
    assert returned == Done;
    assert lib.bookFile[0].quantity == 1;
    assert |lib.issueFile| == 1 && lib.issueFile[0].studentName == Some("Bob");

    var deleted := lib.DeleteBook(7, "y");
    assert deleted == NotFound && |lib.bookFile| == 1;
  }
}
