/** What each console handler does to the two files, as functions from the files' contents
    before to the outcome and the contents after. */
module Handlers {
  import opened JavaInt
  import opened Text
  import opened Books

  /** The contents of the catalog file (`BOOK_FILE`) and of the issued ledger (`ISSUE_FILE`). */
  datatype Files = Files(books: seq<Book>, issued: seq<Book>)

  /** Which message a handler ends with. */
  datatype Outcome =
    | Done             // the record was saved, deleted, issued, returned or modified
    | InvalidCategory  // "Invalid category choice."
    | DuplicateId      // "A book with this ID already exists."
    | NotFound         // "No record found ..." / "No issued book found with that ID."
    | Cancelled        // "Deletion cancelled."
    | OutOfStock       // "Book is out of stock."

  datatype Step = Step(outcome: Outcome, files: Files)

  /** `addBook`: check the category choice (1..5), reject an id already in the catalog, then
      append the new record. The ledger is never touched. */
  function AddBook(f: Files, categoryChoice: int32, id: int32, name: string, author: string,
                   quantity: int32, price: real, rackNo: int32): (s: Step)
    ensures s.outcome in {Done, InvalidCategory, DuplicateId}
    ensures s.outcome == InvalidCategory <==> !(1 <= categoryChoice <= |CATEGORIES|)
    ensures s.outcome == DuplicateId <==> 1 <= categoryChoice <= |CATEGORIES| && HasId(f.books, id)
    ensures s.outcome != Done ==> s.files == f
    ensures s.outcome == Done ==>
      && s.files.issued == f.issued
      && |s.files.books| == |f.books| + 1
      && s.files.books[..|f.books|] == f.books
      && var b := s.files.books[|f.books|];
         b.id == id && b.name == name && b.author == author && b.quantity == quantity &&
         b.price == price && b.rackNo == rackNo && b.category in CATEGORIES &&
         b.category == CATEGORIES[categoryChoice - 1] &&
         b.studentName.None? && b.issuedDate.None? && b.dueDate.None?
  {
    if categoryChoice <= 0 || categoryChoice > |CATEGORIES| as int32 then
      Step(InvalidCategory, f)
    else if IndexOf(f.books, id) >= 0 then
      Step(DuplicateId, f)
    else
      var b := NewBook(id, name, author, quantity, price, rackNo, CATEGORIES[categoryChoice - 1]);
      Step(Done, f.(books := f.books + [b]))
  }

  /** `deleteBook`: find the first record with `id`; only when the answer to the prompt is
      "y" in either case is that record removed. */
  function DeleteBook(f: Files, id: int32, confirm: string): (s: Step)
    ensures s.outcome in {Done, NotFound, Cancelled}
    ensures s.outcome == NotFound <==> !HasId(f.books, id)
    ensures s.outcome == Cancelled <==> HasId(f.books, id) && !EqualsIgnoreCase(confirm, "y")
    ensures s.outcome != Done ==> s.files == f
    ensures s.outcome == Done ==>
      && s.files.issued == f.issued
      && var k := IndexOf(f.books, id);
         && |s.files.books| == |f.books| - 1
         && (forall j :: 0 <= j < k ==> s.files.books[j] == f.books[j] && s.files.books[j].id != id)
         && (forall j :: k <= j < |s.files.books| ==> s.files.books[j] == f.books[j + 1])
         && multiset(s.files.books) + multiset{f.books[k]} == multiset(f.books)
  {
    var k := IndexOf(f.books, id);
    if k < 0 then Step(NotFound, f)
    else if !EqualsIgnoreCase(confirm, "y") then Step(Cancelled, f)
    else Step(Done, f.(books := RemoveAt(f.books, k)))
  }

  /** `issueBook`: the first record with `id` must have a positive quantity; it is stamped with
      the student and the dates, its quantity drops by one, it is written back in place, and a
      copy of it is appended to the ledger. */
  function IssueBook(f: Files, id: int32, studentName: string, today: Day): (s: Step)
    ensures s.outcome in {Done, NotFound, OutOfStock}
    ensures s.outcome == NotFound <==> !HasId(f.books, id)
    ensures s.outcome == OutOfStock <==> HasId(f.books, id) && f.books[IndexOf(f.books, id)].quantity <= 0
    ensures s.outcome != Done ==> s.files == f
    ensures s.outcome == Done ==>
      && var k := IndexOf(f.books, id);
         && |s.files.books| == |f.books|
         && (forall j :: 0 <= j < |f.books| && j != k ==> s.files.books[j] == f.books[j])
         && s.files.books[k].quantity == f.books[k].quantity - 1 >= 0
         && s.files.books[k].(quantity := f.books[k].quantity) ==
              f.books[k].(studentName := s.files.books[k].studentName,
                          issuedDate := s.files.books[k].issuedDate,
                          dueDate := s.files.books[k].dueDate)
         && |s.files.issued| == |f.issued| + 1
         && s.files.issued[..|f.issued|] == f.issued
         && var loan := s.files.issued[|f.issued|];
            && loan == s.files.books[k]
            && loan.id == id
            && loan.studentName == Some(studentName)
            && loan.issuedDate == Some(today)
            && loan.dueDate == Some(today + RETURN_TIME)
  {
    var k := IndexOf(f.books, id);
    if k < 0 then Step(NotFound, f)
    else if f.books[k].quantity <= 0 then Step(OutOfStock, f)
    else
      var stamped := Stamped(f.books[k], studentName, RETURN_TIME, today);
      var b := stamped.(quantity := stamped.quantity - 1);
      Step(Done, Files(f.books[k := b], f.issued + [b]))
  }

  /** `removeIssuedBook`: remove the first ledger entry with `id`; then add one to the quantity
      of the first catalog record with that id, if the catalog still has one. */
  function ReturnBook(f: Files, id: int32): (s: Step)
    ensures s.outcome in {Done, NotFound}
    ensures s.outcome == NotFound <==> !HasId(f.issued, id)
    ensures s.outcome != Done ==> s.files == f
    ensures s.outcome == Done ==>
      && var j := IndexOf(f.issued, id);
         && s.files.issued == RemoveAt(f.issued, j)
         && multiset(s.files.issued) + multiset{f.issued[j]} == multiset(f.issued)
         && |s.files.books| == |f.books|
         && (!HasId(f.books, id) ==> s.files.books == f.books)
         && (HasId(f.books, id) ==>
               var k := IndexOf(f.books, id);
               && s.files.books[k] == f.books[k].(quantity := Increment(f.books[k].quantity))
               && forall i :: 0 <= i < |f.books| && i != k ==> s.files.books[i] == f.books[i])
  {
    var j := IndexOf(f.issued, id);
    if j < 0 then Step(NotFound, f)
    else
      var issued := RemoveAt(f.issued, j);
      var k := IndexOf(f.books, id);
      var books := if k < 0 then f.books
                   else f.books[k := f.books[k].(quantity := Increment(f.books[k].quantity))];
      Step(Done, Files(books, issued))
  }

  /** The replacement values typed at the edit prompts; an empty string or `None` stands for
      pressing Enter, which keeps the current value. */
  datatype Edits = Edits(
    name: string,
    author: string,
    quantity: Option<int32>,
    price: Option<real>,
    rackNo: Option<int32>)

  /** The record after the edit prompts: each field given a non-empty input is replaced. */
  function Edited(b: Book, e: Edits): (r: Book)
    ensures r.name == if e.name != "" then e.name else b.name
    ensures r.author == if e.author != "" then e.author else b.author
    ensures r.quantity == if e.quantity.Some? then e.quantity.value else b.quantity
    ensures r.price == if e.price.Some? then e.price.value else b.price
    ensures r.rackNo == if e.rackNo.Some? then e.rackNo.value else b.rackNo
    ensures r.id == b.id && r.category == b.category
    ensures r.studentName == b.studentName && r.issuedDate == b.issuedDate && r.dueDate == b.dueDate
  {
    var b1 := if e.name != "" then b.(name := e.name) else b;
    var b2 := if e.author != "" then b1.(author := e.author) else b1;
    var b3 := if e.quantity.Some? then b2.(quantity := e.quantity.value) else b2;
    var b4 := if e.price.Some? then b3.(price := e.price.value) else b3;
    if e.rackNo.Some? then b4.(rackNo := e.rackNo.value) else b4
  }

  /** `editBooks`: apply the edits to the first record with `id`, in place. */
  function EditBook(f: Files, id: int32, e: Edits): (s: Step)
    ensures s.outcome in {Done, NotFound}
    ensures s.outcome == NotFound <==> !HasId(f.books, id)
    ensures s.outcome != Done ==> s.files == f
    ensures s.outcome == Done ==>
      && s.files.issued == f.issued
      && |s.files.books| == |f.books|
      && var k := IndexOf(f.books, id);
         && s.files.books[k] == Edited(f.books[k], e)
         && forall i :: 0 <= i < |f.books| && i != k ==> s.files.books[i] == f.books[i]
  {
    var k := IndexOf(f.books, id);
    if k < 0 then Step(NotFound, f)
    else Step(Done, f.(books := f.books[k := Edited(f.books[k], e)]))
  }

  // ---------------------------------------------------------------------------------------
  // Properties relating several operations
  // ---------------------------------------------------------------------------------------

  /** Once a book is added, adding any book with the same id is refused and changes nothing. */
  lemma AddThenAddSameId(f: Files, c: int32, id: int32, name: string, author: string,
                         quantity: int32, price: real, rackNo: int32,
                         c': int32, name': string, author': string,
                         quantity': int32, price': real, rackNo': int32)
    requires AddBook(f, c, id, name, author, quantity, price, rackNo).outcome == Done
    requires 1 <= c' <= |CATEGORIES|
    ensures var g := AddBook(f, c, id, name, author, quantity, price, rackNo).files;
            AddBook(g, c', id, name', author', quantity', price', rackNo') == Step(DuplicateId, g)
  {
    var g := AddBook(f, c, id, name, author, quantity, price, rackNo).files;
    assert g.books[|f.books|].id == id;
  }

  /** After a successful add, the id is found at the end with the quantity given. */
  lemma AddThenFind(f: Files, c: int32, id: int32, name: string, author: string,
                    quantity: int32, price: real, rackNo: int32)
    requires AddBook(f, c, id, name, author, quantity, price, rackNo).outcome == Done
    ensures var g := AddBook(f, c, id, name, author, quantity, price, rackNo).files;
            IndexOf(g.books, id) == |f.books| && g.books[|f.books|].quantity == quantity
  {
    var g := AddBook(f, c, id, name, author, quantity, price, rackNo).files;
    forall j | 0 <= j < |f.books| ensures g.books[j].id != id {
      assert g.books[j] == g.books[..|f.books|][j];
    }
  }

  /** Every operation keeps the catalog's ids unique: add refuses a duplicate, delete only
      removes, and issue, return and edit never change an id. */
  lemma AddKeepsIdsUnique(f: Files, c: int32, id: int32, name: string, author: string,
                          quantity: int32, price: real, rackNo: int32)
    requires IdsUnique(f.books)
    ensures IdsUnique(AddBook(f, c, id, name, author, quantity, price, rackNo).files.books)
  {
    var g := AddBook(f, c, id, name, author, quantity, price, rackNo).files;
    if g != f {
      forall i, j | 0 <= i < j < |g.books| ensures g.books[i].id != g.books[j].id {
        assert g.books[i] == g.books[..|f.books|][i];
        if j < |f.books| {
          assert g.books[j] == g.books[..|f.books|][j];
        }
      }
    }
  }

  lemma DeleteKeepsIdsUnique(f: Files, id: int32, confirm: string)
    requires IdsUnique(f.books)
    ensures IdsUnique(DeleteBook(f, id, confirm).files.books)
  {
    var g := DeleteBook(f, id, confirm).files;
    if g != f {
      var k := IndexOf(f.books, id);
      forall i, j | 0 <= i < j < |g.books| ensures g.books[i].id != g.books[j].id {
        var i' := if i < k then i else i + 1;
        var j' := if j < k then j else j + 1;
        assert g.books[i] == f.books[i'] && g.books[j] == f.books[j'];
      }
    }
  }

  /** The three in-place updates change no id, so they keep the catalog's ids. */
  lemma InPlaceUpdatesKeepIds(f: Files, id: int32, studentName: string, today: Day, e: Edits)
    ensures var g := IssueBook(f, id, studentName, today).files;
            |g.books| == |f.books| && forall i :: 0 <= i < |f.books| ==> g.books[i].id == f.books[i].id
    ensures var g := ReturnBook(f, id).files;
            |g.books| == |f.books| && forall i :: 0 <= i < |f.books| ==> g.books[i].id == f.books[i].id
    ensures var g := EditBook(f, id, e).files;
            |g.books| == |f.books| && forall i :: 0 <= i < |f.books| ==> g.books[i].id == f.books[i].id
  {
  }

  lemma InPlaceUpdatesKeepIdsUnique(f: Files, id: int32, studentName: string, today: Day, e: Edits)
    requires IdsUnique(f.books)
    ensures IdsUnique(IssueBook(f, id, studentName, today).files.books)
    ensures IdsUnique(ReturnBook(f, id).files.books)
    ensures IdsUnique(EditBook(f, id, e).files.books)
  {
    InPlaceUpdatesKeepIds(f, id, studentName, today, e);
  }

  /** Issue never takes a quantity below zero: a catalog with no negative quantity keeps none. */
  lemma IssueKeepsQuantitiesNonNegative(f: Files, id: int32, studentName: string, today: Day)
    requires QuantitiesNonNegative(f.books)
    ensures QuantitiesNonNegative(IssueBook(f, id, studentName, today).files.books)
  {
  }

  /** A successful issue lowers the catalog total by one and lengthens the ledger by one, so
      catalog total plus loans is unchanged. */
  lemma IssueConservesCopies(f: Files, id: int32, studentName: string, today: Day)
    requires IssueBook(f, id, studentName, today).outcome == Done
    ensures var g := IssueBook(f, id, studentName, today).files;
            Sum(g.books) == Sum(f.books) - 1 && Sum(g.books) + |g.issued| == Sum(f.books) + |f.issued|
  {
    var g := IssueBook(f, id, studentName, today).files;
    var k := IndexOf(f.books, id);
    assert g.books == f.books[k := g.books[k]];
    SumUpdate(f.books, k, g.books[k]);
  }

  /** A successful return of a book still in the catalog (and not at the `int` limit) raises the
      catalog total by one and shortens the ledger by one. */
  lemma ReturnConservesCopies(f: Files, id: int32)
    requires ReturnBook(f, id).outcome == Done
    requires HasId(f.books, id) && f.books[IndexOf(f.books, id)].quantity < MAX_VALUE
    ensures var g := ReturnBook(f, id).files;
            Sum(g.books) == Sum(f.books) + 1 && Sum(g.books) + |g.issued| == Sum(f.books) + |f.issued|
  {
    var g := ReturnBook(f, id).files;
    var k := IndexOf(f.books, id);
    assert g.books == f.books[k := g.books[k]];
    SumUpdate(f.books, k, g.books[k]);
  }

  /** After a successful issue the issued record is still the first catalog record with its id. */
  lemma IssueKeepsFirstIndex(f: Files, id: int32, studentName: string, today: Day)
    requires IssueBook(f, id, studentName, today).outcome == Done
    ensures IndexOf(IssueBook(f, id, studentName, today).files.books, id) == IndexOf(f.books, id)
  {
    var mid := IssueBook(f, id, studentName, today).files;
    var k := IndexOf(f.books, id);
    assert mid.books[k].id == id;
    forall j | 0 <= j < k ensures mid.books[j].id != id {
      assert mid.books[j] == f.books[j];
    }
  }

  /** Issuing a book and then returning it restores every catalog quantity and keeps every other
      catalog field except the loan stamp, which stays on the catalog record. The return
      restores the ledger to its old contents when it held no earlier loan of that id; with an
      earlier loan it need not. */
  lemma IssueThenReturn(f: Files, id: int32, studentName: string, today: Day)
    requires IssueBook(f, id, studentName, today).outcome == Done
    ensures var g := ReturnBook(IssueBook(f, id, studentName, today).files, id);
            && g.outcome == Done
            && |g.files.books| == |f.books|
            && (forall i :: 0 <= i < |f.books| ==> SameCatalogFields(g.files.books[i], f.books[i]))
            && Sum(g.files.books) == Sum(f.books)
            && |g.files.issued| == |f.issued|
            && (!HasId(f.issued, id) ==> g.files.issued == f.issued)
  {
    var mid := IssueBook(f, id, studentName, today).files;
    var k := IndexOf(f.books, id);
    IssueKeepsFirstIndex(f, id, studentName, today);
    assert mid.issued[|f.issued|].id == id;
    var g := ReturnBook(mid, id);
    if !HasId(f.issued, id) {
      assert IndexOf(mid.issued, id) == |f.issued| by {
        forall j | 0 <= j < |f.issued| ensures mid.issued[j].id != id {
          assert mid.issued[j] == mid.issued[..|f.issued|][j];
        }
      }
      assert g.files.issued == mid.issued[..|f.issued|];
    }
    assert g.files.books == f.books[k := g.files.books[k]];
    SumUpdate(f.books, k, g.files.books[k]);
  }

  /** The return after an issue leaves the loan stamp on the catalog record: the student's
      name, the issue day and the due day stay there. */
  lemma IssueThenReturnKeepsStamp(f: Files, id: int32, studentName: string, today: Day)
    requires IssueBook(f, id, studentName, today).outcome == Done
    ensures var g := ReturnBook(IssueBook(f, id, studentName, today).files, id);
            var k := IndexOf(f.books, id);
            && g.outcome == Done
            && g.files.books[k].studentName == Some(studentName)
            && g.files.books[k].issuedDate == Some(today)
            && g.files.books[k].dueDate == Some(today + RETURN_TIME)
  {
    var mid := IssueBook(f, id, studentName, today).files;
    IssueKeepsFirstIndex(f, id, studentName, today);
    assert mid.issued[|f.issued|].id == id;
  }

  /** An edit changes the catalog total by exactly the change in the edited record's quantity. */
  lemma EditTotal(f: Files, id: int32, e: Edits)
    requires EditBook(f, id, e).outcome == Done
    ensures var k := IndexOf(f.books, id);
            Sum(EditBook(f, id, e).files.books) ==
              Sum(f.books) - f.books[k].quantity + Edited(f.books[k], e).quantity
  {
    var k := IndexOf(f.books, id);
    SumUpdate(f.books, k, Edited(f.books[k], e));
  }

  /** A confirmed delete takes the deleted record's quantity out of the catalog total. */
  lemma DeleteTotal(f: Files, id: int32, confirm: string)
    requires DeleteBook(f, id, confirm).outcome == Done
    ensures Sum(DeleteBook(f, id, confirm).files.books) == Sum(f.books) - f.books[IndexOf(f.books, id)].quantity
  {
    SumRemoveAt(f.books, IndexOf(f.books, id));
  }
}
