# Library management: catalog and loan ledger

A model of the record-keeping core of a single-user console library system. The system keeps
two ordered lists of `Book` records, each saved whole to its own file: the catalog
(`library_books.dat`) and the ledger of issued books (`issued_books.dat`). Every console
handler reads whole files, changes the list, and writes whole files back. The model drops the
prompts and printing and keeps what the handlers do to the lists:

- **add**: checks the category choice (1..5) and rejects an id already in the catalog, then appends;
- **delete**: removes the first record with the id, only if the user answers "y" (any case);
- **search**: by exact id, or by name ignoring case, in stored order;
- **issue**: the first record with the id must have a positive quantity; it is stamped with
  the student name and the dates (due 15 days after today), its quantity drops by one, and a
  copy is appended to the ledger;
- **return**: removes the first ledger entry with the id and adds one to the first catalog
  record with that id, if there still is one;
- **edit**: replaces only the fields given a non-empty answer;
- **view**: totals the catalog quantities.

Layout:

- `java_int.dfy` (`JavaInt`): Java's 32-bit `int`. Ids, quantities, rack numbers and the
  category choice are `int32`. The return increment and the running total wrap around as
  Java's `int` does.
- `text.dfy` (`Text`): `String.equalsIgnoreCase` with ASCII case mapping, and its agreement
  with comparing lower-cased strings.
- `books.dfy` (`Books`): the `Book` record, the constants `RETURN_TIME` and `CATEGORIES`, and
  the list functions the handlers use: first index of an id, removal at a position, filter,
  and the sum of quantities.
- `handlers.dfy` (`Handlers`): each handler as a function from the two files' contents before to
  an `Outcome` (which message it ends with) and the contents after. The lemmas relate
  several operations.
- `library.dfy` (`LibrarySystem`): the class `Library`. Its fields `bookFile` and `issueFile`
  are the two files. `readFromFile`/`writeToFile` read and assign them. Each handler is a
  method whose prompted values are parameters. The five handlers that change the files (add,
  delete, issue, return, edit) are each proved equal to their `Handlers` function.
  `SearchBooks` is proved equal to `SearchById` or `SearchByName` of the catalog, according
  to the choice. `ViewBooks` keeps the source's accumulation loop and is proved to return the
  catalog total wrapped to an `int`. The index searches are one loop method, `LocateId`.
  `IssueAndReturnSession` is a short verified session on empty files: add a book with two
  copies, find it, refuse a second add of its id, issue it until it is out of stock, return
  one copy, and fail to delete an absent id. It uses only the handlers' contracts.

Some behaviour of the code differs from what a reader might expect of a library catalog. The
model follows the code:

- One `Book` type serves both lists. The loan fields stay empty until an issue stamps them.
  Issue stamps them on the catalog record too, so after an issue and a return the catalog
  record keeps the last borrower's name and dates (`Handlers.IssueThenReturnKeepsStamp`).
- Quantities are not kept non-negative. Add and edit store any `int`. Only issue guards its
  decrement, so non-negativity is kept by issue (`Handlers.IssueKeepsQuantitiesNonNegative`)
  and is not an invariant of the catalog.
- Delete has a third outcome: the user declines the confirmation.
- Only issue refuses a quantity adjustment, when the quantity is not positive. Return
  increments without a bound. At `Integer.MAX_VALUE` the increment wraps to
  `Integer.MIN_VALUE`, so a successful return can store a negative quantity.
- Issue followed by return restores the ledger to its old contents when it held no earlier loan
  of that id. With an earlier loan it need not. Return removes the *first* matching entry.

Dates are day numbers. "Today" is a parameter of issue.

## Model

| member | source | states |
|---|---|---|
| `JavaInt.Wrap` | LibraryManagementSystem.java:446 | the stored `int` is congruent to the exact value modulo 2^32, and equals it when it fits |
| `JavaInt.WrapAdd` | LibraryManagementSystem.java:443-447 | adding step by step with wrap-around stores the wrapped exact sum |
| `JavaInt.Increment` | LibraryManagementSystem.java:416 | `quantity + 1` is one more, except `MAX_VALUE` wraps to `MIN_VALUE` |
| `Text.EqualsIgnoreCase` | LibraryManagementSystem.java:247 | `a.equalsIgnoreCase(b)`: same length, and at each position the characters are equal, equal after upper-casing, or equal after lower-casing the upper-cased characters (ASCII case mapping only); identical strings always match |
| `Text.EqualsIgnoreCaseIffLower` | LibraryManagementSystem.java:281 | with ASCII case mapping, `equalsIgnoreCase` holds exactly when the lower-cased strings are equal |
| `Text.EqualsIgnoreCaseIsEquivalence` | LibraryManagementSystem.java:281 | ignoring case is reflexive, symmetric and transitive |
| `Books.NewBook` | LibraryManagementSystem.java:35-43 | a new record carries the given id, name, author, quantity, price, rack number and category, and no loan fields |
| `Books.Stamped` | LibraryManagementSystem.java:69-73 | `issueBook` sets the student, issue date = today, due date = today + days, and leaves every catalog field unchanged |
| `Books.IndexOf` | LibraryManagementSystem.java:538-546 | the result is -1 exactly when no record has the id; otherwise it is the first position with that id |
| `Books.RemoveAt` | LibraryManagementSystem.java:248 | one record fewer; those before the position are kept, those after shift down by one, in order; the multiset loses exactly the removed record |
| `Books.Filter` | LibraryManagementSystem.java:277 | the result holds only accepted records, and every accepted record of the input as many times as the input holds it |
| `Books.FilterAppend` | LibraryManagementSystem.java:277-281 | filtering preserves stored order: the filter of a concatenation is the concatenation of the filters |
| `Books.SearchById` | LibraryManagementSystem.java:277 | exactly the catalog records whose id is the query |
| `Books.SearchByName` | LibraryManagementSystem.java:281 | exactly the catalog records whose name equals the query ignoring case |
| `Books.SearchByIdUnique` | LibraryManagementSystem.java:274-277 | with unique ids, search by id yields the single record `findBookById` finds, or nothing |
| `Books.SumUpdate` | LibraryManagementSystem.java:443-447 | replacing one record changes the total by that record's change in quantity |
| `Books.SumRemoveAt` | LibraryManagementSystem.java:443-447 | removing one record takes its quantity out of the total |
| `Handlers.AddBook` | LibraryManagementSystem.java:181-223 | invalid category (outside 1..5) and duplicate id each leave both files unchanged; otherwise the new record is appended after all earlier records, with every given field, a category from `CATEGORIES`, and no loan fields |
| `Handlers.DeleteBook` | LibraryManagementSystem.java:228-258 | not found or not confirmed leaves both files unchanged; otherwise exactly the first record with the id is removed and the rest keep their order |
| `Handlers.IssueBook` | LibraryManagementSystem.java:321-367 | absent id or quantity <= 0 changes nothing; otherwise only the first matching record changes: quantity - 1 and the loan stamp. The ledger gains one record at the end with the id, student, today and today + 15 |
| `Handlers.ReturnBook` | LibraryManagementSystem.java:391-428 | no ledger entry with the id changes nothing; otherwise the first ledger entry with the id is removed and the others keep order. The first catalog record with the id gets quantity + 1 (Java `int`), and the catalog is unchanged if the id is absent |
| `Handlers.Edited` | LibraryManagementSystem.java:475-495 | each field given a non-empty answer is replaced; id, category and loan fields never change |
| `Handlers.EditBook` | LibraryManagementSystem.java:457-505 | not found changes nothing; otherwise only the first matching record is edited, in place, and the ledger is untouched |
| `Handlers.AddThenAddSameId` | LibraryManagementSystem.java:199-203 | after a successful add, adding any record with the same id is refused and changes nothing |
| `Handlers.AddThenFind` | LibraryManagementSystem.java:216-219 | after a successful add, the first record with the id is the new last one, with the quantity given |
| `Handlers.AddKeepsIdsUnique` | LibraryManagementSystem.java:199-219 | add keeps the catalog's ids unique |
| `Handlers.DeleteKeepsIdsUnique` | LibraryManagementSystem.java:234-249 | delete keeps the catalog's ids unique |
| `Handlers.InPlaceUpdatesKeepIds` | LibraryManagementSystem.java:345-350 | issue, return and edit keep the catalog's length and every record's id |
| `Handlers.InPlaceUpdatesKeepIdsUnique` | LibraryManagementSystem.java:413-420 | issue, return and edit keep the catalog's ids unique |
| `Handlers.IssueKeepsQuantitiesNonNegative` | LibraryManagementSystem.java:339-346 | issue never takes a non-negative quantity below zero |
| `Handlers.IssueConservesCopies` | LibraryManagementSystem.java:345-355 | a successful issue lowers the catalog total by one, so total plus loans is unchanged |
| `Handlers.ReturnConservesCopies` | LibraryManagementSystem.java:406-421 | a successful return of a catalogued book below `MAX_VALUE` raises the total by one, so total plus loans is unchanged |
| `Handlers.IssueKeepsFirstIndex` | LibraryManagementSystem.java:345-349 | after a successful issue, the issued record is still the first catalog record with its id |
| `Handlers.IssueThenReturnKeepsStamp` | LibraryManagementSystem.java:345-350 | after issue then return, the catalog record still carries the student's name, the issue day and the due day |
| `Handlers.IssueThenReturn` | LibraryManagementSystem.java:339-421 | issue then return succeeds and restores every catalog field except the loan stamp, and the total. The ledger returns to its old length, and to its old contents when it held no earlier loan of the id |
| `Handlers.EditTotal` | LibraryManagementSystem.java:485-487 | an edit changes the total by exactly the edited record's change in quantity |
| `Handlers.DeleteTotal` | LibraryManagementSystem.java:248-249 | a confirmed delete takes the deleted record's quantity out of the total |
| `LibrarySystem.LocateId` | LibraryManagementSystem.java:331-337 | the index-search loop finds the first position with the id, or -1 |
| `LibrarySystem.Library.constructor` | LibraryManagementSystem.java:549-554 | before anything is saved, both files read as empty lists |
| `LibrarySystem.Library.ReadFromFile` | LibraryManagementSystem.java:549-563 | reading returns the whole list last saved in that file |
| `LibrarySystem.Library.WriteToFile` | LibraryManagementSystem.java:565-571 | writing replaces that file's list and leaves the other file alone |
| `LibrarySystem.Library.FindBookById` | LibraryManagementSystem.java:538-546 | nothing exactly when no record has the id; otherwise the first record with it |
| `LibrarySystem.Library.AddBook` | LibraryManagementSystem.java:181-223 | outcome and new files are those of `Handlers.AddBook` |
| `LibrarySystem.Library.DeleteBook` | LibraryManagementSystem.java:228-258 | outcome and new files are those of `Handlers.DeleteBook` |
| `LibrarySystem.Library.SearchBooks` | LibraryManagementSystem.java:263-296 | choice "1" gives the id search, "2" the name search, and anything else gives nothing; every result is a catalog record |
| `LibrarySystem.Library.IssueBook` | LibraryManagementSystem.java:321-367 | outcome and new files are those of `Handlers.IssueBook` |
| `LibrarySystem.Library.RemoveIssuedBook` | LibraryManagementSystem.java:391-428 | outcome and new files are those of `Handlers.ReturnBook` |
| `LibrarySystem.Library.ViewBooks` | LibraryManagementSystem.java:433-452 | the total is the sum of the catalog quantities wrapped to an `int`, and is exactly that sum when it fits |
| `LibrarySystem.Library.EditBooks` | LibraryManagementSystem.java:457-505 | outcome and new files are those of `Handlers.EditBook` |

## Left out

- Console and menu code is not modelled: `main`, `mainMenu`, `issueMenu`, `clearConsole`,
  `pressEnterToContinue`, `printCurrentTime`, `toString`, `toIssuedString` and all printing.
  `viewIssuedBooks` only reads and prints the ledger; `ReadFromFile(IssueFile)` is its content.
- The password gate `passwordProtected` is not modelled. It is an interactive loop over a
  constant.
- Input parsing is not modelled: `getIntInput`, `getDoubleInput`, and the parsing in
  `editBooks`. The handlers take already-parsed values. A malformed number typed during
  `editBooks` throws `NumberFormatException` before the file is written. The model does not
  capture that path: `Edits` holds parsed values only.
- Java object serialization and storage errors are not modelled. A file that cannot be read
  (the source prints an error and carries on with an empty list) and a write that fails (the
  source prints an error) are both out. Files here are always readable and writable.
- `LocalDate.now()` and date formatting are not modelled. Today is an integer day number
  passed in, and `plusDays` is addition, without `LocalDate`'s year range.
- `double` price is modelled as `real`. It is only stored and overwritten, never computed.
- Text.EqualsIgnoreCase (and the per-character Text.CharEqualsIgnoreCase): case is mapped for
  the ASCII letters only, because Java's full Unicode upper/lower-case tables are library data
  outside this model.
- The gap between issue's two writes is not represented. In the source the two file writes are separate and a failed
  second write would leave the catalog decremented without a loan. Writes cannot fail here.
