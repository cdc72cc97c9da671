/** The `Book` record and the list operations the handlers perform on a file's contents. */
module Books {
  import opened JavaInt
  import opened Text

  datatype Option<T> = None | Some(value: T)

  /** A calendar date as a day number; `LocalDate.plusDays(n)` is addition of `n`. */
  type Day = int

  /** Days between issue and due date (`RETURN_TIME`). */
  const RETURN_TIME: int := 15

  /** The five shelf categories a new book may be filed under (`CATEGORIES`). */
  const CATEGORIES: seq<string> := ["Computer", "Electronics", "Electrical", "Civil", "Mechanical"]

  /** One book record. The same type serves the catalog and the issued ledger: the three loan
      fields are absent until `issueBook` stamps them. `price` is only ever stored. */
  datatype Book = Book(
    id: int32,
    name: string,
    author: string,
    quantity: int32,
    price: real,
    rackNo: int32,
    category: string,
    studentName: Option<string>,
    issuedDate: Option<Day>,
    dueDate: Option<Day>)

  /** The seven-argument constructor: a catalog record with no loan fields. */
  function NewBook(id: int32, name: string, author: string, quantity: int32, price: real,
                   rackNo: int32, category: string): (b: Book)
    ensures b.studentName.None? && b.issuedDate.None? && b.dueDate.None?
    ensures b.id == id && b.quantity == quantity && b.category == category
    ensures b.name == name && b.author == author && b.price == price && b.rackNo == rackNo
  {
    Book(id, name, author, quantity, price, rackNo, category, None, None, None)
  }

  /** `Book.issueBook(studentName, returnTimeDays)` on day `today`: records the borrower and the
      dates, and leaves every catalog field as it was. */
  function Stamped(b: Book, studentName: string, returnTimeDays: int, today: Day): (r: Book)
    ensures r.studentName == Some(studentName)
    ensures r.issuedDate == Some(today) && r.dueDate == Some(today + returnTimeDays)
    ensures SameCatalogFields(r, b)
  {
    b.(studentName := Some(studentName), issuedDate := Some(today),
       dueDate := Some(today + returnTimeDays))
  }

  /** The two records agree on every field except the loan fields. */
  predicate SameCatalogFields(a: Book, b: Book) {
    a.id == b.id && a.name == b.name && a.author == b.author && a.quantity == b.quantity &&
    a.price == b.price && a.rackNo == b.rackNo && a.category == b.category
  }

  /** Some record in `s` carries `id`. */
  predicate HasId(s: seq<Book>, id: int) {
    exists i :: 0 <= i < |s| && s[i].id == id
  }

  /** The position of the first record with `id`, or -1: what every index-search loop and
      `findBookById` compute. */
  function IndexOf(s: seq<Book>, id: int): (k: int)
    ensures -1 <= k < |s|
    ensures k >= 0 ==> s[k].id == id && forall j :: 0 <= j < k ==> s[j].id != id
    ensures k < 0 <==> !HasId(s, id)
  {
    if s == [] then -1
    else if s[0].id == id then 0
    else
      var k := IndexOf(s[1..], id);
      if k < 0 then -1 else k + 1
  }

  /** `List.remove` of the element at position `k`: the others keep their relative order. */
  function RemoveAt(s: seq<Book>, k: int): (r: seq<Book>)
    requires 0 <= k < |s|
    ensures |r| == |s| - 1
    ensures forall j :: 0 <= j < k ==> r[j] == s[j]
    ensures forall j :: k <= j < |r| ==> r[j] == s[j + 1]
    ensures multiset(r) + multiset{s[k]} == multiset(s)
  {
    assert s == s[..k] + [s[k]] + s[k + 1..];
    s[..k] + s[k + 1..]
  }

  /** The records of `s` that `keep` accepts, in stored order (`stream().filter(...)`). */
  function Filter(s: seq<Book>, keep: Book -> bool): (r: seq<Book>)
    ensures forall b :: b in r ==> keep(b)
    ensures forall b :: b in s && keep(b) ==> b in r
    ensures forall b :: multiset(r)[b] == if keep(b) then multiset(s)[b] else 0
  {
    if s == [] then []
    else
      assert s == [s[0]] + s[1..];
      (if keep(s[0]) then [s[0]] else []) + Filter(s[1..], keep)
  }

  /** Filtering a concatenation filters each part and keeps them in order. */
  lemma {:induction false} FilterAppend(s: seq<Book>, t: seq<Book>, keep: Book -> bool)
    ensures Filter(s + t, keep) == Filter(s, keep) + Filter(t, keep)
  {
    if s == [] {
      assert s + t == t;
    } else {
      assert (s + t)[1..] == s[1..] + t;
      FilterAppend(s[1..], t, keep);
    }
  }

  /** The search-by-id test `b.getId() == id`. */
  function MatchesId(id: int): Book -> bool {
    (b: Book) => b.id == id
  }

  /** The search-by-name test `b.getName().equalsIgnoreCase(name)`. */
  function MatchesName(name: string): Book -> bool {
    (b: Book) => EqualsIgnoreCase(b.name, name)
  }

  /** Search by id: the records whose id is `id`. */
  function SearchById(s: seq<Book>, id: int): (r: seq<Book>)
    ensures forall b :: b in r ==> b.id == id
    ensures forall b :: b in s && b.id == id ==> b in r
  {
    Filter(s, MatchesId(id))
  }

  /** Search by name: the records whose name equals `name` ignoring case. */
  function SearchByName(s: seq<Book>, name: string): (r: seq<Book>)
    ensures forall b :: b in r ==> EqualsIgnoreCase(b.name, name)
    ensures forall b :: b in s && EqualsIgnoreCase(b.name, name) ==> b in r
  {
    Filter(s, MatchesName(name))
  }

  /** No two records share an id. */
  predicate IdsUnique(s: seq<Book>) {
    forall i, j :: 0 <= i < j < |s| ==> s[i].id != s[j].id
  }

  /** In a catalog whose ids are unique, search by id yields exactly the record
      `findBookById` finds, or nothing. */
  lemma {:induction false} SearchByIdUnique(s: seq<Book>, id: int)
    requires IdsUnique(s)
    ensures SearchById(s, id) == if IndexOf(s, id) < 0 then [] else [s[IndexOf(s, id)]]
  {
    if s != [] {
      assert s == [s[0]] + s[1..];
      FilterAppend([s[0]], s[1..], MatchesId(id));
      assert IdsUnique(s[1..]);
      SearchByIdUnique(s[1..], id);
      if s[0].id == id {
        assert !HasId(s[1..], id);
      }
    }
  }

  /** The exact sum of the quantities. */
  function Sum(s: seq<Book>): int {
    if s == [] then 0 else Sum(s[..|s| - 1]) + s[|s| - 1].quantity
  }

  lemma SumAppend(s: seq<Book>, b: Book)
    ensures Sum(s + [b]) == Sum(s) + b.quantity
  {
    assert (s + [b])[..|s|] == s;
  }

  /** Replacing one record changes the sum by the change in that record's quantity. */
  lemma {:induction false} SumUpdate(s: seq<Book>, k: int, b: Book)
    requires 0 <= k < |s|
    ensures Sum(s[k := b]) == Sum(s) - s[k].quantity + b.quantity
  {
    var n := |s| - 1;
    if k < n {
      assert s[k := b][..n] == s[..n][k := b];
      SumUpdate(s[..n], k, b);
    } else {
      assert s[k := b][..n] == s[..n];
    }
  }

  /** The sum of a concatenation is the sum of the parts. */
  lemma {:induction false} SumConcat(s: seq<Book>, t: seq<Book>)
    ensures Sum(s + t) == Sum(s) + Sum(t)
  {
    if t == [] {
      assert s + t == s;
    } else {
      var n := |t| - 1;
      assert (s + t)[..|s + t| - 1] == s + t[..n];
      SumConcat(s, t[..n]);
    }
  }

  /** Removing one record takes its quantity out of the sum. */
  lemma SumRemoveAt(s: seq<Book>, k: int)
    requires 0 <= k < |s|
    ensures Sum(RemoveAt(s, k)) == Sum(s) - s[k].quantity
  {
    var front, back := s[..k], s[k + 1..];
    assert RemoveAt(s, k) == front + back;
    SumPart(s, k);
    SumConcat(front, back);
  }

  lemma SumPart(s: seq<Book>, k: int)
    requires 0 <= k < |s|
    ensures Sum(s) == Sum(s[..k]) + s[k].quantity + Sum(s[k + 1..])
  {
    var front, back := s[..k], s[k + 1..];
    var mid := [s[k]] + back;
    assert s == front + mid;
    SumConcat(front, mid);
    SumConcat([s[k]], back);
    SumAppend([], s[k]);
    assert [] + [s[k]] == [s[k]];
  }

  /** Every quantity is at least zero. */
  predicate QuantitiesNonNegative(s: seq<Book>) {
    forall i :: 0 <= i < |s| ==> s[i].quantity >= 0
  }
}
