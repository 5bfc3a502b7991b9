/**
 * The dashboard's transaction list controller: its initial state, the column
 * sort triggered from the table headers, and the sign shown before each amount.
 */
module Dashboard {
  import opened Wrappers
  import opened Ledger
  import opened Comparators
  import Sorting
  import JsString

  /** The four sortable columns, left to right in the table header. */
  datatype Column = ByTitle | ByPrice | ByCategory | ByDate

  /** The key each header sends when clicked, left to right. */
  function HeaderKey(i: nat): (key: string)
    requires i < 4
    ensures Slot(ColumnOf(key)) == i
  {
    ["title", "price", "category", "date"][i]
  }

  /** The column a key selects: three known keys, and every other key falls to the last column. */
  function ColumnOf(key: string): (c: Column)
    ensures c == ByTitle <==> key == "title"
    ensures c == ByPrice <==> key == "price"
    ensures c == ByCategory <==> key == "category"
    ensures c == ByDate <==> key != "title" && key != "price" && key != "category"
  {
    if key == "title" then ByTitle
    else if key == "price" then ByPrice
    else if key == "category" then ByCategory
    else ByDate
  }

  /** The slot of the sort indicator that belongs to a column. */
  function Slot(c: Column): nat
  {
    match c
    case ByTitle => 0
    case ByPrice => 1
    case ByCategory => 2
    case ByDate => 3
  }

  /** The sort indicator after sorting by a column: that column's slot alone is set. */
  function Indicator(c: Column): (r: seq<bool>)
    ensures |r| == 4
    ensures forall i :: 0 <= i < 4 ==> (r[i] <==> i == Slot(c))
  {
    match c
    case ByTitle => [true, false, false, false]
    case ByPrice => [false, true, false, false]
    case ByCategory => [false, false, true, false]
    case ByDate => [false, false, false, true]
  }

  /** Clicking header `i` lights exactly header `i`'s indicator. */
  lemma HeaderLightsItself(i: nat, j: nat)
    requires i < 4 && j < 4
    ensures Indicator(ColumnOf(HeaderKey(i)))[j] <==> j == i
  {
  }

  /** The comparator the sort receives for a column. */
  function ComparatorFor(c: Column): (cmp: (Transaction, Transaction) -> int)
    ensures c == ByTitle ==>
      forall a, b :: cmp(a, b) < 0 <==> JsString.Less(a.title, b.title)
    ensures c == ByPrice ==>
      forall a, b :: cmp(a, b) < 0 <==> a.value < b.value
    ensures c == ByCategory || c == ByDate ==>
      forall a, b :: cmp(a, b) == 0
  {
    match c
    case ByTitle => CompareTitle
    case ByPrice => CompareValue
    case ByCategory => CompareCategory
    case ByDate => CompareDate
  }

  /** Every comparator the dashboard uses is a total preorder. */
  lemma ComparatorConsistent(c: Column)
    ensures Sorting.Consistent(ComparatorFor(c))
  {
    match c
    case ByTitle => CompareTitleConsistent();
    case ByPrice => CompareValueConsistent();
    case ByCategory =>
      forall a, b
        ensures Sorting.NotAfter(CompareCategory, a, b)
      {
        assert CompareCategory(a, b) == 0;
      }
    case ByDate =>
      forall a, b
        ensures Sorting.NotAfter(CompareDate, a, b)
      {
        assert CompareDate(a, b) == 0;
      }
  }

  /** The transaction list after sorting by `key`. */
  function Ordered(key: string, s: seq<Transaction>): seq<Transaction>
  {
    Sorting.InsertionSort(ComparatorFor(ColumnOf(key)), s)
  }

  /** Sorting only reorders: the same transactions, each as often as before, none altered. */
  lemma OrderedPermutes(key: string, s: seq<Transaction>)
    ensures |Ordered(key, s)| == |s|
    ensures multiset(Ordered(key, s)) == multiset(s)
  {
    Sorting.SortPermutes(ComparatorFor(ColumnOf(key)), s);
  }

  /** After sorting by title, the titles are non-decreasing in the JavaScript string order. */
  lemma OrderedByTitle(s: seq<Transaction>)
    ensures var r := Ordered("title", s);
      forall i, j :: 0 <= i < j < |r| ==> !JsString.Less(r[j].title, r[i].title)
  {
    ComparatorConsistent(ByTitle);
    Sorting.SortIsSorted(CompareTitle, s);
    var r := Ordered("title", s);
    forall i, j | 0 <= i < j < |r|
      ensures !JsString.Less(r[j].title, r[i].title)
    {
      assert CompareTitle(r[i], r[j]) <= 0;
    }
  }

  /** After sorting by price, the amounts are non-decreasing. */
  lemma OrderedByPrice(s: seq<Transaction>)
    ensures var r := Ordered("price", s);
      forall i, j :: 0 <= i < j < |r| ==> r[i].value <= r[j].value
  {
    ComparatorConsistent(ByPrice);
    Sorting.SortIsSorted(CompareValue, s);
    var r := Ordered("price", s);
    forall i, j | 0 <= i < j < |r|
      ensures r[i].value <= r[j].value
    {
      assert CompareValue(r[i], r[j]) <= 0;
    }
  }

  /** The sort is stable: transactions tied with any `t` keep their relative order. */
  lemma OrderedIsStable(key: string, t: Transaction, s: seq<Transaction>)
    ensures var cmp := ComparatorFor(ColumnOf(key));
      Sorting.TiedWith(cmp, t, Ordered(key, s)) == Sorting.TiedWith(cmp, t, s)
  {
    ComparatorConsistent(ColumnOf(key));
    Sorting.SortIsStable(ComparatorFor(ColumnOf(key)), t, s);
  }

  /**
   * Every key other than "title" and "price" picks a comparator that ties every pair,
   * so the list keeps exactly the order it had.
   */
  lemma OrderedByOtherKeyKeepsOrder(key: string, s: seq<Transaction>)
    requires key != "title" && key != "price"
    ensures Ordered(key, s) == s
  {
    var cmp := ComparatorFor(ColumnOf(key));
    AllTiedIsSorted(cmp, s);
    Sorting.SortKeepsSorted(cmp, s);
  }

  /** The transactions shown before any fetch: the cached list when there is cached text, else none. */
  function InitialTransactions(stored: Option<string>, parse: string -> seq<Transaction>): (r: seq<Transaction>)
    ensures stored == None || stored == Some("") ==> r == []
    ensures stored.Some? && stored.value != "" ==> r == parse(stored.value)
  {
    if stored.Some? && stored.value != "" then parse(stored.value) else []
  }

  /** The sign written before an amount: a minus exactly for outcome transactions. */
  function SignPrefix(kind: TransactionType): (r: string)
    ensures r == "-" <==> kind == Outcome
    ensures kind == Income ==> r == ""
  {
    match kind
    case Income => ""
    case Outcome => "-"
  }

  /**
   * The text of a row's amount cell: the sign, a space, then `formatted`, the
   * locale's currency rendering of the value.
   */
  function AmountText(t: Transaction, formatted: string): (r: string)
    ensures |r| == |SignPrefix(t.kind)| + 1 + |formatted|
    ensures r[0] == '-' <==> t.kind == Outcome
    ensures t.kind == Income ==> r[0] == ' '
    ensures r[|r| - |formatted|..] == formatted
  {
    SignPrefix(t.kind) + " " + formatted
  }

  /** The controller's state, as the dashboard component holds it. */
  class Controller {
    var transactions: array<Transaction>
    var balance: Option<Balance>
    var active: array<bool>

    ghost predicate Valid()
      reads this
    {
      active.Length == 4
    }

    /** Mounting: the list from the cache if any, no balance yet, no column highlighted. */
    constructor (stored: Option<string>, parse: string -> seq<Transaction>)
      ensures Valid() && fresh(transactions) && fresh(active)
      ensures transactions[..] == InitialTransactions(stored, parse)
      ensures balance == None
      ensures active[..] == [false, false, false, false]
    {
      var initial := InitialTransactions(stored, parse);
      transactions := new Transaction[|initial|](i requires 0 <= i < |initial| => initial[i]);
      balance := None;
      active := new bool[4](i => false);
      new;
      assert transactions[..] == initial;
    }

    /**
     * A successful fetch replaces the list and the balance wholesale; the
     * indicator is left as it was.
     */
    method ApplySnapshot(fetchedBalance: Balance, fetched: seq<Transaction>)
      requires Valid()
      modifies this
      ensures Valid() && fresh(transactions)
      ensures transactions[..] == fetched
      ensures balance == Some(fetchedBalance)
      ensures active == old(active)
    {
      transactions := new Transaction[|fetched|](i requires 0 <= i < |fetched| => fetched[i]);
      assert transactions[..] == fetched;
      balance := Some(fetchedBalance);
    }

    /**
     * A header click: lights the chosen column's indicator, sorts `list` in place
     * ascending with that column's comparator, and makes it the displayed list.
     * `order` is accepted and ignored.
     */
    method OrderBy(key: string, order: string, list: array<Transaction>)
      requires Valid()
      modifies this, list, active
      ensures Valid() && active == old(active)
      ensures transactions == list
      ensures list[..] == Ordered(key, old(list[..]))
      ensures active[..] == Indicator(ColumnOf(key))
      ensures balance == old(balance)
    {
      if key == "title" {
        active[0], active[1], active[2], active[3] := true, false, false, false;
        Sorting.Sort(list, CompareTitle);
      } else if key == "price" {
        active[0], active[1], active[2], active[3] := false, true, false, false;
        Sorting.Sort(list, CompareValue);
      } else if key == "category" {
        active[0], active[1], active[2], active[3] := false, false, true, false;
        Sorting.Sort(list, CompareCategory);
      } else {
        active[0], active[1], active[2], active[3] := false, false, false, true;
        Sorting.Sort(list, CompareDate);
      }
      transactions := list;
      assert active[..] == Indicator(ColumnOf(key));
    }
  }
}
