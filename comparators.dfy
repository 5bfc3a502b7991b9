/**
 * The four three-way comparators the dashboard hands to the array sort, and the
 * column that selects one of them.
 */
module Comparators {
  import opened Ledger
  import JsString
  import Sorting

  /** Ascending order by title under the JavaScript string order. */
  function CompareTitle(a: Transaction, b: Transaction): (r: int)
    ensures r == -1 <==> JsString.Less(a.title, b.title)
    ensures r == 0 <==> a.title == b.title
    ensures r == 1 <==> JsString.Less(b.title, a.title)
  {
    JsString.LessTrichotomy(a.title, b.title);
    if JsString.Less(a.title, b.title) then -1
    else if JsString.Less(b.title, a.title) then 1
    else 0
  }

  /** Ascending order by amount. */
  function CompareValue(a: Transaction, b: Transaction): (r: int)
    ensures r == -1 <==> a.value < b.value
    ensures r == 0 <==> a.value == b.value
    ensures r == 1 <==> a.value > b.value
  {
    if a.value < b.value then -1
    else if a.value > b.value then 1
    else 0
  }

  /**
   * JavaScript's `<` and `>` on two plain objects first convert each to a primitive;
   * for an object without its own conversion that is the same fixed text for all.
   */
  function ToPrimitive(c: Category): string
  {
    "[object Object]"
  }

  /** JavaScript `x < y` where both operands are category objects. */
  predicate ObjectLess(x: Category, y: Category)
  {
    JsString.Less(ToPrimitive(x), ToPrimitive(y))
  }

  /** Compares the category objects themselves, which never orders any pair. */
  function CompareCategory(a: Transaction, b: Transaction): (r: int)
    ensures r == 0
  {
    JsString.LessIrreflexive("[object Object]");
    if ObjectLess(a.category, b.category) then -1
    else if ObjectLess(b.category, a.category) then 1
    else 0
  }

  /** The date comparator also compares the category objects, never the creation date. */
  function CompareDate(a: Transaction, b: Transaction): (r: int)
    ensures r == 0
    ensures r == CompareCategory(a, b)
  {
    JsString.LessIrreflexive("[object Object]");
    if ObjectLess(a.category, b.category) then -1
    else if ObjectLess(b.category, a.category) then 1
    else 0
  }

  /** The date comparator's result does not depend on either creation date. */
  lemma CompareDateIgnoresCreatedAt(a: Transaction, b: Transaction, da: string, db: string)
    ensures CompareDate(a.(createdAt := da), b.(createdAt := db)) == CompareDate(a, b)
  {
  }

  /** The title comparator is a total preorder, as the sort requires. */
  lemma CompareTitleConsistent()
    ensures Sorting.Consistent(CompareTitle)
  {
    forall a, b
      ensures Sorting.NotAfter(CompareTitle, a, b) || CompareTitle(b, a) < 0
    {
      JsString.LessTrichotomy(a.title, b.title);
    }
    forall a, b, c | Sorting.NotAfter(CompareTitle, a, b) && Sorting.NotAfter(CompareTitle, b, c)
      ensures Sorting.NotAfter(CompareTitle, a, c)
    {
      JsString.LessTrichotomy(a.title, b.title);
      JsString.LessTrichotomy(b.title, c.title);
      JsString.LessTrichotomy(a.title, c.title);
      if a.title != b.title && b.title != c.title {
        JsString.LessTransitive(a.title, b.title, c.title);
      }
    }
  }

  /** The amount comparator is a total preorder. */
  lemma CompareValueConsistent()
    ensures Sorting.Consistent(CompareValue)
  {
  }

  /** A comparator that ties every pair puts every sequence in order already. */
  lemma {:induction false} AllTiedIsSorted(cmp: (Transaction, Transaction) -> int, s: seq<Transaction>)
    requires cmp == CompareCategory || cmp == CompareDate
    ensures Sorting.SortedBy(cmp, s)
  {
  }
}
