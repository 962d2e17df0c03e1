/** Ordering of landing-page blocks: `_move`, create and delete (app/admin/landing_routes.py). */
module LandingOrder {
  import opened Sorting

  // ---------------------------------------------------------------- the rows of one section

  datatype Item = Item(id: int, order: int)

  type Rows = seq<Item>

  predicate DistinctIds(rows: Rows) {
    forall i, j :: 0 <= i < j < |rows| ==> rows[i].id != rows[j].id
  }

  predicate DistinctOrders(rows: Rows) {
    forall i, j :: 0 <= i < j < |rows| ==> rows[i].order != rows[j].order
  }

  /** The key `(sort_order, id)`. */
  predicate Before(a: Item, b: Item) {
    a.order < b.order || (a.order == b.order && a.id < b.id)
  }

  function Ordered(rows: Rows): Rows {
    Sort(Before, rows)
  }

  /** The ids in the order the page shows them. */
  function Ids(rows: Rows): (ids: seq<int>)
    ensures |ids| == |rows| && forall i :: 0 <= i < |ids| ==> ids[i] == rows[i].id
  {
    seq(|rows|, i requires 0 <= i < |rows| => rows[i].id)
  }

  function Displayed(rows: Rows): seq<int> {
    Ids(Ordered(rows))
  }

  function IndexOf(rows: Rows, id: int): (n: nat)
    ensures n <= |rows|
    ensures n < |rows| ==> rows[n].id == id
    ensures forall i :: 0 <= i < n ==> rows[i].id != id
  {
    if rows == [] || rows[0].id == id then 0 else 1 + IndexOf(rows[1..], id)
  }

  function Largest(rows: Rows): (m: int)
    ensures m >= 0 && forall i :: 0 <= i < |rows| ==> rows[i].order <= m
  {
    if rows == [] then 0
    else
      var m := Largest(rows[1..]);
      if rows[0].order > m then rows[0].order else m
  }

  function Removed(rows: Rows, id: int): Rows {
    if rows == [] then []
    else (if rows[0].id == id then [] else [rows[0]]) + Removed(rows[1..], id)
  }

  // ---------------------------------------------------------------- operations

  /** Give the two rows each other's sort order. */
  function Exchange(rows: Rows, a: Item, b: Item): (r: Rows)
    ensures |r| == |rows|
    ensures forall i :: 0 <= i < |r| ==> r[i] == Exchanged(rows[i], a, b)
  {
    seq(|rows|, i requires 0 <= i < |rows| => Exchanged(rows[i], a, b))
  }

  function Exchanged(x: Item, a: Item, b: Item): Item {
    if x.id == a.id then Item(x.id, b.order) else if x.id == b.id then Item(x.id, a.order) else x
  }

  function Moved(rows: Rows, id: int, up: bool): Rows {
    var ordered := Ordered(rows);
    var idx := IndexOf(ordered, id);
    var other := if up then idx - 1 else idx + 1;
    if idx == |ordered| || other < 0 || other >= |ordered| then rows
    else Exchange(rows, ordered[idx], ordered[other])
  }

  class Section {
    var rows: Rows

    constructor ()
      ensures rows == []
    {
      rows := [];
    }

    method Move(id: int, up: bool)
      requires DistinctIds(rows)
      modifies this
      ensures rows == Moved(old(rows), id, up)
      ensures DistinctIds(rows)
    {
      var ordered := Sort(Before, rows);
      var idx := IndexOf(ordered, id);
      if idx == |ordered| {
        return;
      }
      var other: int := if up then idx as int - 1 else idx + 1;
      if other < 0 || other >= |ordered| {
        return;
      }
      var a, b := ordered[idx], ordered[other];
      OrderedSorted(rows);
      assert a in rows && b in rows;
      hide Sort, IndexOf, DistinctIds;
      DistinctPair(ordered, idx, other);
      ExchangeInPlace(rows, a, b);
      ExchangeIds(rows, a, b);
      var i, j := IndexOf(rows, a.id), IndexOf(rows, b.id);
      rows := rows[i := Item(a.id, b.order)][j := Item(b.id, a.order)];
    }

    /** `id` is the one the database assigns. */
    method Create(id: int)
      requires DistinctIds(rows) && forall i :: 0 <= i < |rows| ==> rows[i].id != id
      modifies this
      ensures rows == old(rows) + [Item(id, Largest(old(rows)) + 10)]
      ensures DistinctIds(rows)
    {
      rows := rows + [Item(id, Largest(rows) + 10)];
    }

    method Delete(id: int)
      requires DistinctIds(rows)
      modifies this
      ensures rows == Removed(old(rows), id)
      ensures DistinctIds(rows)
    {
      RemovedRows(rows, id);
      rows := Removed(rows, id);
    }
  }

  // ---------------------------------------------------------------- distinct sort orders are kept

  lemma {:induction false} RemovedHolds(rows: Rows, id: int)
    ensures forall x :: x in Removed(rows, id) <==> x in rows && x.id != id
  {
    if rows != [] {
      RemovedHolds(rows[1..], id);
      assert rows == [rows[0]] + rows[1..];
    }
  }

  /** A row put before others it differs from keeps ids and sort orders distinct. */
  lemma PrependDistinct(x: Item, rest: Rows, rows: Rows)
    requires rows != [] && rows[0] == x && forall y :: y in rest ==> y in rows[1..]
    ensures DistinctIds(rows) && DistinctIds(rest) ==> DistinctIds([x] + rest)
    ensures DistinctOrders(rows) && DistinctOrders(rest) ==> DistinctOrders([x] + rest)
  {
    forall j | 0 <= j < |rest| ensures exists k :: 0 < k < |rows| && rows[k] == rest[j] {
      assert rest[j] in rest;
      var k :| 0 <= k < |rows[1..]| && rows[1..][k] == rest[j];
      assert rows[k + 1] == rest[j];
    }
  }

  lemma {:induction false} RemovedRows(rows: Rows, id: int)
    ensures DistinctIds(rows) ==> DistinctIds(Removed(rows, id))
    ensures DistinctOrders(rows) ==> DistinctOrders(Removed(rows, id))
  {
    hide *;
    RemovedStep(rows, id);
    if rows != [] {
      RemovedRows(rows[1..], id);
      TailDistinct(rows);
      RemovedHolds(rows[1..], id);
      PrependDistinct(rows[0], Removed(rows[1..], id), rows);
    }
  }

  lemma RemovedStep(rows: Rows, id: int)
    ensures rows == [] ==> Removed(rows, id) == rows
    ensures rows != [] ==>
      Removed(rows, id) == if rows[0].id == id then Removed(rows[1..], id) else [rows[0]] + Removed(rows[1..], id)
  {
  }

  lemma TailDistinct(rows: Rows)
    requires rows != []
    ensures DistinctIds(rows) ==> DistinctIds(rows[1..])
    ensures DistinctOrders(rows) ==> DistinctOrders(rows[1..])
  {
  }

  lemma CreateAppends(rows: Rows, id: int)
    requires DistinctIds(rows) && forall i :: 0 <= i < |rows| ==> rows[i].id != id
    ensures var rows' := rows + [Item(id, Largest(rows) + 10)];
      Displayed(rows') == Displayed(rows) + [id] && (DistinctOrders(rows) ==> DistinctOrders(rows'))
  {
    var x := Item(id, Largest(rows) + 10);
    OrderedSorted(rows);
    OrderedSorted(rows + [x]);
    forall y | y in Ordered(rows) ensures Before(y, x) {
      var i :| 0 <= i < |rows| && rows[i] == y;
    }
    BeforeStrict();
    SortedUnique(Before, Ordered(rows + [x]), Ordered(rows) + [x]);
  }

  lemma DistinctPair(rows: Rows, i: nat, j: nat)
    requires DistinctIds(rows) && i < |rows| && j < |rows| && i != j
    ensures rows[i].id != rows[j].id
  {
  }

  lemma ExchangeIds(rows: Rows, a: Item, b: Item)
    requires DistinctIds(rows)
    ensures DistinctIds(Exchange(rows, a, b))
  {
    forall i ensures 0 <= i < |rows| ==> Exchange(rows, a, b)[i].id == rows[i].id {
    }
  }

  /** Exchanging two rows of the table is two updates at their places. */
  lemma ExchangeInPlace(rows: Rows, a: Item, b: Item)
    requires DistinctIds(rows) && a in rows && b in rows && a.id != b.id
    ensures var (i, j) := (IndexOf(rows, a.id), IndexOf(rows, b.id));
      && i < |rows| && j < |rows| && i != j && rows[i] == a && rows[j] == b
      && Exchange(rows, a, b) == rows[i := Item(a.id, b.order)][j := Item(b.id, a.order)]
  {
    var i: nat :| i < |rows| && rows[i] == a;
    var j: nat :| j < |rows| && rows[j] == b;
    IndexOfUnique(rows, a.id, i);
    IndexOfUnique(rows, b.id, j);
    hide IndexOf, Exchange;
    ExchangeAt(rows, i, j);
  }

  lemma ExchangeAt(rows: Rows, i: nat, j: nat)
    requires DistinctIds(rows) && i < |rows| && j < |rows| && i != j
    ensures Exchange(rows, rows[i], rows[j]) == rows[i := Item(rows[i].id, rows[j].order)][j := Item(rows[j].id, rows[i].order)]
  {
    var (a, b) := (rows[i], rows[j]);
    forall k: nat | k < |rows| ensures k != i ==> rows[k].id != a.id ensures k != j ==> rows[k].id != b.id {
      if k != i {
        DistinctPair(rows, k, i);
      }
      if k != j {
        DistinctPair(rows, k, j);
      }
    }
    hide DistinctIds;
    var r := rows[i := Item(a.id, b.order)][j := Item(b.id, a.order)];
    forall k: nat | k < |rows| ensures Exchanged(rows[k], a, b) == r[k] {
    }
  }

  lemma BeforeStrict()
    ensures StrictOrder(Before)
  {
  }

  lemma OrderedSorted(rows: Rows)
    requires DistinctIds(rows)
    ensures Sorted(Before, Ordered(rows)) && DistinctIds(Ordered(rows))
  {
    BeforeStrict();
    SortSorted(Before, rows);
    var s := Ordered(rows);
    forall i, j | 0 <= i < j < |s| ensures s[i].id != s[j].id {
      assert s[i] in rows && s[j] in rows && Before(s[i], s[j]);
    }
  }

  // ---------------------------------------------------------------- a move is an adjacent transposition

  /** The displayed rows after positions `lo` and `lo + 1` have traded places but kept their sort orders. */
  function Traded(s: Rows, lo: nat): Rows
    requires lo + 1 < |s|
  {
    s[lo := Item(s[lo + 1].id, s[lo].order)][lo + 1 := Item(s[lo].id, s[lo + 1].order)]
  }

  /**
   * The two neighbours have different sort orders, and each still belongs between its outer neighbour and
   * the other; a tie with an outer neighbour is decided by the ids.
   */
  predicate Fits(s: Rows, lo: nat)
    requires lo + 1 < |s|
  {
    && s[lo].order < s[lo + 1].order
    && (lo > 0 ==> Before(s[lo - 1], Item(s[lo + 1].id, s[lo].order)))
    && (lo + 2 < |s| ==> Before(Item(s[lo].id, s[lo + 1].order), s[lo + 2]))
  }

  lemma ExchangeSymmetric(rows: Rows, a: Item, b: Item)
    requires a.id != b.id
    ensures Exchange(rows, a, b) == Exchange(rows, b, a)
  {
  }

  lemma ExchangeHolds(rows: Rows, s: Rows, lo: nat)
    requires DistinctIds(rows) && s == Ordered(rows) && DistinctIds(s) && lo + 1 < |s|
    ensures forall x :: x in Exchange(rows, s[lo], s[lo + 1]) <==> x in Traded(s, lo)
    ensures DistinctIds(Exchange(rows, s[lo], s[lo + 1]))
  {
    var (r, t) := (Exchange(rows, s[lo], s[lo + 1]), Traded(s, lo));
    forall x | x in r ensures x in t {
      var i :| 0 <= i < |r| && r[i] == x;
      assert rows[i] in s;
      var j :| 0 <= j < |s| && s[j] == rows[i];
      assert t[if j == lo then lo + 1 else if j == lo + 1 then lo else j] == x;
    }
    forall x | x in t ensures x in r {
      var j :| 0 <= j < |t| && t[j] == x;
      var k := if j == lo then lo + 1 else if j == lo + 1 then lo else j;
      assert s[k] in rows;
      var i :| 0 <= i < |rows| && rows[i] == s[k];
      assert r[i] == x;
    }
  }

  lemma TradedSorted(s: Rows, lo: nat)
    requires lo + 1 < |s| && Sorted(Before, s)
    ensures Sorted(Before, Traded(s, lo)) <==> Fits(s, lo)
  {
    var t := Traded(s, lo);
    if Fits(s, lo) {
      forall i, j | 0 <= i < j < |t| ensures Before(t[i], t[j]) {
        assert i + 1 < j ==> Before(s[i], s[j]);
        assert i < lo - 1 ==> Before(s[i], s[lo - 1]);
        assert j > lo + 2 ==> Before(s[lo + 2], s[j]);
      }
    }
    if Sorted(Before, t) {
      assert Before(t[lo], t[lo + 1]) && Before(s[lo], s[lo + 1]);
      assert lo > 0 ==> Before(t[lo - 1], t[lo]);
      assert lo + 2 < |s| ==> Before(t[lo + 1], t[lo + 2]);
    }
  }

  function SwapAt<T>(s: seq<T>, lo: nat): seq<T>
    requires lo + 1 < |s|
  {
    s[lo := s[lo + 1]][lo + 1 := s[lo]]
  }

  /** Exchanging two neighbours shows the list with exactly them swapped if and only if they fit. */
  lemma ExchangeShows(rows: Rows, lo: nat)
    requires DistinctIds(rows) && lo + 1 < |rows|
    ensures var s := Ordered(rows);
      Displayed(Exchange(rows, s[lo], s[lo + 1])) == SwapAt(Displayed(rows), lo) <==> Fits(s, lo)
  {
    OrderedSorted(rows);
    var s := Ordered(rows);
    var (r, t) := (Exchange(rows, s[lo], s[lo + 1]), Traded(s, lo));
    ExchangeHolds(rows, s, lo);
    OrderedSorted(r);
    TradedSorted(s, lo);
    BeforeStrict();
    assert Ids(t) == SwapAt(Displayed(rows), lo);
    var u := Ordered(r);
    if Sorted(Before, t) {
      SortedUnique(Before, u, t);
    }
    if Ids(u) == Ids(t) {
      SameIdsSameRows(u, t);
    }
  }

  lemma SameIdsSameRows(u: Rows, t: Rows)
    requires DistinctIds(u) && Ids(u) == Ids(t) && forall x :: x in u <==> x in t
    ensures u == t
  {
    forall i | 0 <= i < |u| ensures u[i] == t[i] {
      assert t[i] in u;
      var j :| 0 <= j < |u| && u[j] == t[i];
      assert u[i].id == Ids(u)[i] == Ids(t)[i] == t[i].id;
    }
  }

  /** The position of the upper of the two rows a move concerns, if it concerns two. */
  function Upper(rows: Rows, id: int, up: bool): int {
    var idx := IndexOf(Ordered(rows), id);
    if idx == |rows| then -1 else if up then idx - 1 else if idx + 1 < |rows| then idx else -1
  }

  lemma MovedIsExchange(rows: Rows, id: int, up: bool)
    requires DistinctIds(rows)
    ensures var (s, lo) := (Ordered(rows), Upper(rows, id, up));
      Moved(rows, id, up) == if lo < 0 then rows else Exchange(rows, s[lo], s[lo + 1])
  {
    OrderedSorted(rows);
    var (s, lo) := (Ordered(rows), Upper(rows, id, up));
    if lo >= 0 {
      ExchangeSymmetric(rows, s[lo], s[lo + 1]);
    }
  }

  /** A move at the end of the list, or of an unknown row, does nothing; any other one swaps neighbours iff they fit. */
  lemma MoveTransposes(rows: Rows, id: int, up: bool)
    requires DistinctIds(rows)
    ensures var (s, lo) := (Ordered(rows), Upper(rows, id, up));
      if lo < 0 then Moved(rows, id, up) == rows
      else Displayed(Moved(rows, id, up)) == SwapAt(Displayed(rows), lo) <==> Fits(s, lo)
  {
    MovedIsExchange(rows, id, up);
    if Upper(rows, id, up) >= 0 {
      ExchangeShows(rows, Upper(rows, id, up));
    }
  }

  /** With distinct sort orders every pair of neighbours fits. */
  lemma DistinctOrdersFit(rows: Rows, lo: nat)
    requires DistinctIds(rows) && DistinctOrders(rows) && lo + 1 < |rows|
    ensures Fits(Ordered(rows), lo)
  {
    OrderedSorted(rows);
    var s := Ordered(rows);
    forall i | 0 <= i < |s| - 1 ensures s[i].order < s[i + 1].order {
      assert Before(s[i], s[i + 1]) && s[i] in rows && s[i + 1] in rows;
    }
  }

  // ---------------------------------------------------------------- conservation and undo

  function Orders(rows: Rows): (r: seq<int>)
    ensures |r| == |rows| && forall i :: 0 <= i < |r| ==> r[i] == rows[i].order
  {
    seq(|rows|, i requires 0 <= i < |rows| => rows[i].order)
  }

  lemma SwapKeepsMultiset(s: seq<int>, i: nat, j: nat)
    requires i < |s| && j < |s|
    ensures multiset(s[i := s[j]][j := s[i]]) == multiset(s)
  {
  }

  /** A move never creates or loses a sort order, and keeps ids and distinctness. */
  lemma MoveConserves(rows: Rows, id: int, up: bool)
    requires DistinctIds(rows)
    ensures var r := Moved(rows, id, up);
      && Ids(r) == Ids(rows) && multiset(Orders(r)) == multiset(Orders(rows))
      && (DistinctOrders(rows) ==> DistinctOrders(r))
  {
    MovedIsExchange(rows, id, up);
    var lo := Upper(rows, id, up);
    if lo >= 0 {
      OrderedSorted(rows);
      var s := Ordered(rows);
      assert s[lo] in rows && s[lo + 1] in rows;
      hide Ordered, Upper;
      ExchangeConserves(rows, s[lo], s[lo + 1]);
    }
  }

  lemma ExchangeConserves(rows: Rows, a: Item, b: Item)
    requires DistinctIds(rows) && a in rows && b in rows && a.id != b.id
    ensures var r := Exchange(rows, a, b);
      && Ids(r) == Ids(rows) && multiset(Orders(r)) == multiset(Orders(rows))
      && (DistinctOrders(rows) ==> DistinctOrders(r))
  {
    ExchangeInPlace(rows, a, b);
    var (i, j) := (IndexOf(rows, a.id), IndexOf(rows, b.id));
    hide *;
    TradedOrders(rows, i, j);
  }

  /** Two places of the table exchange their sort orders. */
  lemma TradedOrders(rows: Rows, i: nat, j: nat)
    requires i < |rows| && j < |rows| && i != j
    ensures var r := rows[i := Item(rows[i].id, rows[j].order)][j := Item(rows[j].id, rows[i].order)];
      && Ids(r) == Ids(rows) && multiset(Orders(r)) == multiset(Orders(rows))
      && (DistinctOrders(rows) ==> DistinctOrders(r))
  {
    var r := rows[i := Item(rows[i].id, rows[j].order)][j := Item(rows[j].id, rows[i].order)];
    assert Orders(r) == Orders(rows)[i := Orders(rows)[j]][j := Orders(rows)[i]];
    SwapKeepsMultiset(Orders(rows), i, j);
    if DistinctOrders(rows) {
      forall k, m | 0 <= k < m < |r| ensures r[k].order != r[m].order {
        var (k', m') := (Trade(k, i, j), Trade(m, i, j));
        assert r[k].order == rows[k'].order && r[m].order == rows[m'].order;
      }
    }
  }

  function Trade(k: nat, i: nat, j: nat): nat {
    if k == i then j else if k == j then i else k
  }

  lemma IndexOfUnique(s: Rows, id: int, k: nat)
    requires DistinctIds(s) && k < |s| && s[k].id == id
    ensures IndexOf(s, id) == k
  {
  }

  /** What the list is after two neighbours that fit were exchanged. */
  lemma OrderedAfterExchange(rows: Rows, lo: nat)
    requires DistinctIds(rows) && lo + 1 < |rows| && Fits(Ordered(rows), lo)
    ensures var s := Ordered(rows);
      DistinctIds(Exchange(rows, s[lo], s[lo + 1])) && Ordered(Exchange(rows, s[lo], s[lo + 1])) == Traded(s, lo)
  {
    OrderedSorted(rows);
    var s := Ordered(rows);
    ExchangeHolds(rows, s, lo);
    TradedSorted(s, lo);
    OrderedSorted(Exchange(rows, s[lo], s[lo + 1]));
    BeforeStrict();
    SortedUnique(Before, Ordered(Exchange(rows, s[lo], s[lo + 1])), Traded(s, lo));
  }

  /** Exchanging twice, the second time with the traded rows, restores the table. */
  lemma ExchangeTwice(rows: Rows, s: Rows, lo: nat)
    requires DistinctIds(rows) && DistinctIds(s) && lo + 1 < |s| && s[lo] in rows && s[lo + 1] in rows
    ensures var t := Traded(s, lo);
      Exchange(Exchange(rows, s[lo], s[lo + 1]), t[lo], t[lo + 1]) == rows
  {
    var (a, b) := (s[lo], s[lo + 1]);
    forall i | 0 <= i < |rows|
      ensures Exchanged(Exchanged(rows[i], a, b), Item(b.id, a.order), Item(a.id, b.order)) == rows[i]
    {
      var j :| 0 <= j < |rows| && rows[j] == a;
      var k :| 0 <= k < |rows| && rows[k] == b;
    }
  }

  lemma UpThenDownInside(rows: Rows, id: int, lo: nat)
    requires DistinctIds(rows) && DistinctOrders(rows) && Upper(rows, id, true) == lo
    ensures Moved(Moved(rows, id, true), id, false) == rows
  {
    OrderedSorted(rows);
    var s := Ordered(rows);
    MovedIsExchange(rows, id, true);
    var r := Exchange(rows, s[lo], s[lo + 1]);
    DistinctOrdersFit(rows, lo);
    OrderedAfterExchange(rows, lo);
    IndexOfUnique(s, id, lo + 1);
    IndexOfUnique(Traded(s, lo), id, lo);
    MovedIsExchange(r, id, false);
    assert Upper(r, id, false) == lo;
    assert s[lo] in rows && s[lo + 1] in rows;
    hide *;
    ExchangeTwice(rows, s, lo);
  }

  /** Moving the first row down changes the table, if there is a second row. */
  lemma FirstDownChanges(rows: Rows)
    requires DistinctIds(rows) && DistinctOrders(rows) && |rows| > 1
    ensures Moved(rows, Displayed(rows)[0], false) != rows
  {
    var id := Displayed(rows)[0];
    OrderedSorted(rows);
    IndexOfUnique(Ordered(rows), id, 0);
    MoveTransposes(rows, id, false);
    DistinctOrdersFit(rows, 0);
    assert Displayed(rows)[0] == Ordered(rows)[0].id != Ordered(rows)[1].id == Displayed(rows)[1];
  }

  /**
   * Moving a row up and down again restores every row of the table if and only if the row was not first, or
   * was alone. A first row goes nowhere on the way up, so that only the second move counts.
   */
  lemma UpThenDown(rows: Rows, id: int)
    requires DistinctIds(rows) && DistinctOrders(rows)
    ensures Moved(Moved(rows, id, true), id, false) == rows <==> |rows| <= 1 || Displayed(rows)[0] != id
    ensures rows != [] && Displayed(rows)[0] == id ==> Moved(rows, id, true) == rows
  {
    OrderedSorted(rows);
    MovedIsExchange(rows, id, true);
    MovedIsExchange(rows, id, false);
    if |rows| > 1 && Displayed(rows)[0] == id {
      FirstDownChanges(rows);
    }
    hide Moved, Ordered, Exchange;
    if Upper(rows, id, true) >= 0 {
      UpThenDownInside(rows, id, Upper(rows, id, true));
    }
  }

  // ---------------------------------------------------------------- ties

  /** Two neighbours with the same sort order cannot be told to trade places: the move leaves every row as it was. */
  lemma TiedNeighboursStay(rows: Rows, id: int, up: bool)
    requires DistinctIds(rows) && Upper(rows, id, up) >= 0
    requires var (s, lo) := (Ordered(rows), Upper(rows, id, up)); s[lo].order == s[lo + 1].order
    ensures Moved(rows, id, up) == rows
  {
    MovedIsExchange(rows, id, up);
    OrderedSorted(rows);
    var (s, lo) := (Ordered(rows), Upper(rows, id, up));
    assert s[lo] in rows && s[lo + 1] in rows;
    hide Ordered, Upper, Moved;
    EqualOrdersStay(rows, s[lo], s[lo + 1]);
  }

  lemma EqualOrdersStay(rows: Rows, a: Item, b: Item)
    requires DistinctIds(rows) && a in rows && b in rows && a.order == b.order
    ensures Exchange(rows, a, b) == rows
  {
    forall i | 0 <= i < |rows| ensures Exchanged(rows[i], a, b) == rows[i] {
      var j :| 0 <= j < |rows| && rows[j] == a;
      var k :| 0 <= k < |rows| && rows[k] == b;
    }
  }

  lemma OrderedIs(rows: Rows, shown: Rows)
    requires DistinctIds(rows) && Sorted(Before, shown) && forall x :: x in shown <==> x in rows
    ensures Ordered(rows) == shown
  {
    OrderedSorted(rows);
    BeforeStrict();
    SortedUnique(Before, Ordered(rows), shown);
  }

  lemma MovedUp(rows: Rows, k: nat)
    requires 0 < k < |rows| && DistinctIds(rows) && Ordered(rows) == rows
    ensures Moved(rows, rows[k].id, true) == rows[k := Item(rows[k].id, rows[k - 1].order)][k - 1 := Item(rows[k - 1].id, rows[k].order)]
  {
    IndexOfUnique(rows, rows[k].id, k);
    hide Ordered, IndexOf;
    ExchangeAt(rows, k, k - 1);
  }

  /** A tie with the row beyond does worse: here the third row overtakes both rows above it. */
  lemma TieJumpsTwo()
    ensures var rows := [Item(5, 10), Item(6, 10), Item(3, 20)];
      Displayed(rows) == [5, 6, 3] && Displayed(Moved(rows, 3, true)) == [3, 5, 6]
  {
    var rows := [Item(5, 10), Item(6, 10), Item(3, 20)];
    var moved := [Item(5, 10), Item(6, 20), Item(3, 10)];
    var shown := [Item(3, 10), Item(5, 10), Item(6, 20)];
    assert Sorted(Before, rows) && Sorted(Before, shown) && DistinctIds(rows) && DistinctIds(moved);
    assert forall x :: x in shown <==> x in moved;
    assert rows[2 := Item(3, 10)][1 := Item(6, 20)] == moved;
    assert Ids(rows) == [5, 6, 3] && Ids(shown) == [3, 5, 6];
    hide Ordered, Sorted, DistinctIds, Moved, Ids, Before;
    OrderedIs(rows, rows);
    OrderedIs(moved, shown);
    MovedUp(rows, 2);
  }

  // ---------------------------------------------------------------- every order can be reached

  datatype Step = Step(id: int, up: bool)

  function AfterMoves(rows: Rows, moves: seq<Step>): Rows
    decreases |moves|
  {
    if moves == [] then rows else AfterMoves(Moved(rows, moves[0].id, moves[0].up), moves[1..])
  }

  predicate Tidy(rows: Rows) {
    DistinctIds(rows) && DistinctOrders(rows)
  }

  lemma {:induction false} MovesKeepTidy(rows: Rows, moves: seq<Step>)
    requires Tidy(rows)
    ensures Tidy(AfterMoves(rows, moves)) && |AfterMoves(rows, moves)| == |rows|
    decreases |moves|
  {
    if moves != [] {
      hide Moved;
      var r := Moved(rows, moves[0].id, moves[0].up);
      MoveConserves(rows, moves[0].id, moves[0].up);
      assert forall i :: 0 <= i < |r| ==> r[i].id == Ids(r)[i] == rows[i].id;
      MovesKeepTidy(r, moves[1..]);
    }
  }

  lemma {:induction false} MovesConcat(rows: Rows, a: seq<Step>, b: seq<Step>)
    ensures AfterMoves(rows, a + b) == AfterMoves(AfterMoves(rows, a), b)
    decreases |a|
  {
    hide *;
    if a == [] {
      assert a + b == b;
      NoMoves(rows);
    } else {
      assert a == [a[0]] + a[1..];
      assert a + b == [a[0]] + (a[1..] + b);
      FirstMove(rows, a[0], a[1..]);
      FirstMove(rows, a[0], a[1..] + b);
      MovesConcat(Moved(rows, a[0].id, a[0].up), a[1..], b);
    }
  }

  lemma UpSwaps(rows: Rows, k: nat)
    requires Tidy(rows) && k + 1 < |rows|
    ensures Displayed(Moved(rows, Displayed(rows)[k + 1], true)) == SwapAt(Displayed(rows), k)
    ensures Tidy(Moved(rows, Displayed(rows)[k + 1], true)) && |Moved(rows, Displayed(rows)[k + 1], true)| == |rows|
  {
    var id := Displayed(rows)[k + 1];
    OrderedSorted(rows);
    IndexOfUnique(Ordered(rows), id, k + 1);
    MoveTransposes(rows, id, true);
    DistinctOrdersFit(rows, k);
    SingleMove(rows, Step(id, true));
  }

  lemma SingleMove(rows: Rows, s: Step)
    requires Tidy(rows)
    ensures Tidy(Moved(rows, s.id, s.up)) && |Moved(rows, s.id, s.up)| == |rows|
  {
    hide Moved;
    MovesKeepTidy(rows, [s]);
    assert [s][1..] == [];
    assert AfterMoves(rows, [s]) == AfterMoves(Moved(rows, s.id, s.up), []);
  }

  /** The list with the element at `from` taken out and put back at `to`. */
  function Lifted(d: seq<int>, to: nat, from: nat): seq<int>
    requires to <= from < |d|
  {
    d[..to] + [d[from]] + d[to..from] + d[from + 1..]
  }

  lemma LiftedSwap(d: seq<int>, to: nat, from: nat)
    requires to < from < |d|
    ensures Lifted(SwapAt(d, from - 1), to, from - 1) == Lifted(d, to, from)
  {
    var s := SwapAt(d, from - 1);
    assert s[..to] == d[..to] && s[from - 1] == d[from];
    assert s[from..] == [d[from - 1]] + d[from + 1..];
    assert d[to..from] == s[to..from - 1] + [d[from - 1]];
  }

  lemma {:induction false} BubbleUp(rows: Rows, to: nat, from: nat) returns (moves: seq<Step>)
    requires Tidy(rows) && to <= from < |rows|
    ensures Displayed(AfterMoves(rows, moves)) == Lifted(Displayed(rows), to, from)
    decreases from
  {
    hide *;
    DisplayedLength(rows);
    var d := Displayed(rows);
    if to == from {
      moves := [];
      NoMoves(rows);
      LiftedNowhere(d, to);
    } else {
      var r := Moved(rows, d[from], true);
      UpSwaps(rows, from - 1);
      var rest := BubbleUp(r, to, from - 1);
      moves := [Step(d[from], true)] + rest;
      FirstMove(rows, Step(d[from], true), rest);
      LiftedSwap(d, to, from);
    }
  }

  lemma DisplayedLength(rows: Rows)
    ensures |Displayed(rows)| == |rows|
  {
  }

  lemma NoMoves(rows: Rows)
    ensures AfterMoves(rows, []) == rows
  {
  }

  lemma FirstMove(rows: Rows, s: Step, rest: seq<Step>)
    ensures AfterMoves(rows, [s] + rest) == AfterMoves(Moved(rows, s.id, s.up), rest)
  {
    hide Moved;
    assert ([s] + rest)[1..] == rest;
  }

  lemma LiftedNowhere(d: seq<int>, to: nat)
    requires to < |d|
    ensures Lifted(d, to, to) == d
  {
  }

  lemma LiftedMultiset(d: seq<int>, to: nat, from: nat)
    requires to <= from < |d|
    ensures multiset(Lifted(d, to, from)) == multiset(d)
    ensures Lifted(d, to, from)[..to + 1] == d[..to] + [d[from]]
  {
    assert d == d[..to] + (d[to..from] + ([d[from]] + d[from + 1..]));
  }

  /** The element a permutation has next lies somewhere behind the part that agrees. */
  lemma FindFrom(d: seq<int>, target: seq<int>, k: nat) returns (j: nat)
    requires multiset(d) == multiset(target) && k < |target| == |d| && d[..k] == target[..k]
    ensures k <= j < |d| && d[j] == target[k]
  {
    assert d == d[..k] + d[k..] && target == target[..k] + target[k..];
    assert multiset(d[..k] + d[k..]) == multiset(d[..k]) + multiset(d[k..]);
    assert multiset(target[..k] + target[k..]) == multiset(target[..k]) + multiset(target[k..]);
    assert multiset(d[k..]) == multiset(d) - multiset(d[..k]) == multiset(target[k..]);
    assert target[k] in target[k..];
    assert target[k] in multiset(d[k..]);
    var i :| 0 <= i < |d[k..]| && d[k..][i] == target[k];
    j := k + i;
  }

  lemma {:induction false} Arrange(rows: Rows, target: seq<int>, k: nat) returns (moves: seq<Step>)
    requires Tidy(rows) && multiset(target) == multiset(Displayed(rows)) && k <= |target| == |rows|
    requires Displayed(rows)[..k] == target[..k]
    ensures Displayed(AfterMoves(rows, moves)) == target
    decreases |target| - k
  {
    var d := Displayed(rows);
    assert |d| == |rows|;
    if k == |target| {
      moves := [];
      assert d[..k] == d && target[..k] == target;
    } else {
      hide *;
      var j := FindFrom(d, target, k);
      var first := BubbleUp(rows, k, j);
      MovesKeepTidy(rows, first);
      LiftedMultiset(d, k, j);
      assert target[..k + 1] == d[..k] + [d[j]];
      var rest := Arrange(AfterMoves(rows, first), target, k + 1);
      moves := first + rest;
      MovesConcat(rows, first, rest);
    }
  }

  /** Any order of a section's blocks can be reached by moves alone. */
  lemma EveryOrderReachable(rows: Rows, target: seq<int>) returns (moves: seq<Step>)
    requires DistinctIds(rows) && DistinctOrders(rows)
    requires multiset(target) == multiset(Displayed(rows))
    ensures Displayed(AfterMoves(rows, moves)) == target
  {
    assert |target| == |multiset(target)| == |multiset(Displayed(rows))| == |rows|;
    moves := Arrange(rows, target, 0);
  }

  // ---------------------------------------------------------------- whole runs of the item pages

  /** The posts of the item pages; the database refuses an id it already has. */
  datatype Post = Create(newId: int) | Move(id: int, up: bool) | Delete(id: int)

  predicate Present(rows: Rows, id: int) {
    exists i :: 0 <= i < |rows| && rows[i].id == id
  }

  function AfterPost(rows: Rows, p: Post): Rows {
    match p
    case Create(id) => if Present(rows, id) then rows else rows + [Item(id, Largest(rows) + 10)]
    case Move(id, up) => Moved(rows, id, up)
    case Delete(id) => Removed(rows, id)
  }

  function AfterPosts(rows: Rows, posts: seq<Post>): Rows {
    if posts == [] then rows
    else AfterPost(AfterPosts(rows, posts[..|posts| - 1]), posts[|posts| - 1])
  }

  lemma PostKeepsTidy(rows: Rows, p: Post)
    requires Tidy(rows)
    ensures Tidy(AfterPost(rows, p))
  {
    match p
    case Create(id) =>
    case Move(id, up) => SingleMove(rows, Step(id, up));
    case Delete(id) => RemovedRows(rows, id);
  }

  /** Creating, moving and deleting in any order never makes two items share an id or a sort order. */
  lemma {:induction false} PostsKeepTidy(rows: Rows, posts: seq<Post>)
    requires Tidy(rows)
    ensures Tidy(AfterPosts(rows, posts))
  {
    hide Tidy, AfterPost;
    if posts != [] {
      PostsKeepTidy(rows, posts[..|posts| - 1]);
      PostKeepsTidy(AfterPosts(rows, posts[..|posts| - 1]), posts[|posts| - 1]);
    }
  }

  /**
   * So on every section the pages can reach from an empty or a tidy one, a move shows exactly two neighbours
   * swapped, except at the ends of the list, where it does nothing.
   */
  lemma ReachableMovesTranspose(rows: Rows, posts: seq<Post>, id: int, up: bool)
    requires Tidy(rows)
    ensures var r := AfterPosts(rows, posts);
      var lo := Upper(r, id, up);
      if lo < 0 then Moved(r, id, up) == r else Displayed(Moved(r, id, up)) == SwapAt(Displayed(r), lo)
  {
    PostsKeepTidy(rows, posts);
    var r := AfterPosts(rows, posts);
    MoveTransposes(r, id, up);
    hide AfterPosts, Ordered, Displayed, Moved, Fits;
    if Upper(r, id, up) >= 0 {
      UpperInside(r, id, up);
      DistinctOrdersFit(r, Upper(r, id, up));
    }
  }

  lemma UpperInside(rows: Rows, id: int, up: bool)
    requires DistinctIds(rows)
    ensures Upper(rows, id, up) + 1 < |rows| || Upper(rows, id, up) < 0
  {
    OrderedSorted(rows);
  }

  // ---------------------------------------------------------------- the sections of the page

  /** The sort orders the page is seeded with, and those of the two sections a later start adds if they are missing. */
  const SEEDED_ORDERS := [10, 20, 30, 40, 50, 60, 70, 80, 90, 100, 110, 120]
  const CARDPRINT_ORDER := 85
  const DOWNLOADS_ORDER := 95

  lemma AppendTwoTidy(rows: Rows, x: Item, y: Item)
    requires Tidy(rows) && x.id != y.id && x.order != y.order
    requires forall i :: 0 <= i < |rows| ==> rows[i].id != x.id && rows[i].id != y.id
    requires forall i :: 0 <= i < |rows| ==> rows[i].order != x.order && rows[i].order != y.order
    ensures Tidy(rows + [x, y])
  {
  }

  lemma SeededOrder(i: nat)
    requires i < |SEEDED_ORDERS|
    ensures SEEDED_ORDERS[i] == 10 * (i + 1)
  {
  }

  lemma SeededTidy(rows: Rows)
    requires DistinctIds(rows) && Orders(rows) == SEEDED_ORDERS
    ensures Tidy(rows)
  {
    hide SEEDED_ORDERS;
    forall i | 0 <= i < |rows| ensures rows[i].order == 10 * (i + 1) {
      SeededOrder(i);
      assert rows[i].order == Orders(rows)[i];
    }
  }

  lemma AddedOrdersUnseeded(order: int)
    requires order in multiset(SEEDED_ORDERS)
    ensures order != CARDPRINT_ORDER && order != DOWNLOADS_ORDER
  {
    hide SEEDED_ORDERS;
    assert order in SEEDED_ORDERS;
    var i :| 0 <= i < |SEEDED_ORDERS| && SEEDED_ORDERS[i] == order;
    SeededOrder(i);
  }

  /** Sections are only moved, so the two added ones never tie with a seeded one, however the page was reordered. */
  lemma AddedSectionsTidy(rows: Rows, moves: seq<Step>, a: int, b: int)
    requires DistinctIds(rows) && Orders(rows) == SEEDED_ORDERS
    requires a != b && !Present(rows, a) && !Present(rows, b)
    ensures Tidy(AfterMoves(rows, moves) + [Item(a, CARDPRINT_ORDER), Item(b, DOWNLOADS_ORDER)])
  {
    SeededTidy(rows);
    MovesKeepTidy(rows, moves);
    MovesKeepOrders(rows, moves);
    var r := AfterMoves(rows, moves);
    var (x, y) := (Item(a, CARDPRINT_ORDER), Item(b, DOWNLOADS_ORDER));
    assert x.order != y.order;
    hide AfterMoves, Tidy, DistinctIds, DistinctOrders, SEEDED_ORDERS, CARDPRINT_ORDER, DOWNLOADS_ORDER;
    forall i | 0 <= i < |r| ensures r[i].id != a && r[i].id != b && r[i].order != x.order && r[i].order != y.order {
      assert r[i].id == Ids(r)[i] == Ids(rows)[i] == rows[i].id;
      assert Orders(r)[i] in multiset(Orders(r));
      AddedOrdersUnseeded(r[i].order);
    }
    AppendTwoTidy(r, x, y);
  }

  lemma {:induction false} MovesKeepOrders(rows: Rows, moves: seq<Step>)
    requires DistinctIds(rows)
    ensures Ids(AfterMoves(rows, moves)) == Ids(rows) && multiset(Orders(AfterMoves(rows, moves))) == multiset(Orders(rows))
    decreases |moves|
  {
    if moves != [] {
      hide Moved;
      var r := Moved(rows, moves[0].id, moves[0].up);
      MoveConserves(rows, moves[0].id, moves[0].up);
      assert forall i :: 0 <= i < |r| ==> r[i].id == Ids(r)[i] == rows[i].id;
      MovesKeepOrders(r, moves[1..]);
    }
  }

  // ---------------------------------------------------------------- what the page shows after each post

  /** With distinct sort orders a move up trades places with the row above, a move down with the row below. */
  lemma MoveShows(rows: Rows, k: nat, up: bool)
    requires Tidy(rows) && k < |rows|
    ensures |Displayed(rows)| == |rows|
    ensures var d := Displayed(rows);
      Displayed(Moved(rows, d[k], up)) ==
        if up && k > 0 then d[k - 1 := d[k]][k := d[k - 1]]
        else if !up && k + 1 < |d| then d[k := d[k + 1]][k + 1 := d[k]]
        else d
  {
    var d := Displayed(rows);
    OrderedSorted(rows);
    IndexOfUnique(Ordered(rows), d[k], k);
    MoveTransposes(rows, d[k], up);
    var lo := Upper(rows, d[k], up);
    assert lo == if up then k - 1 else if k + 1 < |rows| then k else -1;
    if lo >= 0 {
      DistinctOrdersFit(rows, lo);
    }
    hide Moved, Ordered, Fits;
    assert up && k > 0 ==> d[k - 1 := d[k]][k := d[k - 1]] == SwapAt(d, k - 1);
  }

  lemma MoveUnknown(rows: Rows, id: int, up: bool)
    requires DistinctIds(rows) && !Present(rows, id)
    ensures Moved(rows, id, up) == rows
  {
    OrderedSorted(rows);
    var s := Ordered(rows);
    forall i | 0 <= i < |s| ensures s[i].id != id {
      assert s[i] in rows;
    }
  }

  lemma RemovedOrdered(rows: Rows, k: nat)
    requires DistinctIds(rows) && k < |rows|
    ensures |Ordered(rows)| == |rows|
    ensures var s := Ordered(rows); Ordered(Removed(rows, s[k].id)) == s[..k] + s[k + 1..]
  {
    OrderedSorted(rows);
    var s := Ordered(rows);
    assert forall x :: x in s <==> x in rows;
    RemovedRows(rows, s[k].id);
    RemovedHolds(rows, s[k].id);
    LeftSorted(s, k);
    hide Ordered, Removed, Sorted, DistinctIds;
    OrderedIs(Removed(rows, s[k].id), s[..k] + s[k + 1..]);
  }

  lemma IdsWithout(s: Rows, k: nat)
    requires k < |s|
    ensures Ids(s[..k] + s[k + 1..]) == Ids(s)[..k] + Ids(s)[k + 1..]
  {
  }

  /** A delete takes the row out of the list and leaves the others in order. */
  lemma DeleteShows(rows: Rows, k: nat)
    requires DistinctIds(rows) && k < |rows|
    ensures |Displayed(rows)| == |rows|
    ensures Displayed(Removed(rows, Displayed(rows)[k])) == Displayed(rows)[..k] + Displayed(rows)[k + 1..]
  {
    RemovedOrdered(rows, k);
    IdsWithout(Ordered(rows), k);
    hide Ordered, Removed;
  }

  lemma LeftSorted(s: Rows, k: nat)
    requires k < |s| && Sorted(Before, s) && DistinctIds(s)
    ensures Sorted(Before, s[..k] + s[k + 1..])
    ensures forall x :: x in s[..k] + s[k + 1..] <==> x in s && x.id != s[k].id
  {
    hide Before;
    var left := s[..k] + s[k + 1..];
    assert forall i :: 0 <= i < |left| ==> left[i] == s[if i < k then i else i + 1];
    forall x | x in s && x.id != s[k].id ensures x in left {
      var i :| 0 <= i < |s| && s[i] == x;
      assert left[if i < k then i else i - 1] == x;
    }
  }
}
