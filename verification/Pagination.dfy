/** Paging of the audit log: the page window, its rows and the row of page numbers. */
module Pagination {

  const PER_PAGE := 50

  function TotalPages(total: nat): (n: nat)
    ensures n >= 1
  {
    if total == 0 then 1 else (total + PER_PAGE - 1) / PER_PAGE
  }

  /** The page shown for a requested number. */
  function CurrentPage(requested: int, total: nat): (p: nat)
    ensures 1 <= p <= TotalPages(total)
  {
    var wanted := if requested < 1 then 1 else requested;
    if wanted > TotalPages(total) then TotalPages(total) else wanted
  }

  function Min(a: int, b: int): int {
    if a < b then a else b
  }

  /** `query.offset((page - 1) * per).limit(per)`. */
  function PageRows<T>(log: seq<T>, page: nat): seq<T>
    requires page >= 1
  {
    var offset := Min((page - 1) * PER_PAGE, |log|);
    log[offset..Min(offset + PER_PAGE, |log|)]
  }

  function From(total: nat, page: nat): int {
    if total > 0 then Min((page - 1) * PER_PAGE + 1, total) else 0
  }

  function To(total: nat, page: nat): int {
    Min(page * PER_PAGE, total)
  }

  /** The rows of pages 1 to `n`, one after the other. */
  function FirstPages<T>(log: seq<T>, n: nat): seq<T> {
    if n == 0 then [] else FirstPages(log, n - 1) + PageRows(log, n)
  }

  lemma NextPage<T>(log: seq<T>, before: nat, page: nat)
    requires page >= 1 && before == (page - 1) * PER_PAGE
    ensures page * PER_PAGE == before + PER_PAGE
    ensures PageRows(log, page) == log[Min(before, |log|)..Min(before + PER_PAGE, |log|)]
  {
  }

  lemma {:induction false} FirstPagesPrefix<T>(log: seq<T>, n: nat)
    ensures FirstPages(log, n) == log[..Min(n * PER_PAGE, |log|)]
  {
    if n > 0 {
      FirstPagesPrefix(log, n - 1);
      var before := (n - 1) * PER_PAGE;
      NextPage(log, before, n);
      hide PageRows;
      assert log[..Min(before, |log|)] + log[Min(before, |log|)..Min(before + PER_PAGE, |log|)] ==
        log[..Min(before + PER_PAGE, |log|)];
    }
  }

  lemma PageBounds(total: nat, page: nat)
    requires 1 <= page <= TotalPages(total)
    ensures total > 0 ==> (page - 1) * PER_PAGE < total
    ensures TotalPages(total) * PER_PAGE >= total
  {
  }

  /** A number that names a page is shown as asked; any other one shows the nearest page. */
  lemma CurrentPageNearest(requested: int, total: nat, page: int)
    requires 1 <= page <= TotalPages(total)
    ensures var p := CurrentPage(requested, total);
      (1 <= requested <= TotalPages(total) ==> p == requested) && Distance(p, requested) <= Distance(page, requested)
  {
    hide TotalPages;
  }

  function Distance(a: int, b: int): int {
    if a < b then b - a else a - b
  }

  /** The pages partition the log; for any requested number "from" and "to" name the rows shown, at least one unless the log is empty. */
  lemma PagesCoverLog<T>(log: seq<T>, requested: int)
    ensures FirstPages(log, TotalPages(|log|)) == log
    ensures var page := CurrentPage(requested, |log|);
      && (log != [] ==> 1 <= From(|log|, page) <= To(|log|, page) <= |log|)
      && (log != [] ==> PageRows(log, page) == log[From(|log|, page) - 1..To(|log|, page)])
      && (log == [] ==> From(|log|, page) == To(|log|, page) == 0 && PageRows(log, page) == [])
  {
    FirstPagesPrefix(log, TotalPages(|log|));
    var page := CurrentPage(requested, |log|);
    PageBounds(|log|, page);
    hide FirstPages, TotalPages, CurrentPage;
    assert log[..Min(TotalPages(|log|) * PER_PAGE, |log|)] == log;
    PageRowsBounds(log, page);
  }

  /** Every page but the last has fifty rows, and the pages are no more than the log needs. */
  lemma PagesOfFifty<T>(log: seq<T>, page: nat)
    requires 1 <= page <= TotalPages(|log|)
    ensures page < TotalPages(|log|) ==> |PageRows(log, page)| == 50
    ensures page == TotalPages(|log|) ==> |PageRows(log, page)| == |log| - 50 * (page - 1) <= 50
    ensures log != [] ==> PageRows(log, page) != []
  {
    LastPage(|log|, page);
    hide TotalPages;
  }

  lemma LastPage(total: nat, page: nat)
    requires 1 <= page <= TotalPages(total)
    ensures page < TotalPages(total) ==> 50 * page < total
    ensures page == TotalPages(total) ==> 50 * (page - 1) <= total <= 50 * page && (total > 0 ==> 50 * (page - 1) < total)
  {
  }

  lemma PageRowsBounds<T>(log: seq<T>, page: nat)
    requires page >= 1 && (|log| > 0 ==> (page - 1) * PER_PAGE < |log|)
    ensures log != [] ==> 1 <= From(|log|, page) <= To(|log|, page) <= |log|
    ensures log != [] ==> PageRows(log, page) == log[From(|log|, page) - 1..To(|log|, page)]
    ensures log == [] ==> From(|log|, page) == To(|log|, page) == 0 && PageRows(log, page) == []
  {
    if log != [] {
      assert From(|log|, page) == (page - 1) * PER_PAGE + 1;
      assert To(|log|, page) == Min((page - 1) * PER_PAGE + PER_PAGE, |log|);
    }
  }

  // ---------------------------------------------------------------- the row of page numbers

  datatype Token = Page(n: nat) | Ellipsis

  predicate Shown(n: int, page: int, last: int) {
    1 <= n <= last && (n <= 2 || n > last - 2 || page - 1 <= n <= page + 1)
  }

  function Clamp(n: int, most: int): int {
    if n < 0 then 0 else if n > most then most else n
  }

  /** How many tokens pages 1 to `i` can need: two, three and two numbers, and an ellipsis before each later group. */
  function Room(i: int, page: int, last: int): int {
    Clamp(i, 2) + Clamp(i - (page - 2), 3) + Clamp(i - (last - 2), 2) +
    (if i >= page - 1 then 1 else 0) + (if i >= last - 1 then 1 else 0)
  }

  /**
   * Read from the right: a number follows its predecessor directly, or any smaller number after one
   * ellipsis. So an ellipsis stands between two numbers exactly when they are not consecutive.
   */
  predicate WellPunctuated(tokens: seq<Token>) {
    var k := |tokens| - 1;
    k < 0 || (
      tokens[k].Page? && (
        || k == 0
        || (tokens[k - 1].Page? && tokens[k - 1].n + 1 == tokens[k].n && WellPunctuated(tokens[..k]))
        || (k >= 2 && tokens[k - 1].Ellipsis? && tokens[k - 2].Page? && tokens[k - 2].n + 1 < tokens[k].n &&
            WellPunctuated(tokens[..k - 1]))))
  }

  predicate Increasing(tokens: seq<Token>) {
    forall i, j :: 0 <= i < j < |tokens| && tokens[i].Page? && tokens[j].Page? ==> tokens[i].n < tokens[j].n
  }

  lemma {:induction false} PunctuatedIncreasing(tokens: seq<Token>)
    requires WellPunctuated(tokens)
    ensures Increasing(tokens)
  {
    var k := |tokens| - 1;
    if k > 0 {
      var m := if tokens[k - 1].Page? then k else k - 1;
      PunctuatedIncreasing(tokens[..m]);
      assert tokens[..m][m - 1] == tokens[m - 1];
    }
  }

  /** What the loop appends for a shown page `k` after the last shown page `prev`. */
  function Appended(prev: nat, k: nat): seq<Token> {
    if prev != 0 && k - prev > 1 then [Ellipsis, Page(k)] else [Page(k)]
  }

  lemma AppendTokens(tokens: seq<Token>, prev: nat, k: nat)
    requires prev < k && WellPunctuated(tokens)
    requires if tokens == [] then prev == 0 else tokens[|tokens| - 1] == Page(prev) && prev != 0
    ensures WellPunctuated(tokens + Appended(prev, k))
  {
    var more := tokens + Appended(prev, k);
    assert more[..|tokens|] == tokens;
  }

  /** An ellipsis only comes before page - 1 or last - 1. */
  lemma AppendedFits(prev: nat, k: nat, page: nat, last: nat)
    requires 1 <= page <= last && prev < k && Shown(k, page, last)
    requires forall n :: prev < n < k ==> !Shown(n, page, last)
    ensures Room(k - 1, page, last) + |Appended(prev, k)| <= Room(k, page, last)
  {
    if prev != 0 && k - prev > 1 {
      assert !Shown(k - 1, page, last);
    }
  }

  /** The tokens so far hold exactly the shown pages below `k`, of which `prev` is the last. */
  ghost predicate Lists(tokens: seq<Token>, prev: nat, k: nat, page: nat, last: nat) {
    && (forall n: nat :: Page(n) in tokens <==> n < k && Shown(n, page, last))
    && (if tokens == [] then prev == 0 else tokens[|tokens| - 1] == Page(prev) && prev != 0)
    && prev < k && (forall n :: prev < n < k ==> !Shown(n, page, last))
  }

  lemma ListNext(tokens: seq<Token>, prev: nat, k: nat, page: nat, last: nat)
    requires Lists(tokens, prev, k, page, last) && k >= 1
    ensures if Shown(k, page, last) then Lists(tokens + Appended(prev, k), k, k + 1, page, last)
      else Lists(tokens, prev, k + 1, page, last)
  {
    hide Shown;
    assert forall n: nat :: Page(n) in tokens + Appended(prev, k) <==> Page(n) in tokens || n == k;
  }

  method TokensAround(page: nat, last: nat) returns (tokens: seq<Token>)
    requires 1 <= page <= last
    ensures forall n: nat :: Page(n) in tokens <==> Shown(n, page, last)
    ensures Increasing(tokens) && WellPunctuated(tokens)
    ensures |tokens| <= 9
  {
    tokens := [];
    var prev := 0;
    PunctuatedEmpty();
    hide WellPunctuated, Increasing;
    for k := 1 to last + 1
      invariant Lists(tokens, prev, k, page, last)
      invariant WellPunctuated(tokens)
      invariant |tokens| <= Room(k - 1, page, last)
    {
      ListNext(tokens, prev, k, page, last);
      if k <= 2 || k > last - 2 || page - 1 <= k <= page + 1 {
        AppendTokens(tokens, prev, k);
        AppendedFits(prev, k, page, last);
        hide Room, Lists;
        ghost var before := tokens;
        if prev != 0 && k - prev > 1 {
          tokens := tokens + [Ellipsis];
        }
        tokens := tokens + [Page(k)];
        assert tokens == before + Appended(prev, k);
        prev := k;
      } else {
        RoomGrows(k, page, last);
        hide Room, Lists;
      }
    }
    PunctuatedIncreasing(tokens);
  }

  lemma ShownExact(page: nat, last: nat)
    ensures forall n: nat :: Shown(n, page, last) <==> 1 <= n <= last && (n in {1, 2, last - 1, last} || n in {page - 1, page, page + 1})
  {
  }

  /** The row of page numbers for any requested page of a log of any length. */
  method PageTokens(requested: int, total: nat) returns (tokens: seq<Token>)
    ensures var (page, last) := (CurrentPage(requested, total), TotalPages(total));
      forall n: nat :: Page(n) in tokens <==> 1 <= n <= last && (n in {1, 2, last - 1, last} || n in {page - 1, page, page + 1})
    ensures Increasing(tokens) && WellPunctuated(tokens)
    ensures |tokens| <= 9
  {
    ShownExact(CurrentPage(requested, total), TotalPages(total));
    hide Shown, Increasing, WellPunctuated, TotalPages;
    tokens := TokensAround(CurrentPage(requested, total), TotalPages(total));
  }

  lemma PunctuatedEmpty()
    ensures WellPunctuated([])
  {
  }

  lemma RoomGrows(k: nat, page: nat, last: nat)
    requires k >= 1
    ensures Room(k - 1, page, last) <= Room(k, page, last)
  {
  }
}
