/** Paged answers computed from a capped fetch. */
module Pagination {
  import opened Common
  import Tables
  import opened StoreModel
  import Sorting
  import TextOrder

  datatype PageError = BadPage | BadPageSize | BadStatusFilter | BadRunId | BadTestId | TooLarge

  function ClampPagination(page: int, pageSize: int, maxPageSize: int): Result<(nat, nat), PageError> {
    if page < 1 then Failure(BadPage)
    else if pageSize < 1 || pageSize > maxPageSize then Failure(BadPageSize)
    else Success((page, pageSize))
  }

  function TotalPages(total: nat, pageSize: nat): nat
    requires pageSize > 0
  {
    if total != 0 then (total + pageSize - 1) / pageSize else 0
  }

  /** A quotient stays below a bound exactly when the dividend does. */
  lemma QuotientBelow(a: nat, k: nat, n: nat)
    requires k > 0
    ensures a / k < n <==> a < n * k
  {
    var q := a / k;
    assert q * k <= a < q * k + k;
    if q < n { Scale(q + 1, n, k); } else { Scale(n, q, k); }
    assert (q + 1) * k == q * k + k;
  }

  /** The page count is the least number of pages that holds everything. */
  lemma TotalPagesMeaning(total: nat, pageSize: nat, pages: nat)
    requires pageSize > 0
    ensures TotalPages(total, pageSize) <= pages <==> total <= pages * pageSize
  {
    QuotientBelow(total + pageSize - 1, pageSize, pages + 1);
    assert (pages + 1) * pageSize == pages * pageSize + pageSize;
    if total == 0 { Scale(0, pages, pageSize); }
  }

  lemma Scale(a: nat, b: nat, k: nat)
    requires a <= b
    ensures a * k <= b * k
  {
  }

  datatype Page<T> = Page(items: seq<T>, page: nat, totalItems: nat, totalPages: nat)

  /** The query behind one page asks for one page more than it shows, and never more than the cap. */
  function FetchLimit(page: nat, pageSize: nat, cap: Option<nat>): nat {
    var wanted := pageSize * page + pageSize;
    if cap.Some? then Min(cap.value, wanted) else wanted
  }

  function PageOf<T>(all: seq<T>, page: nat, pageSize: nat, cap: Option<nat>): Page<T>
    requires page >= 1 && pageSize >= 1
  {
    var rows := Take(all, FetchLimit(page, pageSize, cap));
    var offset := (page - 1) * pageSize;
    Page(Slice(rows, offset, offset + pageSize), page, |rows|, TotalPages(|rows|, pageSize))
  }

  /** What a caller can ever see. */
  function Visible<T>(all: seq<T>, cap: Option<nat>): seq<T> {
    if cap.Some? then Take(all, cap.value) else all
  }

  /** A page is last exactly when everything visible lies on it or before it, despite the capped total. */
  lemma LastPageMeaning<T>(all: seq<T>, page: nat, pageSize: nat, cap: Option<nat>)
    requires page >= 1 && pageSize >= 1
    ensures page >= PageOf(all, page, pageSize, cap).totalPages <==> |Visible(all, cap)| <= page * pageSize
  {
    TotalPagesMeaning(PageOf(all, page, pageSize, cap).totalItems, pageSize, page);
  }

  /** The pages a client collects from `page` on, until a page is the last by its own account. */
  function Walk<T>(all: seq<T>, page: nat, pageSize: nat, cap: Option<nat>): seq<Page<T>>
    requires page >= 1 && pageSize >= 1
    decreases |Visible(all, cap)| - page
  {
    var p := PageOf(all, page, pageSize, cap);
    LastPageMeaning(all, page, pageSize, cap);
    Scale(1, pageSize, page);
    if page >= p.totalPages then [p] else [p] + Walk(all, page + 1, pageSize, cap)
  }

  function Collected<T>(pages: seq<Page<T>>): seq<T> {
    if pages == [] then [] else pages[0].items + Collected(pages[1..])
  }

  lemma {:induction false} WalkFrom<T>(all: seq<T>, page: nat, pageSize: nat, cap: Option<nat>)
    requires page >= 1 && pageSize >= 1
    requires (page - 1) * pageSize <= |Visible(all, cap)|
    ensures Collected(Walk(all, page, pageSize, cap)) == Visible(all, cap)[(page - 1) * pageSize..]
    decreases |Visible(all, cap)| - page
  {
    hide PageOf, Visible;
    var v := Visible(all, cap);
    var p := PageOf(all, page, pageSize, cap);
    LastPageMeaning(all, page, pageSize, cap);
    PageItems(all, page, pageSize, cap);
    if page >= p.totalPages {
      assert Collected([p]) == p.items + [];
    } else {
      Scale(1, pageSize, page);
      WalkFrom(all, page + 1, pageSize, cap);
      CollectedCons(p, Walk(all, page + 1, pageSize, cap));
    }
  }

  lemma CollectedCons<T>(p: Page<T>, rest: seq<Page<T>>)
    ensures Collected([p] + rest) == p.items + Collected(rest)
  {
    assert ([p] + rest)[1..] == rest;
  }

  /** Counting from a page that still has rows, the walk takes one call for each page left. */
  lemma {:induction false} WalkLength<T>(all: seq<T>, page: nat, pageSize: nat, cap: Option<nat>)
    requires page >= 1 && pageSize >= 1
    requires (page - 1) * pageSize < |Visible(all, cap)|
    ensures |Walk(all, page, pageSize, cap)| == TotalPages(|Visible(all, cap)|, pageSize) - page + 1
    decreases |Visible(all, cap)| - page
  {
    LastPageMeaning(all, page, pageSize, cap);
    if page >= PageOf(all, page, pageSize, cap).totalPages {
      PagesLeft(|Visible(all, cap)|, page, pageSize);
    } else {
      Scale(1, pageSize, page);
      WalkLength(all, page + 1, pageSize, cap);
    }
  }

  /** The rows of one page, cut out of what is visible: the fetch always reaches past the page. */
  lemma PageItems<T>(all: seq<T>, page: nat, pageSize: nat, cap: Option<nat>)
    requires page >= 1 && pageSize >= 1
    requires (page - 1) * pageSize <= |Visible(all, cap)|
    ensures var v, from := Visible(all, cap), (page - 1) * pageSize;
      var items := PageOf(all, page, pageSize, cap).items;
      if |v| <= page * pageSize then items == v[from..]
      else from + pageSize == (page + 1 - 1) * pageSize <= |v| && v[from..] == items + v[from + pageSize..]
  {
    hide Slice, TotalPages, Visible, FetchLimit, Take;
    var v, from := Visible(all, cap), (page - 1) * pageSize;
    assert page * pageSize == from + pageSize;
    FetchReaches(all, page, pageSize, cap, from);
    SliceCut(v, from, from + pageSize);
  }

  lemma FetchReaches<T>(all: seq<T>, page: nat, pageSize: nat, cap: Option<nat>, from: nat)
    requires page >= 1 && pageSize >= 1 && page * pageSize == from + pageSize
    ensures Slice(Take(all, FetchLimit(page, pageSize, cap)), from, from + pageSize)
      == Slice(Visible(all, cap), from, from + pageSize)
  {
    var wanted := from + pageSize + pageSize;
    assert FetchLimit(page, pageSize, cap) == if cap.Some? then Min(cap.value, wanted) else wanted;
  }

  lemma SliceCut<T>(v: seq<T>, from: nat, to: nat)
    requires from <= |v| && from <= to
    ensures Slice(v, from, to) == if |v| <= to then v[from..] else v[from..to]
    ensures |v| > to ==> v[from..] == v[from..to] + v[to..]
  {
  }

  lemma PagesLeft(total: nat, page: nat, pageSize: nat)
    requires page >= 1 && pageSize >= 1 && (page - 1) * pageSize < total <= page * pageSize
    ensures TotalPages(total, pageSize) == page
  {
    TotalPagesMeaning(total, pageSize, page);
    TotalPagesMeaning(total, pageSize, page - 1);
  }

  /**
   Walking the pages until the last one collects everything visible, in order and exactly once:
   the whole result without a cap, its first `cap` rows with one.
   */
  lemma WalkCollectsAll<T>(all: seq<T>, pageSize: nat, cap: Option<nat>)
    requires pageSize >= 1
    ensures Collected(Walk(all, 1, pageSize, cap)) == Visible(all, cap)
    ensures |Walk(all, 1, pageSize, cap)| == Max(1, TotalPages(|Visible(all, cap)|, pageSize))
  {
    WalkFrom(all, 1, pageSize, cap);
    if |Visible(all, cap)| > 0 {
      WalkLength(all, 1, pageSize, cap);
      TotalPagesMeaning(|Visible(all, cap)|, pageSize, 0);
    } else {
      LastPageMeaning(all, 1, pageSize, cap);
    }
  }

  /**
   The pages a client receives when a page over the size limit comes back as an error: up to the
   first one that does not fit.
   */
  function Received<T>(all: seq<T>, page: nat, pageSize: nat, cap: Option<nat>, fits: Page<T> -> bool): seq<Page<T>>
    requires page >= 1 && pageSize >= 1
    decreases |Visible(all, cap)| - page
  {
    var p := PageOf(all, page, pageSize, cap);
    LastPageMeaning(all, page, pageSize, cap);
    Scale(1, pageSize, page);
    if !fits(p) then []
    else if page >= p.totalPages then [p]
    else [p] + Received(all, page + 1, pageSize, cap, fits)
  }

  /** The walk goes through to the end exactly when each of its pages fits; otherwise it stops early. */
  lemma {:induction false} ReceivedExact<T>(
    all: seq<T>, page: nat, pageSize: nat, cap: Option<nat>, fits: Page<T> -> bool)
    requires page >= 1 && pageSize >= 1
    ensures var whole, received := Walk(all, page, pageSize, cap), Received(all, page, pageSize, cap, fits);
      && received <= whole
      && (received == whole <==> forall i :: 0 <= i < |whole| ==> fits(whole[i]))
    decreases |Visible(all, cap)| - page
  {
    hide PageOf, Visible;
    var p := PageOf(all, page, pageSize, cap);
    LastPageMeaning(all, page, pageSize, cap);
    Scale(1, pageSize, page);
    var whole := Walk(all, page, pageSize, cap);
    assert whole[0] == p;
    if fits(p) && page < p.totalPages {
      ReceivedExact(all, page + 1, pageSize, cap, fits);
      var rest := Walk(all, page + 1, pageSize, cap);
      assert whole == [p] + rest;
      assert forall i :: 0 <= i < |rest| ==> rest[i] == whole[i + 1];
      if forall i :: 0 <= i < |rest| ==> fits(rest[i]) {
        forall i | 0 <= i < |whole| ensures fits(whole[i]) { if i > 0 { assert whole[i] == rest[i - 1]; } }
      }
    }
  }

  // ---- assertion status pages ----

  type StatusRow = Tables.Row<Tables.SvaStatus>

  predicate IdStart(c: char) { 'a' <= c <= 'z' }

  predicate IdPart(c: char) { 'a' <= c <= 'z' || '0' <= c <= '9' || c == '_' }

  /** A letter and up to 127 letters, digits or underscores; the pattern lets one final newline pass. */
  predicate ValidId(s: string) {
    var t := if s != "" && s[|s| - 1] == '\n' then s[..|s| - 1] else s;
    1 <= |t| <= 128 && IdStart(t[0]) && forall i :: 1 <= i < |t| ==> IdPart(t[i])
  }

  const STATUSES := {"passing", "failing", "vacuous", "disabled", "unknown"}

  /** An empty text counts as not given, for validation. */
  predicate GivenText(s: Option<string>) { s.Some? && s.value != "" }

  /** The first complaint about the arguments, in the order they are checked. */
  function StatusComplaint(
    runId: Option<string>, testId: Option<string>, status: Option<string>, page: int, pageSize: int, maxPageSize: int)
    : Option<PageError>
  {
    if GivenText(status) && status.value !in STATUSES then Some(BadStatusFilter)
    else if GivenText(runId) && !ValidId(runId.value) then Some(BadRunId)
    else if GivenText(testId) && !ValidId(testId.value) then Some(BadTestId)
    else
      match ClampPagination(page, pageSize, maxPageSize)
      case Failure(e) => Some(e)
      case Success(_) => None
  }

  /** `WHERE run_id = ? AND test_id = ? AND status = ?`, as far as they are not None. */
  function Selected(runId: Option<string>, testId: Option<string>, status: Option<string>): StatusRow -> bool {
    (r: StatusRow) =>
      && (runId.Some? ==> r.data.runId == runId.value)
      && (testId.Some? ==> r.data.testId == testId.value)
      && (status.Some? ==> r.data.status == status.value)
  }

  /** `ORDER BY status, assertion_id` */
  predicate StatusLe(a: StatusRow, b: StatusRow) {
    if a.data.status != b.data.status then TextOrder.Le(a.data.status, b.data.status)
    else TextOrder.Le(a.data.assertionId, b.data.assertionId)
  }

  /** The status rows asked for; ties keep the order of the table. */
  function StatusRows(d: Db, runId: Option<string>, testId: Option<string>, status: Option<string>): seq<StatusRow> {
    Sorting.Sort(Filter(d.sva.rows, Selected(runId, testId, status)), StatusLe)
  }

  /** Every matching row of the index is among them as often as it is in the table. */
  lemma StatusRowsMeaning(d: Db, runId: Option<string>, testId: Option<string>, status: Option<string>)
    ensures Sorting.SortedBy(StatusRows(d, runId, testId, status), StatusLe)
    ensures multiset(StatusRows(d, runId, testId, status))
      == multiset(Filter(d.sva.rows, Selected(runId, testId, status)))
  {
    StatusOrder();
    Sorting.SortSorted(Filter(d.sva.rows, Selected(runId, testId, status)), StatusLe);
    Sorting.SortPermutes(Filter(d.sva.rows, Selected(runId, testId, status)), StatusLe);
  }

  /** The rows of the run, the test and the status asked for, as far as asked, by status and then by assertion. */
  lemma StatusRowsAre(d: Db, runId: Option<string>, testId: Option<string>, status: Option<string>)
    ensures var rows := StatusRows(d, runId, testId, status);
      && (forall r :: r in rows <==>
            && r in d.sva.rows
            && (runId == None || r.data.runId == runId.value)
            && (testId == None || r.data.testId == testId.value)
            && (status == None || r.data.status == status.value))
      && forall i, j :: 0 <= i < j < |rows| ==>
           || TextOrder.Lt(rows[i].data.status, rows[j].data.status)
           || (rows[i].data.status == rows[j].data.status
               && TextOrder.Le(rows[i].data.assertionId, rows[j].data.assertionId))
  {
    var rows, kept := StatusRows(d, runId, testId, status), Filter(d.sva.rows, Selected(runId, testId, status));
    StatusRowsMeaning(d, runId, testId, status);
    FilterMembers(d.sva.rows, Selected(runId, testId, status));
    forall r ensures r in rows <==> r in kept { assert r in multiset(rows) <==> r in multiset(kept); }
    forall i, j | 0 <= i < j < |rows|
      ensures TextOrder.Lt(rows[i].data.status, rows[j].data.status)
        || (rows[i].data.status == rows[j].data.status
            && TextOrder.Le(rows[i].data.assertionId, rows[j].data.assertionId))
    {
      assert StatusLe(rows[i], rows[j]);
    }
  }

  /** Nothing is wrong with the arguments exactly when each of them is in its range. */
  lemma NoStatusComplaint(
    runId: Option<string>, testId: Option<string>, status: Option<string>, page: int, pageSize: int, maxPageSize: int)
    ensures StatusComplaint(runId, testId, status, page, pageSize, maxPageSize).None? <==>
      && (runId == None || runId.value == "" || ValidId(runId.value))
      && (testId == None || testId.value == "" || ValidId(testId.value))
      && (status == None || status.value in {"", "passing", "failing", "vacuous", "disabled", "unknown"})
      && page >= 1 && 1 <= pageSize <= maxPageSize
  {
  }

  lemma StatusOrder()
    ensures Sorting.TotalPreorder(StatusLe)
  {
    forall a, b ensures StatusLe(a, b) || StatusLe(b, a) {
      TextOrder.LeTotal(a.data.status, b.data.status);
      TextOrder.LeTotal(a.data.assertionId, b.data.assertionId);
    }
    forall a, b, c | StatusLe(a, b) && StatusLe(b, c) ensures StatusLe(a, c) {
      if a.data.status == b.data.status == c.data.status {
        TextOrder.LeTransitive(a.data.assertionId, b.data.assertionId, c.data.assertionId);
      } else if a.data.status != b.data.status && b.data.status != c.data.status {
        TextOrder.LtTransitive(a.data.status, b.data.status, c.data.status);
      }
    }
  }

  function WithStatus(status: string): StatusRow -> bool { (r: StatusRow) => r.data.status == status }

  function CountOf(rows: seq<StatusRow>, status: string): nat { |Filter(rows, WithStatus(status))| }

  /** `counts.get(status, 0)` says how many of the fetched rows have that status. */
  ghost predicate CountsAre(counts: map<string, nat>, rows: seq<StatusRow>) {
    forall s :: Lookup(counts, s).GetOr(0) == CountOf(rows, s)
  }

  lemma CountSnoc(rows: seq<StatusRow>, row: StatusRow, status: string)
    ensures CountOf(rows + [row], status) == CountOf(rows, status) + if row.data.status == status then 1 else 0
  {
    FilterConcat(rows, [row], WithStatus(status));
    FilterCons(row, [], WithStatus(status));
    assert [row] + [] == [row];
  }

  datatype StatusPage = StatusPage(page: Page<StatusRow>, counts: map<string, nat>)

  method GetSvaStatus(
    d: Db, runId: Option<string>, testId: Option<string>, status: Option<string>,
    page: int, pageSize: int, maxPageSize: int, fits: StatusPage -> bool)
    returns (r: Result<StatusPage, PageError>)
    ensures var complaint := StatusComplaint(runId, testId, status, page, pageSize, maxPageSize);
      if complaint.Some? then r == Failure(complaint.value)
      else
        var all := StatusRows(d, runId, testId, status);
        && (r.Failure? ==> r.error == TooLarge)
        && (r.Success? ==>
              && fits(r.value)
              && r.value.page == PageOf(all, page, pageSize, None)
              && CountsAre(r.value.counts, Take(all, pageSize * page + pageSize)))
        && (r.Failure? ==> exists answer: StatusPage ::
              && !fits(answer)
              && answer.page == PageOf(all, page, pageSize, None)
              && CountsAre(answer.counts, Take(all, pageSize * page + pageSize)))
  {
    if GivenText(status) && status.value !in STATUSES {
      return Failure(BadStatusFilter);
    }
    if GivenText(runId) && !ValidId(runId.value) {
      return Failure(BadRunId);
    }
    if GivenText(testId) && !ValidId(testId.value) {
      return Failure(BadTestId);
    }
    var all := StatusRows(d, runId, testId, status);
    match ClampPagination(page, pageSize, maxPageSize)
    case Failure(e) => r := Failure(e);
    case Success((p, size)) =>
      var fetched := Take(all, size * p + size);
      var counts := CountByStatus(fetched);
      var answer := StatusPage(PageOf(all, p, size, None), counts);
      r := if fits(answer) then Success(answer) else Failure(TooLarge);
  }

  method CountByStatus(rows: seq<StatusRow>) returns (counts: map<string, nat>)
    ensures CountsAre(counts, rows)
  {
    counts := map[];
    for i := 0 to |rows|
      invariant CountsAre(counts, rows[..i])
    {
      var s := rows[i].data.status;
      forall t ensures CountOf(rows[..i + 1], t) == CountOf(rows[..i], t) + if t == s then 1 else 0 {
        assert rows[..i + 1] == rows[..i] + [rows[i]];
        CountSnoc(rows[..i], rows[i], t);
      }
      ghost var before := counts;
      counts := counts[s := Lookup(counts, s).GetOr(0) + 1];
      forall t ensures Lookup(counts, t).GetOr(0) == CountOf(rows[..i + 1], t) {
        assert Lookup(before, t).GetOr(0) == CountOf(rows[..i], t);
      }
    }
    assert rows[..|rows|] == rows;
  }

  /** One more row of some status means a larger count for it. */
  lemma CountPrefix(all: seq<StatusRow>, n: nat)
    requires n <= |all|
    ensures (forall s :: CountOf(all[..n], s) == CountOf(all, s)) <==> n == |all|
  {
    assert all == all[..n] + all[n..];
    if n < |all| {
      var s := all[n].data.status;
      FilterConcat(all[..n], all[n..], WithStatus(s));
      FilterCons(all[n], all[n + 1..], WithStatus(s));
      assert all[n..] == [all[n]] + all[n + 1..];
      assert CountOf(all[..n], s) < CountOf(all, s);
    } else {
      assert all[..n] == all;
    }
  }

  /**
   The status counts are documented as counts over the whole filtered set. They are exactly when
   that set ends no later than one page after the page shown.
   */
  lemma CountsCoverWholeSet(all: seq<StatusRow>, page: nat, pageSize: nat, counts: map<string, nat>)
    requires page >= 1 && pageSize >= 1
    requires CountsAre(counts, Take(all, pageSize * page + pageSize))
    ensures CountsAre(counts, all) <==> |all| <= pageSize * (page + 1)
  {
    var n := Min(|all|, pageSize * page + pageSize);
    assert Take(all, pageSize * page + pageSize) == all[..n];
    CountPrefix(all, n);
    assert pageSize * (page + 1) == pageSize * page + pageSize;
    if CountsAre(counts, all) {
      forall s ensures CountOf(all[..n], s) == CountOf(all, s) {
        assert Lookup(counts, s).GetOr(0) == CountOf(all[..n], s);
      }
    }
    if n == |all| { assert all[..n] == all; }
  }

  /** Three rows, asked for one by one: the first page counts two of them. */
  lemma ThirdRowNotCounted(counts: map<string, nat>)
    requires CountsAre(counts, Take(ThreeRows(), 1 * 1 + 1))
    ensures Lookup(counts, "failing").GetOr(0) == 0 && CountOf(ThreeRows(), "failing") == 1
    ensures !CountsAre(counts, ThreeRows())
  {
    var all := ThreeRows();
    assert all[1..] == [all[1], all[2]] && all[1..][1..] == [all[2]] && all[2..][1..] == [];
    assert all[..2] == [all[0], all[1]] && all[..2][1..] == [all[1]] && [all[1]][1..] == [];
    assert CountOf(all[..2], "failing") == 0;
    assert Filter([all[2]], WithStatus("failing")) == [all[2]];
    CountsCoverWholeSet(all, 1, 1, counts);
  }

  function ThreeRows(): seq<StatusRow> {
    [ Tables.Row(1, Tables.SvaStatus("a", "t", "r", "passing", 1, 0, 0)),
      Tables.Row(2, Tables.SvaStatus("b", "t", "r", "passing", 1, 0, 0)),
      Tables.Row(3, Tables.SvaStatus("c", "t", "r", "failing", 0, 1, 0)) ]
  }
}
