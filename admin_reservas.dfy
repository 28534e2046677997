/**
 * The reservations list of the admin screen (render_page): the page number,
 * the offset, the page count and the rows of one page, 20 per page, newest
 * first. The HTML around them is not modelled.
 */
module AdminReservas {
  import opened Wrappers
  import Estoque
  import opened Reservas

  const PerPageAdmin: nat := 20

  /** The page number: the `paged` query argument clamped at 1, and 1 when it is missing. */
  function PagedOf(pagedArg: Option<int>): (p: nat)
    ensures p >= 1
    ensures pagedArg.None? ==> p == 1
    ensures pagedArg.Some? ==> p >= pagedArg.value && (pagedArg.value >= 1 ==> p == pagedArg.value)
    ensures pagedArg.Some? && pagedArg.value < 1 ==> p == 1
  {
    if pagedArg.Some? && pagedArg.value > 1 then pagedArg.value else 1
  }

  /** The rows skipped before page `paged`: the full pages before it. */
  function PageOffset(paged: nat): (o: nat)
    requires paged >= 1
    ensures o % PerPageAdmin == 0 && o / PerPageAdmin == paged - 1
    ensures paged == 1 ==> o == 0
  {
    (paged - 1) * PerPageAdmin
  }

  /** ceil(total / 20) when there are rows, and 1 when there are none. */
  function TotalPages(total: nat): (tp: nat)
    ensures tp >= 1
  {
    if total > 0 then (total + PerPageAdmin - 1) / PerPageAdmin else 1
  }

  /** The page count is the ceiling: the pages hold every row, and one page fewer would not. */
  lemma TotalPagesIsCeiling(total: nat)
    ensures TotalPages(total) * PerPageAdmin >= total
    ensures total > 0 ==> (TotalPages(total) - 1) * PerPageAdmin < total
    ensures total <= PerPageAdmin <==> TotalPages(total) == 1
  {
    var tp := TotalPages(total);
    if total > 0 {
      assert tp == (total + 19) / 20;
      assert (total + 19) % 20 < 20;
    }
  }

  /** What render_page shows: its arithmetic, the rows of the page, and whether the page links appear. */
  datatype PageView = PageView(paged: nat, offset: nat, total: nat, totalPages: nat, itens: seq<Reserva>, showsLinks: bool)

  /** The get_todas arguments of the admin list: 20 rows from `offset`, by criado_em descending. */
  function ListArgsAt(offset: nat): ListArgs {
    ListArgs(Some(PerPageAdmin as int), Some(offset as int), Some("criado_em"), Some("DESC"))
  }

  /** render_page: the links are printed only inside the branch for a non-empty page, and only with more than one page. */
  function RenderPage(store: ReservasStore, pagedArg: Option<int>): (v: PageView)
    reads store
    ensures v.paged == PagedOf(pagedArg) && v.paged >= 1
    ensures v.offset == (v.paged - 1) * PerPageAdmin
    ensures v.total == |store.rows|
    ensures v.totalPages == TotalPages(v.total) && v.totalPages >= 1
    ensures |v.itens| <= PerPageAdmin
    ensures Sorted(v.itens, CriadoEm, Desc)
    ensures v.showsLinks <==> v.itens != [] && v.totalPages > 1
  {
    var paged := PagedOf(pagedArg);
    var offset := PageOffset(paged);
    var total := store.GetTotal();
    var itens := store.GetTodas(ListArgsAt(offset));
    assert ColumnOf(Some("criado_em")) == CriadoEm;
    assert Php.ToUpper("DESC") == "DESC";
    var totalPages := TotalPages(total);
    PageView(paged, offset, total, totalPages, itens, itens != [] && totalPages > 1)
  }

  /** The rows of page `paged` are the newest-first table from (paged - 1) * 20, at most 20 of them. */
  lemma PageIsWindow(store: ReservasStore, pagedArg: Option<int>)
    ensures var v := RenderPage(store, pagedArg);
            v.itens == Window(SortRows(store.rows, CriadoEm, Desc), (v.paged - 1) * PerPageAdmin, PerPageAdmin)
  {
    var args := ListArgsAt(PageOffset(PagedOf(pagedArg)));
    assert ColumnOf(args.orderby) == CriadoEm;
    assert Php.ToUpper("DESC") == "DESC";
    assert DirectionOf(args.order) == Desc;
    assert PerPage(args) == PerPageAdmin && Offset(args) == (PagedOf(pagedArg) - 1) * PerPageAdmin;
  }

  /** The rows before page p + 1 when each page holds `n`. */
  function PageStart(p: nat, n: nat): nat {
    p * n
  }

  /** The first `k` pages of `s`, `n` rows each, one after the other. */
  function Pages<T>(s: seq<T>, n: nat, k: nat): seq<T> {
    if k == 0 then [] else Pages(s, n, k - 1) + Window(s, PageStart(k - 1, n), n)
  }

  /** The rows before `start` followed by the window at `start` are the rows before start + n. */
  lemma PrefixWindow<T>(s: seq<T>, start: nat, n: nat)
    ensures s[..Estoque.Min(|s|, start)] + Window(s, start, n) == s[..Estoque.Min(|s|, start + n)]
  {
    var m := Estoque.Min(|s|, start + n);
    if start < |s| {
      assert Window(s, start, n) == s[start..m];
      assert s[..m] == s[..start] + s[start..m];
    }
  }

  /** The first `k` pages together are the first k * n rows (or all rows, when fewer). */
  lemma {:induction false} PagesArePrefix<T>(s: seq<T>, n: nat, k: nat)
    ensures Pages(s, n, k) == s[..Estoque.Min(|s|, PageStart(k, n))]
  {
    if k > 0 {
      PagesArePrefix(s, n, k - 1);
      PrefixWindow(s, PageStart(k - 1, n), n);
      assert PageStart(k, n) == PageStart(k - 1, n) + n;
    }
  }

  /**
   * With ties on criado_em broken by id (ORDER BY criado_em DESC, id DESC),
   * paging through pages 1 .. total_pages shows every reservation exactly
   * once, newest first.
   */
  lemma PagesCoverListing(store: ReservasStore)
    ensures var sorted := SortRows(store.rows, CriadoEm, Desc);
            Pages(sorted, PerPageAdmin, TotalPages(|store.rows|)) == sorted
  {
    var sorted := SortRows(store.rows, CriadoEm, Desc);
    TotalPagesIsCeiling(|store.rows|);
    PagesArePrefix(sorted, PerPageAdmin, TotalPages(|store.rows|));
    assert |sorted| == |store.rows| by {
      assert |multiset(sorted)| == |sorted|;
    }
  }

  /** A page past the last one is empty, and then no page links are printed to lead back. */
  lemma PastLastPageIsEmpty(store: ReservasStore, p: int)
    requires p > TotalPages(|store.rows|)
    ensures RenderPage(store, Some(p)).itens == []
    ensures !RenderPage(store, Some(p)).showsLinks
  {
    var sorted := SortRows(store.rows, CriadoEm, Desc);
    TotalPagesIsCeiling(|store.rows|);
    assert |sorted| == |store.rows| by {
      assert |multiset(sorted)| == |sorted|;
    }
    PageIsWindow(store, Some(p));
    assert (p - 1) * PerPageAdmin >= TotalPages(|store.rows|) * PerPageAdmin;
  }

  // ---------------------------------------------------------------------------
  // Paging under ORDER BY criado_em alone, as get_todas queries it

  /** Newest first by criado_em alone: all that ORDER BY criado_em DESC promises. */
  predicate NewestFirst(s: seq<Reserva>) {
    forall i, j :: 0 <= i < j < |s| ==> s[i].criadoEm >= s[j].criadoEm
  }

  /** No two different reservations share a criado_em. */
  predicate UniqueCreation(s: seq<Reserva>) {
    forall x, y :: x in s && y in s && x.criadoEm == y.criadoEm ==> x == y
  }

  /**
   * The pages as render_page's queries return them: page p + 1 is the window
   * of orders[p], the order the database chose for that page's own query.
   */
  function PagesAsQueried(orders: seq<seq<Reserva>>, n: nat): seq<Reserva> {
    if orders == [] then []
    else PagesAsQueried(orders[..|orders| - 1], n) + Window(orders[|orders| - 1], PageStart(|orders| - 1, n), n)
  }

  /** The listing with the id tie-break is one of the orders ORDER BY criado_em DESC allows. */
  lemma ListingIsNewestFirst(rows: seq<Reserva>)
    ensures NewestFirst(SortRows(rows, CriadoEm, Desc))
  {
    var s := SortRows(rows, CriadoEm, Desc);
    forall i, j | 0 <= i < j < |s|
      ensures s[i].criadoEm >= s[j].criadoEm
    {
      PrecedesByCreation(s[j], s[i]);
    }
  }

  /** Without ties on criado_em, two newest-first orders of the same rows start with the same row. */
  lemma NewestFirstHead(a: seq<Reserva>, b: seq<Reserva>)
    requires multiset(a) == multiset(b) && NewestFirst(a) && NewestFirst(b) && UniqueCreation(a)
    requires a != [] && b != []
    ensures a[0] == b[0]
  {
    assert a[0] in multiset(b) && b[0] in multiset(a);
    var k :| 0 <= k < |b| && b[k] == a[0];
    var m :| 0 <= m < |a| && a[m] == b[0];
    assert b[0].criadoEm >= b[k].criadoEm;
    assert a[0].criadoEm >= a[m].criadoEm;
  }

  lemma NewestFirstTail(a: seq<Reserva>)
    requires NewestFirst(a) && a != []
    ensures NewestFirst(a[1..])
  {
    forall i, j | 0 <= i < j < |a| - 1
      ensures a[1..][i].criadoEm >= a[1..][j].criadoEm
    {
      assert a[1..][i] == a[i + 1] && a[1..][j] == a[j + 1];
    }
  }

  /** Without ties on criado_em, a set of rows has only one newest-first order. */
  lemma {:induction false} NewestFirstUnique(a: seq<Reserva>, b: seq<Reserva>)
    requires multiset(a) == multiset(b) && NewestFirst(a) && NewestFirst(b) && UniqueCreation(a)
    ensures a == b
    decreases |a|
  {
    assert |a| == |multiset(a)| == |multiset(b)| == |b|;
    if a != [] {
      NewestFirstHead(a, b);
      assert a == [a[0]] + a[1..] && b == [b[0]] + b[1..];
      assert multiset(a[1..]) == multiset(a) - multiset{a[0]};
      assert multiset(b[1..]) == multiset(b) - multiset{b[0]};
      NewestFirstTail(a);
      NewestFirstTail(b);
      assert UniqueCreation(a[1..]) by {
        assert forall x :: x in a[1..] ==> x in a;
      }
      NewestFirstUnique(a[1..], b[1..]);
    }
  }

  /** When every page query returns one same order, the queried pages are the pages of that order. */
  lemma {:induction false} PagesAsQueriedOfOneOrder(orders: seq<seq<Reserva>>, s: seq<Reserva>, n: nat)
    requires forall p :: 0 <= p < |orders| ==> orders[p] == s
    ensures PagesAsQueried(orders, n) == Pages(s, n, |orders|)
  {
    if orders != [] {
      PagesAsQueriedOfOneOrder(orders[..|orders| - 1], s, n);
    }
  }

  /**
   * As written, paging covers the listing when no two reservations share a
   * criado_em: whatever newest-first order each page query gets, it is the
   * listing, so pages 1 .. total_pages show every reservation once.
   */
  lemma PagesCoverWhenCreationUnique(store: ReservasStore, orders: seq<seq<Reserva>>)
    requires UniqueCreation(store.rows)
    requires |orders| == TotalPages(|store.rows|)
    requires forall p :: 0 <= p < |orders| ==>
               multiset(orders[p]) == multiset(store.rows) && NewestFirst(orders[p])
    ensures PagesAsQueried(orders, PerPageAdmin) == SortRows(store.rows, CriadoEm, Desc)
  {
    var sorted := SortRows(store.rows, CriadoEm, Desc);
    ListingIsNewestFirst(store.rows);
    assert UniqueCreation(sorted) by {
      forall x | x in sorted
        ensures x in store.rows
      {
        assert x in multiset(sorted);
      }
    }
    forall p | 0 <= p < |orders|
      ensures orders[p] == sorted
    {
      NewestFirstUnique(sorted, orders[p]);
    }
    PagesAsQueriedOfOneOrder(orders, sorted, PerPageAdmin);
    PagesCoverListing(store);
  }

  lemma NewestFirstConcat(x: seq<Reserva>, y: seq<Reserva>)
    requires NewestFirst(x) && NewestFirst(y)
    requires forall i, j :: 0 <= i < |x| && 0 <= j < |y| ==> x[i].criadoEm >= y[j].criadoEm
    ensures NewestFirst(x + y)
  {
    var s := x + y;
    forall i, j | 0 <= i < j < |s|
      ensures s[i].criadoEm >= s[j].criadoEm
    {
      if j < |x| {
        assert s[i] == x[i] && s[j] == x[j];
      } else if i < |x| {
        assert s[i] == x[i] && s[j] == y[j - |x|];
      } else {
        assert s[i] == y[i - |x|] && s[j] == y[j - |x|];
      }
    }
  }

  /** Nineteen reservations created one second apart, newest first. */
  function Spread(): seq<Reserva> {
    seq(19, i requires 0 <= i < 19 => Reserva(i + 1, 1, Civil.Date(2025, 3, 5), "", "", 100 - i))
  }

  /** Two reservations created in the same second, after all of Spread. */
  const TiedA := Reserva(20, 1, Civil.Date(2025, 3, 5), "", "", 0)
  const TiedB := Reserva(21, 1, Civil.Date(2025, 3, 5), "", "", 0)

  /** Both orders of the tied pair are newest-first orders of the same rows. */
  lemma TiedOrdersAllowed()
    ensures NewestFirst(Spread() + [TiedA, TiedB]) && NewestFirst(Spread() + [TiedB, TiedA])
    ensures multiset(Spread() + [TiedB, TiedA]) == multiset(Spread() + [TiedA, TiedB])
  {
    assert NewestFirst(Spread());
    NewestFirstConcat(Spread(), [TiedA, TiedB]);
    NewestFirstConcat(Spread(), [TiedB, TiedA]);
    assert multiset([TiedB, TiedA]) == multiset([TiedA, TiedB]);
  }

  /** The pages the two queries of TiedCreationSkipsARow return: TiedA closes page 1 and fills page 2. */
  lemma TiedPages()
    ensures PagesAsQueried([Spread() + [TiedA, TiedB], Spread() + [TiedB, TiedA]], PerPageAdmin)
              == Spread() + [TiedA, TiedA]
  {
    var base := Spread();
    var first := base + [TiedA, TiedB];
    var second := base + [TiedB, TiedA];
    var orders := [first, second];
    assert PageStart(0, PerPageAdmin) == 0 && PageStart(1, PerPageAdmin) == 20;
    assert orders[..1] == [first] && [first][..0] == [];
    assert Window(first, 0, 20) == base + [TiedA];
    assert Window(second, 20, 20) == [TiedA];
    assert PagesAsQueried([first], 20) == PagesAsQueried([], 20) + Window(first, 0, 20);
    assert PagesAsQueried(orders, 20) == PagesAsQueried([first], 20) + Window(second, 20, 20);
  }

  /**
   * As written, two reservations created in the same second can make paging
   * show one of them twice and the other never: with the 19 rows of Spread
   * and the tied pair (21 rows, two pages), the query of page 1 may put TiedA
   * 20th and the query of page 2 may put TiedA 21st, so TiedB is on no page.
   */
  lemma TiedCreationSkipsARow()
    ensures var rows := Spread() + [TiedA, TiedB];
            var orders := [rows, Spread() + [TiedB, TiedA]];
            && |orders| == TotalPages(|rows|)
            && (forall p :: 0 <= p < |orders| ==>
                  multiset(orders[p]) == multiset(rows) && NewestFirst(orders[p]))
            && TiedB in rows && TiedB !in PagesAsQueried(orders, PerPageAdmin)
  {
    var base := Spread();
    TiedOrdersAllowed();
    TiedPages();
    assert |base + [TiedA, TiedB]| == 21 && TotalPages(21) == 2;
    assert TiedB !in base;
  }
}
