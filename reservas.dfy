/**
 * The reservation store (class ExoBooking_Core_Reservas): an append-only
 * table with an auto-increment id, a paginated listing whose arguments are
 * clamped and whitelisted before they reach the SQL, and a row count.
 */
module Reservas {
  import opened Wrappers
  import opened Civil
  import opened Php
  import opened Ordering
  import Estoque

  /** A row of the reservations table; criado_em is the insert time in seconds. */
  datatype Reserva = Reserva(
    id: nat,
    passeioId: nat,
    data: Date,
    nomeCliente: string,
    emailCliente: string,
    criadoEm: int)

  /** The columns get_todas may order by. */
  datatype Column = Id | Data | CriadoEm | NomeCliente

  datatype Direction = Asc | Desc

  /** The $args of get_todas; None stands for a key that is not set. */
  datatype ListArgs = ListArgs(
    perPage: Option<int>,
    offset: Option<int>,
    orderby: Option<string>,
    order: Option<string>)

  // ---------------------------------------------------------------------------
  // Argument clamping and whitelisting

  /** The page size: at least 1, 50 when not given. */
  function PerPage(args: ListArgs): (n: nat)
    ensures n >= 1
    ensures args.perPage.None? ==> n == 50
    ensures args.perPage.Some? ==> n >= args.perPage.value
    ensures args.perPage.Some? && args.perPage.value >= 1 ==> n == args.perPage.value
    ensures args.perPage.Some? && args.perPage.value < 1 ==> n == 1
  {
    match args.perPage
    case None => 50
    case Some(v) => if v < 1 then 1 else v
  }

  /** The number of rows skipped: never negative, 0 when not given. */
  function Offset(args: ListArgs): (n: nat)
    ensures args.offset.None? ==> n == 0
    ensures args.offset.Some? ==> n >= args.offset.value
    ensures args.offset.Some? && args.offset.value >= 0 ==> n == args.offset.value
    ensures args.offset.Some? && args.offset.value < 0 ==> n == 0
  {
    match args.offset
    case None => 0
    case Some(v) => if v < 0 then 0 else v
  }

  /** The column's name as the SQL and the whitelist spell it. */
  function ColumnName(c: Column): string {
    match c
    case Id => "id"
    case Data => "data"
    case CriadoEm => "criado_em"
    case NomeCliente => "nome_cliente"
  }

  /** The ORDER BY column: a whitelisted name (compared strictly), otherwise id. */
  function ColumnOf(orderby: Option<string>): (c: Column)
    ensures c != Id ==> orderby == Some(ColumnName(c))
  {
    if orderby == Some("data") then Data
    else if orderby == Some("criado_em") then CriadoEm
    else if orderby == Some("nome_cliente") then NomeCliente
    else Id
  }

  /** Every whitelisted name selects its own column. */
  lemma ColumnNameSelects(c: Column)
    ensures ColumnOf(Some(ColumnName(c))) == c
  {
  }

  /** The ORDER BY direction: ASC when strtoupper of the argument is "ASC", otherwise DESC. */
  function DirectionOf(order: Option<string>): Direction {
    if order.Some? && ToUpper(order.value) == "ASC" then Asc else Desc
  }

  /** The order is ascending exactly when the argument spells "asc" in any mix of cases. */
  lemma DirectionAscIff(order: Option<string>)
    ensures DirectionOf(order) == Asc <==>
              && order.Some? && |order.value| == 3
              && order.value[0] in {'a', 'A'}
              && order.value[1] in {'s', 'S'}
              && order.value[2] in {'c', 'C'}
  {
    if order.Some? && |order.value| == 3 {
      var s := order.value;
      assert ToUpper(s) == [UpperChar(s[0]), UpperChar(s[1]), UpperChar(s[2])];
    }
  }

  // ---------------------------------------------------------------------------
  // ORDER BY

  /** The code points of `s`, each shifted up by one so that 0 can end the text. */
  function Codes(s: string): (r: seq<int>)
    ensures |r| == |s|
    ensures forall i :: 0 <= i < |r| ==> r[i] >= 1
  {
    seq(|s|, i requires 0 <= i < |s| => s[i] as int + 1)
  }

  /**
   * A row's position under ORDER BY `c`, written as a list of numbers: the
   * column's value, then the id, which breaks ties (the database may put
   * equal values in any order; the model fixes the order by id).
   */
  function SortKey(r: Reserva, c: Column): seq<int> {
    match c
    case Id => [r.id]
    case Data => [r.data.year, r.data.month, r.data.day, r.id]
    case CriadoEm => [r.criadoEm, r.id]
    case NomeCliente => Codes(r.nomeCliente) + [0, r.id]
  }

  /** Whether `x` comes strictly before `y` under ORDER BY `c` `dir`. */
  predicate Precedes(x: Reserva, y: Reserva, c: Column, dir: Direction) {
    if dir == Asc then LexLess(SortKey(x, c), SortKey(y, c))
    else LexLess(SortKey(y, c), SortKey(x, c))
  }

  /** Ordered by date ascending means: earlier dates first, rows of one date by id. */
  lemma PrecedesByDate(x: Reserva, y: Reserva)
    ensures Precedes(x, y, Data, Asc) <==> Before(x.data, y.data) || (x.data == y.data && x.id < y.id)
  {
    var a := SortKey(x, Data);
    var b := SortKey(y, Data);
    LexStep(a, b);
    LexStep(a[1..], b[1..]);
    LexStep(a[2..], b[2..]);
    LexStep(a[3..], b[3..]);
    assert a[1..][1..] == a[2..] && b[1..][1..] == b[2..];
    assert a[2..][1..] == a[3..] && b[2..][1..] == b[3..];
    assert a[3..][1..] == [] && b[3..][1..] == [];
  }

  /** Ordered by criado_em descending means: newer rows first, rows of one instant by descending id. */
  lemma PrecedesByCreation(x: Reserva, y: Reserva)
    ensures Precedes(x, y, CriadoEm, Desc) <==> x.criadoEm > y.criadoEm || (x.criadoEm == y.criadoEm && x.id > y.id)
  {
    var a := SortKey(x, CriadoEm);
    var b := SortKey(y, CriadoEm);
    LexStep(b, a);
    LexStep(b[1..], a[1..]);
    assert a[1..][1..] == [] && b[1..][1..] == [];
  }

  /** Code-point order on texts, a proper prefix first. */
  predicate TextLess(s: string, t: string) {
    if s == [] then t != []
    else if t == [] then false
    else if s[0] != t[0] then s[0] < t[0]
    else TextLess(s[1..], t[1..])
  }

  /** The name part of a sort key orders by TextLess, and equal names by what follows. */
  lemma {:induction false} NameKeyOrder(s: string, t: string, i: nat, j: nat)
    ensures LexLess(Codes(s) + [0, i], Codes(t) + [0, j]) <==> TextLess(s, t) || (s == t && i < j)
    decreases |s|
  {
    var a := Codes(s) + [0, i];
    var b := Codes(t) + [0, j];
    LexStep(a, b);
    if s == [] && t == [] {
      LexStep(a[1..], b[1..]);
      assert a[1..][1..] == [] && b[1..][1..] == [];
    } else if s == [] {
      assert a[0] == 0 && b[0] >= 1;
    } else if t == [] {
      assert a[0] >= 1 && b[0] == 0;
    } else {
      assert a[1..] == Codes(s[1..]) + [0, i];
      assert b[1..] == Codes(t[1..]) + [0, j];
      NameKeyOrder(s[1..], t[1..], i, j);
      if s[0] == t[0] && s[1..] == t[1..] {
        assert s == [s[0]] + s[1..] && t == [t[0]] + t[1..];
      }
    }
  }

  /** Ordered by nome_cliente ascending means: by name in code-point order, equal names by id. */
  lemma PrecedesByName(x: Reserva, y: Reserva)
    ensures Precedes(x, y, NomeCliente, Asc) <==>
              TextLess(x.nomeCliente, y.nomeCliente) || (x.nomeCliente == y.nomeCliente && x.id < y.id)
  {
    NameKeyOrder(x.nomeCliente, y.nomeCliente, x.id, y.id);
  }

  lemma PrecedesAsymmetric(x: Reserva, y: Reserva, c: Column, dir: Direction)
    requires Precedes(x, y, c, dir)
    ensures !Precedes(y, x, c, dir)
  {
    if dir == Asc {
      LexAsymmetric(SortKey(x, c), SortKey(y, c));
    } else {
      LexAsymmetric(SortKey(y, c), SortKey(x, c));
    }
  }

  lemma NotPrecedesTransitive(x: Reserva, y: Reserva, z: Reserva, c: Column, dir: Direction)
    requires !Precedes(x, y, c, dir) && !Precedes(y, z, c, dir)
    ensures !Precedes(x, z, c, dir)
  {
    if dir == Asc {
      LexNotLessTransitive(SortKey(x, c), SortKey(y, c), SortKey(z, c));
    } else {
      LexNotLessTransitive(SortKey(z, c), SortKey(y, c), SortKey(x, c));
    }
  }

  /** No row comes strictly before one listed ahead of it. */
  predicate Sorted(s: seq<Reserva>, c: Column, dir: Direction) {
    forall i, j :: 0 <= i < j < |s| ==> !Precedes(s[j], s[i], c, dir)
  }

  /** `s` with `x` placed before the first row it precedes. */
  function Insert(x: Reserva, s: seq<Reserva>, c: Column, dir: Direction): (r: seq<Reserva>)
    ensures multiset(r) == multiset(s) + multiset{x}
  {
    if s == [] then [x]
    else if Precedes(s[0], x, c, dir) then
      assert s == [s[0]] + s[1..];
      [s[0]] + Insert(x, s[1..], c, dir)
    else
      assert s == [s[0]] + s[1..];
      [x] + s
  }

  /** Every row of a sorted table's tail is "not before" its head. */
  lemma HeadFirst(s: seq<Reserva>, y: Reserva, c: Column, dir: Direction)
    requires Sorted(s, c, dir) && s != [] && y in s[1..]
    ensures !Precedes(y, s[0], c, dir)
  {
    var k :| 0 <= k < |s[1..]| && s[1..][k] == y;
    assert s[k + 1] == y;
  }

  /** A head that no row of a sorted tail goes before makes a sorted table. */
  lemma SortedCons(h: Reserva, rest: seq<Reserva>, c: Column, dir: Direction)
    requires Sorted(rest, c, dir)
    requires forall j :: 0 <= j < |rest| ==> !Precedes(rest[j], h, c, dir)
    ensures Sorted([h] + rest, c, dir)
  {
    var s := [h] + rest;
    forall i, j | 0 <= i < j < |s|
      ensures !Precedes(s[j], s[i], c, dir)
    {
      assert s[j] == rest[j - 1];
      if i > 0 {
        assert s[i] == rest[i - 1];
      }
    }
  }

  /** Inserting into a sorted table keeps it sorted. */
  lemma {:induction false} InsertSorted(x: Reserva, s: seq<Reserva>, c: Column, dir: Direction)
    requires Sorted(s, c, dir)
    ensures Sorted(Insert(x, s, c, dir), c, dir)
  {
    if s == [] {
    } else if Precedes(s[0], x, c, dir) {
      var rest := Insert(x, s[1..], c, dir);
      InsertSorted(x, s[1..], c, dir);
      PrecedesAsymmetric(s[0], x, c, dir);
      forall j | 0 <= j < |rest|
        ensures !Precedes(rest[j], s[0], c, dir)
      {
        assert rest[j] in multiset(s[1..]) + multiset{x};
        if rest[j] != x {
          HeadFirst(s, rest[j], c, dir);
        }
      }
      SortedCons(s[0], rest, c, dir);
      assert Insert(x, s, c, dir) == [s[0]] + rest;
    } else {
      forall j | 0 <= j < |s|
        ensures !Precedes(s[j], x, c, dir)
      {
        if j > 0 {
          NotPrecedesTransitive(s[j], s[0], x, c, dir);
        }
      }
      SortedCons(x, s, c, dir);
      assert Insert(x, s, c, dir) == [x] + s;
    }
  }

  /** The table as ORDER BY `c` `dir` returns it: a sorted rearrangement of its rows. */
  function SortRows(s: seq<Reserva>, c: Column, dir: Direction): (r: seq<Reserva>)
    ensures multiset(r) == multiset(s)
    ensures Sorted(r, c, dir)
  {
    if s == [] then []
    else
      assert s == [s[0]] + s[1..];
      var rest := SortRows(s[1..], c, dir);
      InsertSorted(s[0], rest, c, dir);
      Insert(s[0], rest, c, dir)
  }

  // ---------------------------------------------------------------------------
  // LIMIT / OFFSET

  /** LIMIT `n` OFFSET `offset`: the rows from position `offset`, at most `n` of them. */
  function Window<T>(s: seq<T>, offset: nat, n: nat): (r: seq<T>)
    ensures |r| == if offset >= |s| then 0 else Estoque.Min(n, |s| - offset)
    ensures forall i :: 0 <= i < |r| ==> r[i] == s[offset + i]
  {
    if offset >= |s| then []
    else if offset + n <= |s| then s[offset..offset + n]
    else s[offset..]
  }

  // ---------------------------------------------------------------------------
  // The store

  class ReservasStore {
    var rows: seq<Reserva>
    var nextId: nat

    /** Ids grow with insertion order and stay below the next auto-increment value. */
    ghost predicate Valid()
      reads this
    {
      && nextId >= 1
      && (forall i :: 0 <= i < |rows| ==> 1 <= rows[i].id < nextId)
      && (forall i, j :: 0 <= i < j < |rows| ==> rows[i].id < rows[j].id)
    }

    constructor ()
      ensures Valid() && rows == [] && nextId == 1
    {
      rows := [];
      nextId := 1;
    }

    /**
     * criar: normalises the date (null on failure, nothing inserted), then
     * inserts the sanitised row; the database stamps criado_em (`now`) and
     * hands out the next id. A failed insert returns null and changes nothing.
     */
    method Criar(env: Env, passeioId: int, data: string, nomeCliente: string, emailCliente: string,
                 storeOk: bool, now: int)
      returns (id: Option<nat>)
      requires Valid()
      modifies this
      ensures Valid()
      ensures id.Some? <==> Estoque.NormalizeDate(env, data).Some? && storeOk
      ensures id.Some? ==>
                && id.value == old(nextId) && nextId == old(nextId) + 1
                && (forall r :: r in old(rows) ==> r.id < id.value)
                && rows == old(rows) + [Reserva(id.value, Estoque.Absint(passeioId),
                                                Estoque.NormalizeDate(env, data).value,
                                                env.sanitizeTextField(nomeCliente),
                                                env.sanitizeEmail(emailCliente), now)]
      ensures id.None? ==> rows == old(rows) && nextId == old(nextId)
    {
      var pid := Estoque.Absint(passeioId);
      var d := Estoque.NormalizeDate(env, data);
      if d.None? {
        return None;
      }
      var nome := env.sanitizeTextField(nomeCliente);
      var email := env.sanitizeEmail(emailCliente);
      if !storeOk {
        return None;
      }
      id := Some(nextId);
      rows := rows + [Reserva(nextId, pid, d.value, nome, email, now)];
      nextId := nextId + 1;
    }

    /**
     * get_todas: the table ordered by the whitelisted column and direction,
     * with LIMIT per_page OFFSET offset applied after clamping.
     */
    function GetTodas(args: ListArgs): (r: seq<Reserva>)
      reads this
      ensures |r| <= PerPage(args)
      ensures |r| == if Offset(args) >= |rows| then 0 else Estoque.Min(PerPage(args), |rows| - Offset(args))
      ensures forall i :: 0 <= i < |r| ==> r[i] in rows
      ensures Sorted(r, ColumnOf(args.orderby), DirectionOf(args.order))
      ensures r == Window(SortRows(rows, ColumnOf(args.orderby), DirectionOf(args.order)), Offset(args), PerPage(args))
    {
      var sorted := SortRows(rows, ColumnOf(args.orderby), DirectionOf(args.order));
      var r := Window(sorted, Offset(args), PerPage(args));
      forall i | 0 <= i < |r|
        ensures r[i] in rows
      {
        assert r[i] in multiset(sorted);
      }
      r
    }

    /** get_total: the number of rows (COUNT(*)). */
    function GetTotal(): (n: nat)
      reads this
      ensures n == |rows|
    {
      |rows|
    }
  }

  /** get_total agrees with get_todas: a listing of get_total rows from offset 0 holds every row. */
  lemma TotalIsListingSize(store: ReservasStore, orderby: Option<string>, order: Option<string>)
    ensures multiset(store.GetTodas(ListArgs(Some(store.GetTotal()), None, orderby, order))) == multiset(store.rows)
  {
    var sorted := SortRows(store.rows, ColumnOf(orderby), DirectionOf(order));
    assert |sorted| == |store.rows| by {
      assert |multiset(sorted)| == |sorted|;
    }
    if store.rows != [] {
      assert Window(sorted, 0, |store.rows|) == sorted;
    }
  }
}
