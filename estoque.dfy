/**
 * The inventory ledger: one row per (tour, date) holding the capacity
 * (vagas_total) and the slots already taken (vagas_reservadas), with the
 * date normalisation every ledger call applies to its date argument.
 * Each public operation is one atomic step on the table.
 */
module Estoque {
  import opened Wrappers
  import opened Civil
  import opened Php

  /** absint(): the absolute value of an integer. */
  function Absint(x: int): (r: nat)
    ensures r == x || r == -x
  {
    if x < 0 then -x else x
  }

  /** A table key: the tour (passeio) id and the civil date. */
  type Key = (nat, Date)

  datatype Row = Row(vagasTotal: nat, vagasReservadas: nat)

  type Table = map<Key, Row>

  /** A row as the lookups return it. */
  datatype Estoque = Estoque(passeioId: nat, data: Date, vagasTotal: nat, vagasReservadas: nat)

  /** The slots still free in a row: max(0, vagas_total - vagas_reservadas). */
  function Available(r: Row): nat {
    if r.vagasTotal >= r.vagasReservadas then r.vagasTotal - r.vagasReservadas else 0
  }

  // ---------------------------------------------------------------------------
  // Date normalisation

  /** `d` is the UTC calendar day that contains Unix timestamp `ts`. */
  predicate UtcDayOf(d: Date, ts: int) {
    ValidDate(d) && SecondsPerDay * DayNumber(d) <= ts < SecondsPerDay * (DayNumber(d) + 1)
  }

  /**
   * normalize_date: a numeric argument is a Unix timestamp and gives its UTC
   * day; any other text is trimmed, refused when empty, and otherwise handed
   * to strtotime, whose timestamp gives the UTC day.
   */
  function NormalizeDate(env: Env, data: string): (r: Option<Date>)
    ensures r.Some? ==> ValidDate(r.value)
    ensures env.numericValue(data).Some? ==>
              r.Some? && UtcDayOf(r.value, env.numericValue(data).value)
    ensures env.numericValue(data).None? ==>
              (r.Some? <==> Trim(data) != [] && env.strtotime(Trim(data)).Some?)
    ensures env.numericValue(data).None? && r.Some? ==>
              UtcDayOf(r.value, env.strtotime(Trim(data)).value)
  {
    match env.numericValue(data)
    case Some(ts) => Some(CivilFromDays(ts / SecondsPerDay))
    case None =>
      var t := Trim(data);
      if t == [] then None
      else match env.strtotime(t)
        case None => None
        case Some(ts) => Some(CivilFromDays(ts / SecondsPerDay))
  }

  /** A timestamp lies in exactly one UTC day. */
  lemma UtcDayUnique(a: Date, b: Date, ts: int)
    requires UtcDayOf(a, ts) && UtcDayOf(b, ts)
    ensures a == b
  {
    DayNumberInjective(a, b);
  }

  /** Empty or whitespace-only text does not normalise. */
  lemma NormalizeBlank(env: Env, data: string)
    requires BlanksNotNumeric(env) && IsBlank(data)
    ensures NormalizeDate(env, data) == None
  {
    TrimEmptyIffBlank(data);
    assert BlankNotNumeric(env, data);
  }

  /** Normalising the Y-m-d text of a normalised date from year 1000 to 9999 gives the date back. */
  lemma NormalizeFormatted(env: Env, d: Date)
    requires ReadsOwnDates(env) && ValidDate(d) && InDateRange(d)
    ensures NormalizeDate(env, Format(d)) == Some(d)
  {
    var s := Format(d);
    assert ReadsFormatted(env, d);
    FormatShape(d);
    TrimUnchanged(s);
    assert env.strtotime(Trim(s)) == Some(SecondsPerDay * DayNumber(d));
    UtcDayUnique(NormalizeDate(env, s).value, d, SecondsPerDay * DayNumber(d));
  }

  /** The table key a ledger call works on, or None when its date does not normalise. */
  function KeyOf(env: Env, passeioId: int, data: string): (r: Option<Key>)
    ensures r.Some? <==> NormalizeDate(env, data).Some?
    ensures r.Some? ==> r.value == (Absint(passeioId), NormalizeDate(env, data).value) && ValidDate(r.value.1)
  {
    match NormalizeDate(env, data)
    case None => None
    case Some(d) => Some((Absint(passeioId), d))
  }

  /** The key of a call made with the Y-m-d text of a normalised date from year 1000 to 9999 is that date. */
  lemma KeyOfFormatted(env: Env, passeioId: nat, d: Date)
    requires ReadsOwnDates(env) && ValidDate(d) && InDateRange(d)
    ensures KeyOf(env, passeioId, Format(d)) == Some((passeioId, d))
  {
    NormalizeFormatted(env, d);
  }

  /**
   * The key the write paths look up again: they hand the Y-m-d text of the
   * date they normalised to get_estoque, which normalises it once more. For
   * years 1000 to 9999 this is the key itself (KeyOfFormatted); for others it
   * is whatever strtotime makes of gmdate's text.
   */
  function Reread(env: Env, k: Key): (r: Option<Key>)
    requires ValidDate(k.1)
    ensures r.Some? ==> r.value.0 == k.0 && ValidDate(r.value.1)
  {
    KeyOf(env, k.0, Format(k.1))
  }

  // ---------------------------------------------------------------------------
  // The table transitions, as functions of the table

  /** The capacity upsert of set_vagas_totais on one key. */
  function Upsert(t: Table, k: Key, total: nat): (t': Table)
    ensures t'.Keys == t.Keys + {k}
    ensures t'[k].vagasTotal == total
    ensures t'[k].vagasReservadas == (if k in t then t[k].vagasReservadas else 0)
    ensures forall j :: j in t && j != k ==> t'[j] == t[j]
  {
    if k in t then t[k := Row(total, t[k].vagasReservadas)] else t[k := Row(total, 0)]
  }

  /**
   * set_vagas_totais on table `t`: whether it reports success, and the table
   * after it. The date normalises to key `k`; the existence check looks the
   * row up again by k's Y-m-d text (Reread); then an UPDATE by that text sets
   * vagas_total on the row of `k` when there is one (and matches nothing
   * otherwise), or an INSERT adds the row with no reservations, which the
   * unique (passeio_id, data) key refuses when the row exists. `storeOk` is
   * false when the database reports an error; a failed statement changes nothing.
   */
  function SetTotal(env: Env, t: Table, passeioId: int, data: string, vagasTotal: int, storeOk: bool)
    : (r: (bool, Table))
    ensures !r.0 ==> r.1 == t
    ensures r.0 ==> storeOk && KeyOf(env, passeioId, data).Some?
    ensures r.0 ==> r.1 == t || r.1 == Upsert(t, KeyOf(env, passeioId, data).value, if vagasTotal < 0 then 0 else vagasTotal)
    ensures forall j :: j in t ==> j in r.1 && r.1[j].vagasReservadas == t[j].vagasReservadas
  {
    var total: nat := if vagasTotal < 0 then 0 else vagasTotal;
    match KeyOf(env, passeioId, data)
    case None => (false, t)
    case Some(k) =>
      var existe := Reread(env, k).Some? && Reread(env, k).value in t;
      if !storeOk then (false, t)
      else if existe then (true, if k in t then Upsert(t, k, total) else t)
      else if k in t then (false, t)
      else (true, Upsert(t, k, total))
  }

  /**
   * For a date from year 1000 to 9999, set_vagas_totais is the upsert: it
   * succeeds exactly when the database does, and then sets the capacity of
   * the date's row, creating it with no reservations when missing.
   */
  lemma SetTotalInRange(env: Env, t: Table, passeioId: int, data: string, vagasTotal: int, storeOk: bool)
    requires ReadsOwnDates(env) && KeyOf(env, passeioId, data).Some?
    requires InDateRange(KeyOf(env, passeioId, data).value.1)
    ensures var r := SetTotal(env, t, passeioId, data, vagasTotal, storeOk);
            && (r.0 <==> storeOk)
            && (r.0 ==> r.1 == Upsert(t, KeyOf(env, passeioId, data).value, if vagasTotal < 0 then 0 else vagasTotal))
  {
    var k := KeyOf(env, passeioId, data).value;
    KeyOfFormatted(env, k.0, k.1);
  }

  /** Upserting the same capacity twice gives the same table as once. */
  lemma UpsertIdempotent(t: Table, k: Key, total: nat)
    ensures Upsert(Upsert(t, k, total), k, total) == Upsert(t, k, total)
  {
  }

  /** Repeating set_vagas_totais with the same arguments leaves the table as the first call left it. */
  lemma SetTotalIdempotent(env: Env, t: Table, passeioId: int, data: string, vagasTotal: int, storeOk: bool)
    ensures var t1 := SetTotal(env, t, passeioId, data, vagasTotal, storeOk).1;
            SetTotal(env, t1, passeioId, data, vagasTotal, storeOk).1 == t1
  {
    match KeyOf(env, passeioId, data)
    case None =>
    case Some(k) =>
      if k in t {
        UpsertIdempotent(t, k, if vagasTotal < 0 then 0 else vagasTotal);
      }
  }

  /** The condition of reservar_vaga's UPDATE: the row exists and has a free slot. */
  predicate Claimable(t: Table, k: Key) {
    k in t && t[k].vagasTotal - t[k].vagasReservadas >= 1
  }

  /** The effect of reservar_vaga's conditional UPDATE on the table. */
  function Claim(t: Table, k: Key): (t': Table)
    ensures t'.Keys == t.Keys
    ensures forall j :: j in t && j != k ==> t'[j] == t[j]
    ensures Claimable(t, k) ==>
              && t'[k].vagasTotal == t[k].vagasTotal
              && t'[k].vagasReservadas == t[k].vagasReservadas + 1
              && t'[k].vagasReservadas <= t'[k].vagasTotal
    ensures !Claimable(t, k) ==> t' == t
  {
    if Claimable(t, k) then t[k := Row(t[k].vagasTotal, t[k].vagasReservadas + 1)] else t
  }

  /** A row has a free slot exactly when its available count is positive. */
  lemma ClaimableIffAvailable(t: Table, k: Key)
    requires k in t
    ensures Claimable(t, k) <==> Available(t[k]) > 0
    ensures Claimable(t, k) ==> Available(Claim(t, k)[k]) == Available(t[k]) - 1
  {
  }

  /** The table after `n` successive claims on key `k`, and how many of them succeeded. */
  function ClaimTimes(t: Table, k: Key, n: nat): (Table, nat) {
    if n == 0 then (t, 0)
    else
      var (t1, s1) := ClaimTimes(t, k, n - 1);
      if Claimable(t1, k) then (Claim(t1, k), s1 + 1) else (t1, s1)
  }

  function Min(a: nat, b: nat): nat { if a < b then a else b }

  /**
   * Anti-overbooking: starting from `Available(t[k])` free slots, `n`
   * successive claims succeed exactly min(n, free) times, each success adds
   * one to vagas_reservadas, and no other row changes.
   */
  lemma {:induction false} ClaimTimesCount(t: Table, k: Key, n: nat)
    ensures ClaimTimes(t, k, n).1 == (if k in t then Min(n, Available(t[k])) else 0)
    ensures ClaimTimes(t, k, n).0.Keys == t.Keys
    ensures k in t ==>
              ClaimTimes(t, k, n).0[k] == Row(t[k].vagasTotal, t[k].vagasReservadas + ClaimTimes(t, k, n).1)
    ensures forall j :: j in t && j != k ==> ClaimTimes(t, k, n).0[j] == t[j]
  {
    if n > 0 {
      ClaimTimesCount(t, k, n - 1);
    }
  }

  /** Claims keep vagas_reservadas <= vagas_total on a row that satisfied it. */
  lemma ClaimTimesNoOverbooking(t: Table, k: Key, n: nat)
    requires k in t && t[k].vagasReservadas <= t[k].vagasTotal
    ensures k in ClaimTimes(t, k, n).0
    ensures ClaimTimes(t, k, n).0[k].vagasReservadas <= ClaimTimes(t, k, n).0[k].vagasTotal
  {
    ClaimTimesCount(t, k, n);
  }

  /** Whether incrementar_reservadas may add `qtd` to the row at `k`. */
  predicate Incrementable(t: Table, k: Key, qtd: int) {
    qtd > 0 && k in t && t[k].vagasReservadas + qtd <= t[k].vagasTotal
  }

  /** The effect of a successful incrementar_reservadas on the table. */
  function Increment(t: Table, k: Key, qtd: nat): (t': Table)
    requires k in t
    ensures t'.Keys == t.Keys
    ensures t'[k] == Row(t[k].vagasTotal, t[k].vagasReservadas + qtd)
    ensures forall j :: j in t && j != k ==> t'[j] == t[j]
  {
    t[k := Row(t[k].vagasTotal, t[k].vagasReservadas + qtd)]
  }

  /**
   * incrementar_reservadas on table `t`: whether it reports success, and the
   * table after it. With `qtd` clamped at 0 and positive and the date
   * normalised to key `k`, the row is read again by k's Y-m-d text (Reread);
   * when that row exists and has room for `qtd` more, an UPDATE by the text
   * sets the vagas_reservadas of the row of `k` (if any) to the re-read count
   * plus `qtd`.
   */
  function Incremented(env: Env, t: Table, passeioId: int, data: string, qtd: int, storeOk: bool)
    : (r: (bool, Table))
    ensures !r.0 ==> r.1 == t
    ensures r.0 ==> storeOk && qtd > 0 && KeyOf(env, passeioId, data).Some?
    ensures r.1.Keys == t.Keys
    ensures r.0 ==> forall j :: j in t && j != KeyOf(env, passeioId, data).value ==> r.1[j] == t[j]
  {
    var q: nat := if qtd < 0 then 0 else qtd;
    match KeyOf(env, passeioId, data)
    case None => (false, t)
    case Some(k) =>
      if q == 0 then (false, t)
      else match Reread(env, k)
        case None => (false, t)
        case Some(found) =>
          if found !in t || t[found].vagasReservadas + q > t[found].vagasTotal || !storeOk then (false, t)
          else (true, if k in t then t[k := Row(t[k].vagasTotal, t[found].vagasReservadas + q)] else t)
  }

  /** The successful case of Incremented: the re-read row has room for `qtd` more. */
  lemma IncrementedWithRoom(env: Env, t: Table, passeioId: int, data: string, qtd: int, storeOk: bool, k: Key, found: Key)
    requires KeyOf(env, passeioId, data) == Some(k) && qtd > 0 && storeOk
    requires Reread(env, k) == Some(found) && found in t
    requires t[found].vagasReservadas + qtd <= t[found].vagasTotal
    ensures Incremented(env, t, passeioId, data, qtd, storeOk)
              == (true, if k in t then t[k := Row(t[k].vagasTotal, t[found].vagasReservadas + qtd)] else t)
  {
  }

  /**
   * For a date from year 1000 to 9999, incrementar_reservadas succeeds
   * exactly when the database does and the row of the date has room for
   * `qtd` more; it then adds `qtd` to that row's vagas_reservadas, which
   * stays within vagas_total.
   */
  lemma IncrementedInRange(env: Env, t: Table, passeioId: int, data: string, qtd: int, storeOk: bool)
    requires ReadsOwnDates(env) && KeyOf(env, passeioId, data).Some?
    requires InDateRange(KeyOf(env, passeioId, data).value.1)
    ensures var r := Incremented(env, t, passeioId, data, qtd, storeOk);
            var k := KeyOf(env, passeioId, data).value;
            && (r.0 <==> storeOk && Incrementable(t, k, qtd))
            && (r.0 ==> r.1 == Increment(t, k, qtd) && r.1[k].vagasReservadas <= r.1[k].vagasTotal)
  {
    var k := KeyOf(env, passeioId, data).value;
    KeyOfFormatted(env, k.0, k.1);
    assert Reread(env, k) == Some(k);
    if storeOk && Incrementable(t, k, qtd) {
      IncrementedWithRoom(env, t, passeioId, data, qtd, storeOk, k, k);
      assert Increment(t, k, qtd) == t[k := Row(t[k].vagasTotal, t[k].vagasReservadas + qtd)];
    }
  }

  /**
   * The bulk increment is `qtd` single claims: it is allowed exactly when
   * all `qtd` successive claims would succeed, and it leaves the same table.
   */
  lemma IncrementIsRepeatedClaim(t: Table, k: Key, qtd: nat)
    requires k in t && qtd > 0
    ensures Incrementable(t, k, qtd) <==> ClaimTimes(t, k, qtd).1 == qtd
    ensures Incrementable(t, k, qtd) ==> ClaimTimes(t, k, qtd).0 == Increment(t, k, qtd)
  {
    ClaimTimesCount(t, k, qtd);
  }

  // ---------------------------------------------------------------------------
  // Listing a tour's rows in date order

  /** Some date of `s` that no other date of `s` comes before. */
  lemma {:induction false} EarliestExists(s: set<Date>)
    requires s != {}
    ensures exists m :: m in s && forall x :: x in s ==> !Before(x, m)
    decreases |s|
  {
    var y :| y in s;
    var rest := s - {y};
    if rest != {} {
      EarliestExists(rest);
      var m :| m in rest && forall x :: x in rest ==> !Before(x, m);
      if Before(y, m) {
        forall x | x in s
          ensures !Before(x, y)
        {
          if x != y && Before(x, y) {
            BeforeTransitive(x, y, m);
          }
        }
      } else {
        assert forall x :: x in s ==> !Before(x, m);
      }
    } else {
      assert s == {y};
    }
  }

  /** The dates of `s` in ascending order. */
  function SortedDates(s: set<Date>): (r: seq<Date>)
    ensures forall i :: 0 <= i < |r| ==> r[i] in s
    ensures forall d :: d in s ==> d in r
    ensures forall i, j :: 0 <= i < j < |r| ==> Before(r[i], r[j])
    decreases |s|
  {
    if s == {} then []
    else
      EarliestExists(s);
      var m :| m in s && forall x :: x in s ==> !Before(x, m);
      var rest := SortedDates(s - {m});
      forall j | 0 <= j < |rest|
        ensures Before(m, rest[j])
      {
        BeforeTotal(m, rest[j]);
      }
      [m] + rest
  }

  /** The ledger rows of tour `id` at `dates`, in that order. */
  function RowsOfDates(t: Table, id: nat, dates: seq<Date>): (r: seq<Estoque>)
    requires forall i :: 0 <= i < |dates| ==> (id, dates[i]) in t
    ensures |r| == |dates|
    ensures forall i :: 0 <= i < |r| ==>
              r[i] == Estoque(id, dates[i], t[(id, dates[i])].vagasTotal, t[(id, dates[i])].vagasReservadas)
  {
    seq(|dates|, i requires 0 <= i < |dates| =>
      Estoque(id, dates[i], t[(id, dates[i])].vagasTotal, t[(id, dates[i])].vagasReservadas))
  }

  /** The position of `x` in `s`. */
  function IndexOf<T(==)>(s: seq<T>, x: T): (i: nat)
    requires x in s
    ensures i < |s| && s[i] == x
  {
    if s[0] == x then 0 else 1 + IndexOf(s[1..], x)
  }

  class EstoqueVagas {
    var rows: Table

    /** Every key holds a normalised (valid) date. */
    ghost predicate Valid()
      reads this
    {
      forall k :: k in rows ==> ValidDate(k.1)
    }

    constructor ()
      ensures Valid() && rows == map[]
    {
      rows := map[];
    }

    /** get_estoque: the row of a tour and date, or None when the date does not normalise or there is no row. */
    function GetEstoque(env: Env, passeioId: int, data: string): (r: Option<Estoque>)
      reads this
      ensures r.Some? <==> KeyOf(env, passeioId, data).Some? && KeyOf(env, passeioId, data).value in rows
      ensures r.Some? ==>
                var k := KeyOf(env, passeioId, data).value;
                r.value == Estoque(k.0, k.1, rows[k].vagasTotal, rows[k].vagasReservadas)
    {
      match KeyOf(env, passeioId, data)
      case None => None
      case Some(k) =>
        if k in rows then Some(Estoque(k.0, k.1, rows[k].vagasTotal, rows[k].vagasReservadas)) else None
    }

    /** get_estoque_por_passeio: every row of one tour, in ascending date order. */
    function GetEstoquePorPasseio(passeioId: int): (r: seq<Estoque>)
      reads this
      ensures Absint(passeioId) == 0 ==> r == []
      ensures forall i :: 0 <= i < |r| ==>
                && r[i].passeioId == Absint(passeioId)
                && (r[i].passeioId, r[i].data) in rows
                && rows[(r[i].passeioId, r[i].data)] == Row(r[i].vagasTotal, r[i].vagasReservadas)
      ensures Absint(passeioId) != 0 ==>
                forall k :: k in rows && k.0 == Absint(passeioId) ==>
                  exists i :: 0 <= i < |r| && r[i].data == k.1
      ensures forall i, j :: 0 <= i < j < |r| ==> Before(r[i].data, r[j].data)
    {
      var id := Absint(passeioId);
      if id == 0 then []
      else
        var dates := SortedDates(set k | k in rows && k.0 == id :: k.1);
        var r := RowsOfDates(rows, id, dates);
        assert forall k :: k in rows && k.0 == id ==> r[IndexOf(dates, k.1)].data == k.1;
        r
    }

    /**
     * get_vagas_disponiveis: 0 without a row, otherwise the free slots,
     * max(0, vagas_total - vagas_reservadas).
     */
    function GetVagasDisponiveis(env: Env, passeioId: int, data: string): (r: nat)
      reads this
      ensures GetEstoque(env, passeioId, data).None? ==> r == 0
      ensures GetEstoque(env, passeioId, data).Some? ==>
                var e := GetEstoque(env, passeioId, data).value;
                && r + e.vagasReservadas >= e.vagasTotal
                && (r > 0 ==> r + e.vagasReservadas == e.vagasTotal)
      ensures r > 0 <==> KeyOf(env, passeioId, data).Some? && Claimable(rows, KeyOf(env, passeioId, data).value)
    {
      match GetEstoque(env, passeioId, data)
      case None => 0
      case Some(e) => Available(Row(e.vagasTotal, e.vagasReservadas))
    }

    /**
     * set_vagas_totais: with a date that normalises, clamps the capacity at 0
     * and writes it as SetTotal describes; for years 1000 to 9999 that is the
     * upsert (an existing row keeps its vagas_reservadas, a new row starts at
     * 0). Fails with no change on a bad date or a database error.
     */
    method SetVagasTotais(env: Env, passeioId: int, data: string, vagasTotal: int, storeOk: bool)
      returns (ok: bool)
      requires Valid()
      modifies this
      ensures Valid()
      ensures (ok, rows) == SetTotal(env, old(rows), passeioId, data, vagasTotal, storeOk)
    {
      var total: nat := if vagasTotal < 0 then 0 else vagasTotal;
      var key := KeyOf(env, passeioId, data);
      if key.None? {
        return false;
      }
      var (id, d) := key.value;
      var existe := GetEstoque(env, id, Format(d));
      if !storeOk {
        return false;
      }
      if existe.Some? {
        if (id, d) in rows {
          rows := rows[(id, d) := Row(total, rows[(id, d)].vagasReservadas)];
        }
        ok := true;
      } else if (id, d) in rows {
        ok := false;
      } else {
        rows := rows[(id, d) := Row(total, 0)];
        ok := true;
      }
    }

    /**
     * incrementar_reservadas: adds `qtd` to vagas_reservadas as Incremented
     * describes; for years 1000 to 9999, exactly when `qtd` is positive, the
     * date normalises, the row exists and the sum stays within vagas_total.
     * Otherwise returns false with no change. (A read followed by a write in
     * the source, so atomic only as one step of this model.)
     */
    method IncrementarReservadas(env: Env, passeioId: int, data: string, qtd: int, storeOk: bool)
      returns (ok: bool)
      requires Valid()
      modifies this
      ensures Valid()
      ensures (ok, rows) == Incremented(env, old(rows), passeioId, data, qtd, storeOk)
    {
      var q: nat := if qtd < 0 then 0 else qtd;
      var key := KeyOf(env, passeioId, data);
      if key.None? || q == 0 {
        return false;
      }
      var k := key.value;
      var estoque := GetEstoque(env, k.0, Format(k.1));
      if estoque.None? {
        return false;
      }
      var novoReservadas := estoque.value.vagasReservadas + q;
      if novoReservadas > estoque.value.vagasTotal || !storeOk {
        return false;
      }
      IncrementedWithRoom(env, rows, passeioId, data, qtd, storeOk, k, KeyOf(env, k.0, Format(k.1)).value);
      if k in rows {
        rows := rows[k := Row(rows[k].vagasTotal, novoReservadas)];
      }
      ok := true;
    }

    /**
     * reservar_vaga: the single conditional UPDATE that takes one slot. It
     * succeeds exactly when the date normalises, the row exists and has a
     * free slot; then that row's vagas_reservadas grows by one and stays
     * within vagas_total. Otherwise nothing changes.
     */
    method ReservarVaga(env: Env, passeioId: int, data: string, storeOk: bool) returns (ok: bool)
      requires Valid()
      modifies this
      ensures Valid()
      ensures ok <==> storeOk && KeyOf(env, passeioId, data).Some?
                      && Claimable(old(rows), KeyOf(env, passeioId, data).value)
      ensures ok ==> rows == Claim(old(rows), KeyOf(env, passeioId, data).value)
      ensures ok ==> rows[KeyOf(env, passeioId, data).value].vagasReservadas
                     <= rows[KeyOf(env, passeioId, data).value].vagasTotal
      ensures !ok ==> rows == old(rows)
    {
      var id := Absint(passeioId);
      var normalized := NormalizeDate(env, data);
      if normalized.None? || !storeOk {
        return false;
      }
      var k := (id, normalized.value);
      if k in rows && rows[k].vagasTotal - rows[k].vagasReservadas >= 1 {
        rows := rows[k := Row(rows[k].vagasTotal, rows[k].vagasReservadas + 1)];
        ok := true;
      } else {
        ok := false;
      }
    }
  }
}
