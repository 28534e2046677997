/**
 * The capacity entry of the tour edit screen (ajax_save_estoque): guard
 * checks, the capacity upsert, then a re-read of the tour's ledger rows with
 * the "available" column the screen shows.
 */
module AdminEstoque {
  import opened Wrappers
  import opened Civil
  import opened Php
  import opened Estoque

  /** The $_POST fields of the request; None stands for a field that is not set. */
  datatype SaveRequest = SaveRequest(
    nonceOk: bool,                // the nonce is present and wp_verify_nonce accepts it
    postId: Option<int>,
    canEditPost: int -> bool,     // current_user_can('edit_post', id)
    data: Option<string>,
    vagas: Option<int>)

  /** One line of the table sent back: the cells of a <tr>. */
  datatype DisplayRow = DisplayRow(data: string, vagasTotal: nat, vagasReservadas: nat, disponiveis: nat)

  datatype AjaxResult =
    | JsonError(message: string)
    | JsonSuccess(message: string, rows: seq<DisplayRow>)

  const NonceInvalido := "Nonce inválido."
  const PasseioInvalido := "Passeio inválido."
  const SemPermissao := "Sem permissão."
  const DataInvalida := "Data inválida."
  const ErroAtualizar := "Erro ao atualizar o estoque."
  const EstoqueAtualizado := "Estoque atualizado."

  /** The post id as the handler reads it: absint of the field, 0 when it is missing. */
  function PostIdOf(req: SaveRequest): nat {
    if req.postId.Some? then Absint(req.postId.value) else 0
  }

  /** The capacity as the handler reads it: clamped at 0, and 0 when it is missing. */
  function VagasOf(req: SaveRequest): (n: nat)
    ensures req.vagas.None? ==> n == 0
    ensures req.vagas.Some? ==> n >= req.vagas.value && (req.vagas.value >= 0 ==> n == req.vagas.value)
    ensures req.vagas.Some? && req.vagas.value < 0 ==> n == 0
  {
    if req.vagas.Some? && req.vagas.value > 0 then req.vagas.value else 0
  }

  /** The date text as the handler reads it: sanitised, empty when missing. */
  function DataOf(env: Env, req: SaveRequest): string {
    env.sanitizeTextField(req.data.GetOr(""))
  }

  /** A tour post: get_post_type of a non-zero id is `passeio`. */
  predicate IsPasseio(env: Env, id: nat) {
    id != 0 && env.getPost(id).Some? && env.getPost(id).value.postType == "passeio"
  }

  /** The checks before the upsert, in the handler's order; on success the tour, the date and the capacity. */
  function SaveCheck(env: Env, req: SaveRequest): (r: Result<(nat, Date, nat), string>)
    ensures r.Success? ==>
              && req.nonceOk && IsPasseio(env, r.value.0) && req.canEditPost(r.value.0)
              && r.value.0 == PostIdOf(req) && r.value.2 == VagasOf(req)
              && NormalizeDate(env, DataOf(env, req)) == Some(r.value.1)
    ensures r.Failure? ==> r.error in {NonceInvalido, PasseioInvalido, SemPermissao, DataInvalida}
    ensures !req.nonceOk ==> r == Failure(NonceInvalido)
    ensures req.nonceOk && !IsPasseio(env, PostIdOf(req)) ==> r == Failure(PasseioInvalido)
    ensures req.nonceOk && IsPasseio(env, PostIdOf(req)) && !req.canEditPost(PostIdOf(req)) ==>
              r == Failure(SemPermissao)
    ensures req.nonceOk && IsPasseio(env, PostIdOf(req)) && req.canEditPost(PostIdOf(req)) ==>
              && (r.Success? <==> NormalizeDate(env, DataOf(env, req)).Some?)
              && (r.Failure? ==> r == Failure(DataInvalida))
  {
    var id := PostIdOf(req);
    if !req.nonceOk then Failure(NonceInvalido)
    else if !IsPasseio(env, id) then Failure(PasseioInvalido)
    else if !req.canEditPost(id) then Failure(SemPermissao)
    else match NormalizeDate(env, DataOf(env, req))
      case None => Failure(DataInvalida)
      case Some(d) => Success((id, d, VagasOf(req)))
  }

  /** The table lines for ledger rows: date text, total, taken, and max(0, total - taken). */
  function DisplayRows(itens: seq<Estoque>): (r: seq<DisplayRow>)
    requires forall i :: 0 <= i < |itens| ==> ValidDate(itens[i].data)
    ensures |r| == |itens|
    ensures forall i :: 0 <= i < |r| ==>
              && r[i].data == Format(itens[i].data)
              && r[i].vagasTotal == itens[i].vagasTotal
              && r[i].vagasReservadas == itens[i].vagasReservadas
              && r[i].disponiveis + itens[i].vagasReservadas >= itens[i].vagasTotal
              && (r[i].disponiveis > 0 ==> r[i].disponiveis + itens[i].vagasReservadas == itens[i].vagasTotal)
  {
    seq(|itens|, i requires 0 <= i < |itens| && ValidDate(itens[i].data) =>
      DisplayRow(Format(itens[i].data), itens[i].vagasTotal, itens[i].vagasReservadas,
                 Available(Row(itens[i].vagasTotal, itens[i].vagasReservadas))))
  }

  /**
   * ajax_save_estoque. `storeOk` says whether the database accepted the
   * upsert. Every guard failure answers with its message and leaves the
   * ledger as it was. Otherwise set_vagas_totais receives the Y-m-d text of
   * the date and does what SetTotal says; for a year from 1000 to 9999 that
   * is the upsert of the date's row. On success the rows sent back are read
   * after the write.
   */
  method AjaxSaveEstoque(env: Env, ledger: EstoqueVagas, req: SaveRequest, storeOk: bool)
    returns (res: AjaxResult)
    requires ledger.Valid()
    modifies ledger
    ensures ledger.Valid()
    ensures SaveCheck(env, req).Failure? ==>
              res == JsonError(SaveCheck(env, req).error) && ledger.rows == old(ledger.rows)
    ensures SaveCheck(env, req).Success? ==>
              var (id, d, vagas) := SaveCheck(env, req).value;
              var (ok, t) := SetTotal(env, old(ledger.rows), id, Format(d), vagas, storeOk);
              && ledger.rows == t
              && res == if ok then JsonSuccess(EstoqueAtualizado, DisplayRows(ledger.GetEstoquePorPasseio(id)))
                        else JsonError(ErroAtualizar)
    ensures ReadsOwnDates(env) && SaveCheck(env, req).Success? && InDateRange(SaveCheck(env, req).value.1) ==>
              var (id, d, vagas) := SaveCheck(env, req).value;
              && (res.JsonSuccess? <==> storeOk)
              && ledger.rows == if storeOk then Upsert(old(ledger.rows), (id, d), vagas) else old(ledger.rows)
  {
    var check := SaveCheck(env, req);
    if check.Failure? {
      return JsonError(check.error);
    }
    var (postId, d, vagas) := check.value;
    var dataNorm := Format(d);
    if ReadsOwnDates(env) && InDateRange(d) {
      KeyOfFormatted(env, postId, d);
      SetTotalInRange(env, ledger.rows, postId, dataNorm, vagas, storeOk);
    }
    var ok := ledger.SetVagasTotais(env, postId, dataNorm, vagas, storeOk);
    if !ok {
      return JsonError(ErroAtualizar);
    }
    var itens := ledger.GetEstoquePorPasseio(postId);
    var rows := RenderRows(itens);
    res := JsonSuccess(EstoqueAtualizado, rows);
  }

  /** The foreach of ajax_save_estoque: one table line per ledger row, appended in order. */
  method RenderRows(itens: seq<Estoque>) returns (rows: seq<DisplayRow>)
    requires forall i :: 0 <= i < |itens| ==> ValidDate(itens[i].data)
    ensures rows == DisplayRows(itens)
  {
    ghost var all := DisplayRows(itens);
    rows := [];
    var i := 0;
    while i < |itens|
      invariant 0 <= i <= |itens|
      invariant |rows| == i && forall j :: 0 <= j < i ==> rows[j] == all[j]
    {
      var item := itens[i];
      var disponiveis := if item.vagasTotal >= item.vagasReservadas then item.vagasTotal - item.vagasReservadas else 0;
      rows := rows + [DisplayRow(Format(item.data), item.vagasTotal, item.vagasReservadas, disponiveis)];
      i := i + 1;
    }
  }

  /**
   * The "available" cell of every line sent back for a date from year 1000
   * to 9999 is what get_vagas_disponiveis reports for that tour and date text.
   */
  lemma DisplayedAvailableIsLedgerAvailable(env: Env, ledger: EstoqueVagas, id: nat)
    requires ReadsOwnDates(env) && ledger.Valid()
    ensures var itens := ledger.GetEstoquePorPasseio(id);
            var r := DisplayRows(itens);
            forall i :: 0 <= i < |r| && InDateRange(itens[i].data) ==>
              r[i].disponiveis == ledger.GetVagasDisponiveis(env, id, r[i].data)
  {
    var itens := ledger.GetEstoquePorPasseio(id);
    var r := DisplayRows(itens);
    forall i | 0 <= i < |r| && InDateRange(itens[i].data)
      ensures r[i].disponiveis == ledger.GetVagasDisponiveis(env, id, r[i].data)
    {
      assert r[i].data == Format(itens[i].data);
      KeyOfFormatted(env, id, itens[i].data);
    }
  }

  /** The lines sent back cover every ledger row of the tour, one per row, in date order. */
  lemma DisplayedRowsCoverTour(ledger: EstoqueVagas, id: nat)
    requires ledger.Valid() && id != 0
    ensures var itens := ledger.GetEstoquePorPasseio(id);
            var r := DisplayRows(itens);
            && (forall k :: k in ledger.rows && k.0 == id ==> exists i :: 0 <= i < |r| && r[i].data == Format(k.1))
            && (forall i, j :: 0 <= i < j < |r| ==> Before(itens[i].data, itens[j].data))
  {
    var itens := ledger.GetEstoquePorPasseio(id);
    var r := DisplayRows(itens);
    forall k | k in ledger.rows && k.0 == id
      ensures exists i :: 0 <= i < |r| && r[i].data == Format(k.1)
    {
      var i :| 0 <= i < |itens| && itens[i].data == k.1;
      assert r[i].data == Format(k.1);
    }
  }
}
