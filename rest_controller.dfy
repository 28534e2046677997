/**
 * The public POST /reservas endpoint (ExoBooking_Core_REST_Reservas_Controller):
 * a fixed validation chain (tour, date, email, name), then the atomic claim
 * of one slot in the inventory ledger, then the insert of the reservation.
 * Each failure has its own error code and HTTP status.
 */
module RestReservas {
  import opened Wrappers
  import opened Civil
  import opened Php
  import opened Estoque
  import opened Reservas

  /** The request parameters after create_item's reads; `nome` is None when it is not a string. */
  datatype Request = Request(passeioId: int, data: string, nome: Option<string>, email: string)

  datatype ApiError =
    | PasseioInvalido
    | DataInvalida
    | EmailInvalido
    | NomeObrigatorio
    | SemVagas
    | ErroCriarReserva

  function ErrorCode(e: ApiError): string {
    match e
    case PasseioInvalido => "exobooking_passeio_invalido"
    case DataInvalida => "exobooking_data_invalida"
    case EmailInvalido => "exobooking_email_invalido"
    case NomeObrigatorio => "exobooking_nome_obrigatorio"
    case SemVagas => "exobooking_sem_vagas"
    case ErroCriarReserva => "exobooking_erro_criar_reserva"
  }

  /** The HTTP status of each error: 400 for bad input, 409 for no slot, 500 for a failed insert. */
  function ErrorStatus(e: ApiError): (s: int)
    ensures s == 400 <==> e in {PasseioInvalido, DataInvalida, EmailInvalido, NomeObrigatorio}
    ensures s == 409 <==> e == SemVagas
    ensures s == 500 <==> e == ErroCriarReserva
  {
    match e
    case SemVagas => 409
    case ErroCriarReserva => 500
    case _ => 400
  }

  datatype Response =
    | Created(id: nat, passeioId: int, data: string, nome: string, email: string, status: string)
    | Error(code: string, httpStatus: int)

  function ErrorResponse(e: ApiError): Response {
    Error(ErrorCode(e), ErrorStatus(e))
  }

  /** The validated request: the tour, the normalised date and the trimmed name. */
  datatype Checked = Checked(passeioId: int, data: Date, nome: string)

  /** The tour check: a non-zero id whose post exists, is a `passeio` and is not in the trash. */
  predicate TourOk(env: Env, passeioId: int) {
    passeioId != 0
    && env.getPost(passeioId).Some?
    && env.getPost(passeioId).value.postType == "passeio"
    && env.getPost(passeioId).value.postStatus != "trash"
  }

  /** The name as create_item reads it: trimmed when it is a string, empty otherwise. */
  function NomeOf(req: Request): string {
    if req.nome.Some? then Trim(req.nome.value) else ""
  }

  /** The validation chain of create_item, in its order: tour, date, email, name. */
  function Validate(env: Env, req: Request): (r: Result<Checked, ApiError>)
    ensures r.Success? ==>
              && TourOk(env, req.passeioId)
              && env.isEmail(req.email)
              && ValidDate(r.value.data)
              && r.value.passeioId == req.passeioId
              && NormalizeDate(env, req.data) == Some(r.value.data)
              && r.value.nome == NomeOf(req) && r.value.nome != []
    ensures r.Failure? ==> ErrorStatus(r.error) == 400
  {
    if !TourOk(env, req.passeioId) then Failure(PasseioInvalido)
    else match NormalizeDate(env, req.data)
      case None => Failure(DataInvalida)
      case Some(d) =>
        if !env.isEmail(req.email) then Failure(EmailInvalido)
        else if NomeOf(req) == "" then Failure(NomeObrigatorio)
        else Success(Checked(req.passeioId, d, NomeOf(req)))
  }

  /** The four checks, each on its own, in the order the chain applies them. */
  function Checks(env: Env, req: Request): seq<bool> {
    [TourOk(env, req.passeioId), NormalizeDate(env, req.data).Some?, env.isEmail(req.email), NomeOf(req) != ""]
  }

  const CheckErrors: seq<ApiError> := [PasseioInvalido, DataInvalida, EmailInvalido, NomeObrigatorio]

  /** The position of the first false entry of `c`, or |c| when all are true. */
  function FirstFalse(c: seq<bool>): (i: nat)
    ensures i <= |c|
    ensures forall j :: 0 <= j < i ==> c[j]
    ensures i < |c| ==> !c[i]
  {
    if c == [] then 0
    else if !c[0] then 0
    else 1 + FirstFalse(c[1..])
  }

  /**
   * The chain reports the first check that fails, and succeeds exactly when
   * all four pass: a later check never masks an earlier one.
   */
  lemma FirstFailingCheck(env: Env, req: Request)
    ensures FirstFalse(Checks(env, req)) < 4 ==>
              Validate(env, req) == Failure(CheckErrors[FirstFalse(Checks(env, req))])
    ensures FirstFalse(Checks(env, req)) == 4 <==> Validate(env, req).Success?
  {
    var c := Checks(env, req);
    var i := FirstFalse(c);
    if !c[0] {
      assert i == 0;
    } else if !c[1] {
      assert i == 1;
    } else if !c[2] {
      assert i == 2;
    } else if !c[3] {
      assert i == 3;
    } else {
      assert i == 4;
    }
  }

  // ---------------------------------------------------------------------------
  // Every reservation is backed by a claimed slot

  /** The key of the ledger row a reservation took its slot from. */
  function SlotOf(r: Reserva): Key {
    (r.passeioId, r.data)
  }

  /** How many reservations hold a slot of row `k`. */
  function CountAt(rs: seq<Reserva>, k: Key): (n: nat)
    ensures n <= |rs|
  {
    if rs == [] then 0
    else CountAt(rs[..|rs| - 1], k) + (if SlotOf(rs[|rs| - 1]) == k then 1 else 0)
  }

  lemma CountAtAppend(rs: seq<Reserva>, r: Reserva, k: Key)
    ensures CountAt(rs + [r], k) == CountAt(rs, k) + (if SlotOf(r) == k then 1 else 0)
  {
    assert (rs + [r])[..|rs|] == rs;
  }

  /**
   * No reservation row without a claimed slot: every (tour, date) that has
   * reservations has a ledger row with at least that many slots taken.
   */
  ghost predicate Backed(t: Table, rs: seq<Reserva>) {
    forall k :: CountAt(rs, k) > 0 ==> k in t && CountAt(rs, k) <= t[k].vagasReservadas
  }

  /** A claim followed by the insert of a reservation for the same row keeps every reservation backed. */
  lemma BackedAfterClaimAndInsert(t: Table, rs: seq<Reserva>, r: Reserva)
    requires Backed(t, rs) && Claimable(t, SlotOf(r))
    ensures Backed(Claim(t, SlotOf(r)), rs + [r])
  {
    forall k | CountAt(rs + [r], k) > 0
      ensures k in Claim(t, SlotOf(r)) && CountAt(rs + [r], k) <= Claim(t, SlotOf(r))[k].vagasReservadas
    {
      CountAtAppend(rs, r, k);
    }
  }

  /** A claim alone (the insert failed) keeps every reservation backed: the slot is lost, not double-booked. */
  lemma BackedAfterClaim(t: Table, rs: seq<Reserva>, k: Key)
    requires Backed(t, rs) && Claimable(t, k)
    ensures Backed(Claim(t, k), rs)
  {
  }

  /** set_vagas_totais never changes vagas_reservadas nor drops a row, so it keeps every reservation backed. */
  lemma BackedAfterSetTotal(env: Env, t: Table, rs: seq<Reserva>, passeioId: int, data: string,
                            vagasTotal: int, storeOk: bool)
    requires Backed(t, rs)
    ensures Backed(SetTotal(env, t, passeioId, data, vagasTotal, storeOk).1, rs)
  {
  }

  /** incrementar_reservadas only adds taken slots, so it keeps every reservation backed. */
  lemma BackedAfterIncrement(t: Table, rs: seq<Reserva>, k: Key, qtd: nat)
    requires Backed(t, rs) && k in t
    ensures Backed(Increment(t, k, qtd), rs)
  {
  }

  // ---------------------------------------------------------------------------
  // create_item

  /**
   * create_item. `claimOk` and `insertOk` say whether the database accepted
   * the UPDATE of reservar_vaga and the INSERT of criar; `now` is the
   * database clock for criado_em. Both calls receive the Y-m-d text of the
   * validated date and normalise it again, so the slot claimed is the key
   * of that text; for years 1000 to 9999 it is the requested date.
   */
  method CreateItem(env: Env, ledger: EstoqueVagas, store: ReservasStore, req: Request,
                    claimOk: bool, insertOk: bool, now: int)
    returns (resp: Response)
    requires ledger.Valid() && store.Valid()
    modifies ledger, store
    ensures ledger.Valid() && store.Valid()
    ensures Backed(old(ledger.rows), old(store.rows)) ==> Backed(ledger.rows, store.rows)
    // A request that fails validation gets its 400 and changes neither table.
    ensures Validate(env, req).Failure? ==>
              && resp == ErrorResponse(Validate(env, req).error)
              && ledger.rows == old(ledger.rows)
              && store.rows == old(store.rows) && store.nextId == old(store.nextId)
    ensures Validate(env, req).Success? ==>
              var v := Validate(env, req).value;
              var slot := KeyOf(env, req.passeioId, Format(v.data));
              if !(slot.Some? && claimOk && Claimable(old(ledger.rows), slot.value)) then
                // No free slot (or the date text does not normalise again): 409, nothing changes.
                && resp == ErrorResponse(SemVagas)
                && ledger.rows == old(ledger.rows)
                && store.rows == old(store.rows) && store.nextId == old(store.nextId)
              else
                // The slot is taken whatever the insert does next.
                && ledger.rows == Claim(old(ledger.rows), slot.value)
                && if !insertOk then
                     // No rollback: 500, the slot stays taken and no row is inserted.
                     && resp == ErrorResponse(ErroCriarReserva)
                     && store.rows == old(store.rows) && store.nextId == old(store.nextId)
                   else
                     && resp == Created(old(store.nextId), req.passeioId, Format(v.data), v.nome,
                                        env.sanitizeEmail(req.email), "pendente")
                     && store.rows == old(store.rows) + [Reserva(old(store.nextId), slot.value.0, slot.value.1,
                                                                env.sanitizeTextField(v.nome),
                                                                env.sanitizeEmail(req.email), now)]
    // For a year from 1000 to 9999 the slot is the tour and the requested date.
    ensures ReadsOwnDates(env) && Validate(env, req).Success? && InDateRange(Validate(env, req).value.data) ==>
              KeyOf(env, req.passeioId, Format(Validate(env, req).value.data))
                == Some((Absint(req.passeioId), Validate(env, req).value.data))
  {
    var checked := Validate(env, req);
    if checked.Failure? {
      return ErrorResponse(checked.error);
    }
    var v := checked.value;
    var dataNormalized := Format(v.data);
    if ReadsOwnDates(env) && InDateRange(v.data) {
      KeyOfFormatted(env, Absint(req.passeioId), v.data);
    }
    ghost var slot := KeyOf(env, req.passeioId, dataNormalized);
    ghost var backed := Backed(ledger.rows, store.rows);
    var vagaReservada := ledger.ReservarVaga(env, req.passeioId, dataNormalized, claimOk);
    if !vagaReservada {
      return ErrorResponse(SemVagas);
    }
    if backed {
      BackedAfterClaim(old(ledger.rows), old(store.rows), slot.value);
    }
    var reservaId := store.Criar(env, req.passeioId, dataNormalized, v.nome, req.email, insertOk, now);
    if reservaId.None? {
      return ErrorResponse(ErroCriarReserva);
    }
    if backed {
      BackedAfterClaimAndInsert(old(ledger.rows), old(store.rows), store.rows[|store.rows| - 1]);
    }
    resp := Created(reservaId.value, req.passeioId, dataNormalized, v.nome, env.sanitizeEmail(req.email), "pendente");
  }

  // ---------------------------------------------------------------------------
  // The argument schema of the endpoint

  datatype ParamType = IntegerParam | StringParam

  /** One entry of the REST argument schema. */
  datatype ArgSchema = ArgSchema(
    name: string,
    paramType: ParamType,
    required: bool,
    minimum: Option<int>,
    format: Option<string>,
    sanitize: string)

  /** A request parameter as the REST layer receives it. */
  datatype Param = IntParam(i: int) | StrParam(s: string)

  /** WP_REST_Server::CREATABLE. */
  const Creatable := "POST"

  /** get_endpoint_args_for_item_schema: the four required arguments for POST, none otherwise. */
  function EndpointArgs(httpMethod: string): (r: seq<ArgSchema>)
    ensures httpMethod != Creatable ==> r == []
    ensures httpMethod == Creatable ==> |r| == 4 && forall i :: 0 <= i < |r| ==> r[i].required
  {
    if httpMethod != Creatable then []
    else [
      ArgSchema("passeio_id", IntegerParam, true, Some(1), None, "absint"),
      ArgSchema("data", StringParam, true, None, Some("date"), "sanitize_text_field"),
      ArgSchema("nome", StringParam, true, None, None, "sanitize_text_field"),
      ArgSchema("email", StringParam, true, None, Some("email"), "sanitize_email")
    ]
  }

  /** A parameter has the schema's type and respects its minimum. */
  predicate Conforms(p: Param, a: ArgSchema) {
    match p
    case IntParam(i) => a.paramType == IntegerParam && (a.minimum.Some? ==> i >= a.minimum.value)
    case StrParam(_) => a.paramType == StringParam
  }

  /** The type, presence and minimum checks a schema declares, over a set of parameters. */
  predicate Admits(schema: seq<ArgSchema>, params: map<string, Param>) {
    forall i :: 0 <= i < |schema| ==>
      (schema[i].required ==> schema[i].name in params)
      && (schema[i].name in params ==> Conforms(params[schema[i].name], schema[i]))
  }

  /**
   * The POST schema, as declared, admits exactly the parameter sets holding an
   * integer passeio_id of at least 1 and string data, nome and email; such a
   * request always passes create_item's passeio_id != 0 guard and has a string
   * name. WordPress enforces only the presence of the four, since every
   * argument has a sanitize_callback and none a validate_callback.
   */
  lemma EndpointArgsAdmit(params: map<string, Param>)
    ensures Admits(EndpointArgs(Creatable), params) <==>
              && "passeio_id" in params && params["passeio_id"].IntParam? && params["passeio_id"].i >= 1
              && "data" in params && params["data"].StrParam?
              && "nome" in params && params["nome"].StrParam?
              && "email" in params && params["email"].StrParam?
  {
    var schema := EndpointArgs(Creatable);
    if Admits(schema, params) {
      assert schema[0].name == "passeio_id" && schema[1].name == "data";
      assert schema[2].name == "nome" && schema[3].name == "email";
    }
  }
}
