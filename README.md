# exobooking-core: the booking ledger and the reservation flow, in Dafny

This project models the core of the WordPress plugin exobooking-core. The
plugin sells slots on tours ("passeios") for given dates. It has five parts.

- **The inventory ledger** (`ExoBooking_Core_Estoque_Vagas`) is a table
  keyed by tour and date. Each row holds a capacity (`vagas_total`) and the
  slots already taken (`vagas_reservadas`). The ledger has a point lookup, a
  per-tour listing, the free-slot count, a capacity upsert, a bulk increment
  and the single conditional UPDATE `reservar_vaga`, which takes one slot
  only when one is free.
- **Date normalisation** (`normalize_date`) accepts a Unix timestamp, or
  any text that PHP's `strtotime` can read. It returns the UTC day as
  `Y-m-d`.
- **The public `POST /exobooking/v1/reservas` endpoint** (`create_item`)
  checks four things in a fixed order: the tour, the date, the e-mail and
  the name. It then claims a slot in the ledger and inserts the reservation.
  Each failure has its own error code and HTTP status.
- **The reservation store** (`ExoBooking_Core_Reservas`) appends rows with an
  auto-increment id. It also lists them, one page at a time, with clamped
  and whitelisted ORDER BY / LIMIT / OFFSET arguments, and counts them.
- **Two admin screens.** The AJAX capacity entry of the tour editor
  (`ajax_save_estoque`) checks the request, upserts the capacity, and sends
  back the tour's rows with their free-slot counts. The reservation list
  (`render_page`) does the page arithmetic: page number, offset, page count
  and whether the page links appear.

The Dafny modules follow the PHP classes:

| module | file | models |
|---|---|---|
| `Civil` | civil.dfy | the proleptic Gregorian calendar behind `gmdate('Y-m-d', ts)` |
| `Php` | php.dfy | `trim`, `strtoupper`, and the WordPress/PHP calls as parameters |
| `Ordering` | ordering.dfy | lexicographic order on integer lists (ORDER BY keys) |
| `Estoque` | estoque.dfy | class-estoque-vagas.php |
| `Reservas` | reservas.dfy | class-reservas.php |
| `RestReservas` | rest_controller.dfy | class-rest-reservas-controller.php |
| `AdminEstoque` | admin_estoque.dfy | `ajax_save_estoque` of class-admin-estoque-metabox.php |
| `AdminReservas` | admin_reservas.dfy | `render_page` of class-admin-reservas.php |

Each table lives in a class: `Estoque.EstoqueVagas` holds the ledger as a
`map<(nat, Date), Row>`, and `Reservas.ReservasStore` holds the reservations
as a `seq` plus the next auto-increment id. Every public ledger or store
call is one atomic step on its class. Each step is specified by a function
on the old state. On the ledger these are `SetTotal` for set_vagas_totais,
`Claim` for reservar_vaga and `Incremented` for incrementar_reservadas. On
the store they are `SortRows` and `Window`. For a date of a year from 1000
to 9999, `SetTotal` reduces to the plain upsert `Upsert` (`SetTotalInRange`)
and `Incremented` to the plain increment `Increment` (`IncrementedInRange`).
The lemmas are proved about those functions.

Calls into code the model cannot see are fields of the datatype `Php.Env`,
passed to every operation that uses them:
- `is_numeric` with the `(int)` cast, and `strtotime`;
- `is_email`, `sanitize_text_field` and `sanitize_email`;
- `get_post`, together with the post type and status.

Outcomes the database decides for its writes are `bool` parameters: whether
an INSERT or UPDATE failed (`$wpdb->last_error`). Reads are taken to succeed. The clock that stamps `criado_em` is the
parameter `now`.

The code re-normalises dates it has already normalised:
- `set_vagas_totais` and `incrementar_reservadas` pass their normalised date
  text to `get_estoque`, which normalises it again;
- `create_item` and `ajax_save_estoque` pass `Y-m-d` text to the ledger and
  to `criar`, which normalise it again.

The model follows these paths as written. A write looks its row up under
the key of the re-normalised text (`Estoque.Reread`) and writes under the
key of its own normalisation, whatever `strtotime` makes of the text. Two
predicates on `Php.Env` state what the platform is taken to do, and only the
lemmas and clauses that name them rely on them:
- `Php.BlanksNotNumeric`: `is_numeric` rejects blank text;
- `Php.ReadsOwnDates`: `strtotime` reads the `Y-m-d` text `gmdate` wrote for
  a day of a year from 1000 to 9999 as midnight UTC of that day (WordPress
  runs PHP in UTC), and `is_numeric` rejects that text.

Under `Php.ReadsOwnDates`, for those years, the re-normalised text gives
back the same day, so each write path reduces to the plain table update
(`Estoque.SetTotalInRange`, `Estoque.IncrementedInRange`).

## Model

| member | source | states |
|---|---|---|
| Civil.CivilFromDays | exobooking-core/includes/class-estoque-vagas.php:209 | the UTC calendar day of day number n is a valid date whose day number is n |
| Civil.CivilFromDayNumber | exobooking-core/includes/class-estoque-vagas.php:219 | converting a valid date to its day number and back gives the same date |
| Civil.DayNumberInjective | exobooking-core/includes/class-estoque-vagas.php:219 | distinct valid dates have distinct day numbers, so a timestamp names exactly one day |
| Civil.BeforeIsEarlier | exobooking-core/includes/class-estoque-vagas.php:65 | ordering dates by year, month, day is the same as ordering them by day number |
| Civil.YearStartClosedForm | exobooking-core/includes/class-estoque-vagas.php:209 | the first day of year y is 365 days per year plus one per leap year after 1970-01-01 |
| Civil.TimestampExample | exobooking-core/includes/class-estoque-vagas.php:207-209 | timestamp 1741132800 falls on 2025-03-05 |
| Civil.FormatShape | exobooking-core/includes/class-estoque-vagas.php:219 | the Y-m-d text of a valid date is at least 10 characters of digits and dashes and ends in a digit, so trim leaves it as it is |
| Civil.FormatRoundTrip | exobooking-core/includes/class-estoque-vagas.php:219 | reading the year, month and day back out of gmdate's Y-m-d text gives the date that was written, for every year |
| Civil.FormatInjective | exobooking-core/includes/class-estoque-vagas.php:219 | two valid dates with the same Y-m-d text are the same date |
| Civil.FormatExample | exobooking-core/includes/class-estoque-vagas.php:219 | 2025-03-05 is written as the text "2025-03-05", month and day padded to two digits |
| Php.TrimStart | exobooking-core/includes/class-estoque-vagas.php:211 | trim cuts from the left only trim characters, and stops at the first other character or at the end |
| Php.TrimEnd | exobooking-core/includes/class-estoque-vagas.php:211 | trim cuts from the right only trim characters, never past the left cut, and stops at the last other character |
| Php.Trim | exobooking-core/includes/class-estoque-vagas.php:211 | the trimmed text neither begins nor ends with a character PHP's trim strips |
| Php.TrimIsSlice | exobooking-core/includes/class-estoque-vagas.php:211 | the trimmed text is a slice of the input with only blank text cut off before and after it |
| Php.BlankTrimsAway | exobooking-core/includes/class-estoque-vagas.php:211-213 | trimming blank text leaves nothing |
| Php.TrimEmptyIffBlank | exobooking-core/includes/class-estoque-vagas.php:211-214 | trimmed text is empty exactly when the text is blank |
| Ordering.LexTransitive | exobooking-core/includes/class-reservas.php:81 | the ORDER BY key order is transitive |
| Ordering.LexTotal | exobooking-core/includes/class-reservas.php:81 | any two distinct ORDER BY keys are ordered one way or the other |
| Estoque.Absint | exobooking-core/includes/class-estoque-vagas.php:34 | absint gives the absolute value |
| Estoque.NormalizeDate | exobooking-core/includes/class-estoque-vagas.php:206-220 | a numeric argument gives the UTC day of its timestamp; other text gives a date exactly when it is non-blank after trim and strtotime reads it, and then the UTC day of that timestamp |
| Estoque.NormalizeBlank | exobooking-core/includes/class-estoque-vagas.php:211-214 | when is_numeric rejects blank text, empty or whitespace-only text does not normalise |
| Estoque.NormalizeFormatted | exobooking-core/includes/class-estoque-vagas.php:206-220 | when strtotime reads gmdate's text, normalising the Y-m-d text of a date of a year from 1000 to 9999 gives the same date back |
| Estoque.KeyOf | exobooking-core/includes/class-estoque-vagas.php:34-38 | a ledger call has a key exactly when its date normalises; the key is absint of the tour and the date |
| Estoque.KeyOfFormatted | exobooking-core/includes/class-estoque-vagas.php:101-108 | when strtotime reads gmdate's text, a call made with the Y-m-d text of a date of a year from 1000 to 9999 works on that date's row |
| Estoque.Reread | exobooking-core/includes/class-estoque-vagas.php:108 | the row a write path looks up again, by the text of its normalised date, belongs to the same tour |
| Estoque.Upsert | exobooking-core/includes/class-estoque-vagas.php:108-130 | the upsert adds the key, sets its capacity, keeps its taken slots (0 for a new row) and leaves every other row alone |
| Estoque.SetTotal | exobooking-core/includes/class-estoque-vagas.php:98-131 | set_vagas_totais on the table: a failure changes nothing; success needs a normalising date and the database's acceptance; it writes at most the upsert of the call's key with the capacity clamped at 0; no row is ever lost and no taken count changes |
| Estoque.SetTotalInRange | exobooking-core/includes/class-estoque-vagas.php:98-131 | for a date of a year from 1000 to 9999, set_vagas_totais succeeds exactly when the database accepts, and then the table is the upsert of that date's row |
| Estoque.UpsertIdempotent | exobooking-core/includes/class-estoque-vagas.php:108-130 | upserting the same capacity for the same key twice gives the same table as upserting it once |
| Estoque.SetTotalIdempotent | exobooking-core/includes/class-estoque-vagas.php:98-131 | repeating set_vagas_totais with the same arguments, for any date text and any database outcome, leaves the table as the first call left it |
| Estoque.Claim | exobooking-core/includes/class-estoque-vagas.php:189-196 | the conditional UPDATE adds one taken slot to a row with a free slot, keeps it within capacity, and otherwise changes nothing |
| Estoque.ClaimableIffAvailable | exobooking-core/includes/class-estoque-vagas.php:80-87 | a row can be claimed exactly when its free-slot count is positive, and a claim lowers that count by one |
| Estoque.ClaimTimesCount | exobooking-core/includes/class-estoque-vagas.php:171-196 | n successive claims on a row with k free slots succeed exactly min(n, k) times, each adding one taken slot, with no other row changed |
| Estoque.ClaimTimesNoOverbooking | exobooking-core/includes/class-estoque-vagas.php:171-196 | any number of claims keep vagas_reservadas <= vagas_total |
| Estoque.Increment | exobooking-core/includes/class-estoque-vagas.php:156-168 | the increment adds qtd taken slots to one row and leaves the others alone |
| Estoque.Incremented | exobooking-core/includes/class-estoque-vagas.php:142-169 | incrementar_reservadas on the table: a failure changes nothing; success needs qtd > 0, a normalising date and the database's acceptance; no row is added or removed, and only the call's key can change |
| Estoque.IncrementedInRange | exobooking-core/includes/class-estoque-vagas.php:142-169 | for a date of a year from 1000 to 9999, incrementar_reservadas succeeds exactly when the database accepts and the row exists with reserved + qtd <= total; then the row gains qtd taken slots and stays within capacity |
| Estoque.IncrementIsRepeatedClaim | exobooking-core/includes/class-estoque-vagas.php:142-169 | adding qtd at once is allowed exactly when qtd successive single claims would all succeed, and gives the same table |
| Estoque.SortedDates | exobooking-core/includes/class-estoque-vagas.php:65 | the dates are listed once each, all of them, in ascending order |
| Estoque.EstoqueVagas.GetEstoque | exobooking-core/includes/class-estoque-vagas.php:31-47 | the row is found exactly when the date normalises and the key is in the table, and it carries that row's counts |
| Estoque.EstoqueVagas.GetEstoquePorPasseio | exobooking-core/includes/class-estoque-vagas.php:56-70 | tour 0 gives no rows; otherwise exactly the tour's rows, each with its counts, in strictly ascending date order |
| Estoque.EstoqueVagas.GetVagasDisponiveis | exobooking-core/includes/class-estoque-vagas.php:80-87 | 0 without a row, otherwise max(0, total - reserved); positive exactly when reservar_vaga would succeed |
| Estoque.EstoqueVagas.SetVagasTotais | exobooking-core/includes/class-estoque-vagas.php:98-131 | the result and the new table are SetTotal of the old table: the row is looked up again by the text of the normalised date; when it is found, only an existing row under the call's key gets the clamped capacity; when it is not, the row is inserted with 0 taken, and the insert fails if the key exists; the ledger invariant (every key is a valid date) is kept; set_vagas_totais may leave a row's reserved count above its new total |
| Estoque.EstoqueVagas.IncrementarReservadas | exobooking-core/includes/class-estoque-vagas.php:142-169 | the result and the new table are Incremented of the old table: qtd is clamped at 0 and must be positive, the row is looked up again by the text of the normalised date, and its reserved + qtd must not exceed its total; the ledger invariant (every key is a valid date) is kept |
| Estoque.EstoqueVagas.ReservarVaga | exobooking-core/includes/class-estoque-vagas.php:180-197 | succeeds exactly when the date normalises and the row has a free slot (and the database accepts); then that row alone gains one taken slot and stays within capacity, otherwise nothing changes |
| Reservas.PerPage | exobooking-core/includes/class-reservas.php:71 | per_page is 50 when missing, the argument itself when it is at least 1, and 1 when it is below 1 |
| Reservas.Offset | exobooking-core/includes/class-reservas.php:72 | offset is 0 when missing, the argument itself when it is not negative, and 0 when it is negative |
| Reservas.ColumnOf | exobooking-core/includes/class-reservas.php:73 | a column other than id is chosen only by its exact whitelisted name |
| Reservas.ColumnNameSelects | exobooking-core/includes/class-reservas.php:73 | each whitelisted name selects its own column |
| Reservas.DirectionAscIff | exobooking-core/includes/class-reservas.php:74 | the order is ASC exactly when the argument spells "asc" in any mix of cases, DESC otherwise |
| Reservas.PrecedesByDate | exobooking-core/includes/class-reservas.php:81 | ORDER BY data ASC puts earlier dates first |
| Reservas.PrecedesByCreation | exobooking-core/includes/class-reservas.php:81 | ORDER BY criado_em DESC puts newer rows first |
| Reservas.PrecedesByName | exobooking-core/includes/class-reservas.php:81 | ORDER BY nome_cliente ASC orders names by code point, a prefix first |
| Reservas.SortRows | exobooking-core/includes/class-reservas.php:77-86 | the ordered table is a permutation of the rows and is sorted by the chosen column and direction |
| Reservas.Window | exobooking-core/includes/class-reservas.php:82 | LIMIT n OFFSET o gives the rows from position o, min(n, rows left) of them |
| Reservas.ReservasStore.Criar | exobooking-core/includes/class-reservas.php:33-59 | returns an id exactly when the date normalises and the insert succeeds; then it appends one sanitised row with the next id, larger than every earlier id; otherwise nothing changes |
| Reservas.ReservasStore.GetTodas | exobooking-core/includes/class-reservas.php:68-88 | at most per_page rows, all from the table, sorted; exactly the sorted table sliced from the clamped offset |
| Reservas.ReservasStore.GetTotal | exobooking-core/includes/class-reservas.php:96-100 | the number of reservation rows |
| Reservas.TotalIsListingSize | exobooking-core/includes/class-reservas.php:68-100 | a listing of get_total rows from offset 0 holds every reservation exactly once, an empty table included |
| RestReservas.ErrorStatus | exobooking-core/includes/class-rest-reservas-controller.php:80-129 | 400 exactly for the four validation errors, 409 exactly for no free slot, 500 exactly for a failed insert |
| RestReservas.Validate | exobooking-core/includes/class-rest-reservas-controller.php:77-111 | a request passes only with an existing, untrashed tour post, a date that normalises, an e-mail is_email accepts and a non-empty trimmed name; every failure is a 400 |
| RestReservas.FirstFailingCheck | exobooking-core/includes/class-rest-reservas-controller.php:77-111 | the chain reports the first of tour, date, e-mail, name that fails, and passes exactly when all four hold |
| RestReservas.BackedAfterClaimAndInsert | exobooking-core/includes/class-rest-reservas-controller.php:113-130 | a claim followed by an insert for the same tour and date keeps every reservation backed by a taken slot |
| RestReservas.BackedAfterClaim | exobooking-core/includes/class-rest-reservas-controller.php:123-130 | a claim whose insert fails keeps every reservation backed |
| RestReservas.BackedAfterSetTotal | exobooking-core/includes/class-estoque-vagas.php:98-131 | set_vagas_totais, whatever its outcome, keeps every reservation backed |
| RestReservas.BackedAfterIncrement | exobooking-core/includes/class-estoque-vagas.php:156-168 | a bulk increment keeps every reservation backed |
| RestReservas.CreateItem | exobooking-core/includes/class-rest-reservas-controller.php:71-144 | a failed validation gives its 400 and changes nothing; the slot is the key of the Y-m-d text of the validated date, which for a year from 1000 to 9999 is the requested tour and date; a missing or full slot gives 409 and changes nothing; a failed insert gives 500 with the slot still taken; otherwise the slot is taken, one row is appended and the 201 body echoes the new id, the tour, the Y-m-d date, the trimmed name, the sanitised e-mail and "pendente"; no reservation is ever left without a taken slot |
| RestReservas.EndpointArgs | exobooking-core/includes/class-rest-reservas-controller.php:153-186 | no arguments for any method but POST; four required arguments for POST |
| RestReservas.EndpointArgsAdmit | exobooking-core/includes/class-rest-reservas-controller.php:157-185 | the POST schema, as declared, admits exactly an integer passeio_id of at least 1 together with string data, nome and email (WordPress enforces only the presence of the four) |
| AdminEstoque.VagasOf | exobooking-core/includes/class-admin-estoque-metabox.php:123 | the capacity is the argument when it is not negative, 0 when it is negative, and 0 when missing |
| AdminEstoque.SaveCheck | exobooking-core/includes/class-admin-estoque-metabox.php:110-128 | the checks run in order: a bad nonce, then a non-tour post, then a missing edit permission each give their own message; once all three pass, the request succeeds exactly when the date normalises and otherwise gives the date message; success carries the tour, the clamped capacity and the normalised date |
| AdminEstoque.DisplayRows | exobooking-core/includes/class-admin-estoque-metabox.php:137-145 | one line per row, showing the Y-m-d date, the counts and max(0, total - reserved) |
| AdminEstoque.AjaxSaveEstoque | exobooking-core/includes/class-admin-estoque-metabox.php:109-153 | every failed check answers its message with the ledger unchanged; otherwise set_vagas_totais runs on the Y-m-d text of the date and the ledger becomes SetTotal of the old one; its failure answers the update error, its success sends back the tour's lines read after the write; for a year from 1000 to 9999 the answer is a success exactly when the database accepts, and the ledger is then the upsert of that date's row |
| AdminEstoque.RenderRows | exobooking-core/includes/class-admin-estoque-metabox.php:136-145 | the foreach builds exactly the display lines of the rows, in order |
| AdminEstoque.DisplayedAvailableIsLedgerAvailable | exobooking-core/includes/class-admin-estoque-metabox.php:138 | for a row dated in a year from 1000 to 9999, the "available" cell of its line equals get_vagas_disponiveis for that tour and date text |
| AdminEstoque.DisplayedRowsCoverTour | exobooking-core/includes/class-admin-estoque-metabox.php:135-145 | every ledger row of the tour appears as a line, and the lines are in date order |
| AdminReservas.PageOffset | exobooking-core/includes/class-admin-reservas.php:63 | the offset is a whole number of pages of 20 and skips exactly paged - 1 of them; page 1 starts at offset 0 |
| AdminReservas.PagedOf | exobooking-core/includes/class-admin-reservas.php:62 | the page number is 1 when missing, the argument itself when it is at least 1, and 1 when it is below 1 |
| AdminReservas.TotalPages | exobooking-core/includes/class-admin-reservas.php:71 | there is always at least one page |
| AdminReservas.TotalPagesIsCeiling | exobooking-core/includes/class-admin-reservas.php:71 | the page count is ceil(total / 20): the pages hold every row and one page fewer would not; there is one page exactly when total <= 20 |
| AdminReservas.RenderPage | exobooking-core/includes/class-admin-reservas.php:61-79 | the page number is the clamped argument, the offset is (page - 1) * 20, the total is the row count and the page count is TotalPages of it; the page shows at most 20 rows, newest first; the page links appear exactly when the page has rows and there is more than one page |
| AdminReservas.PageIsWindow | exobooking-core/includes/class-admin-reservas.php:63-70 | page p shows the newest-first table from row (p - 1) * 20, at most 20 rows |
| AdminReservas.PagesArePrefix | exobooking-core/includes/class-admin-reservas.php:63-70 | the first k pages of n rows together are the first k * n rows of the listing, or all of it |
| AdminReservas.PagesCoverListing | exobooking-core/includes/class-admin-reservas.php:61-71 | with ties on criado_em broken by id, pages 1 to total_pages together show every reservation once, newest first |
| AdminReservas.PastLastPageIsEmpty | exobooking-core/includes/class-admin-reservas.php:77-118 | a page number past the last page shows no rows and no page links |
| AdminReservas.ListingIsNewestFirst | exobooking-core/includes/class-reservas.php:81 | the listing with the id tie-break is one of the orders ORDER BY criado_em DESC allows |
| AdminReservas.NewestFirstHead | exobooking-core/includes/class-reservas.php:81 | without ties on criado_em, two newest-first orders of the same rows start with the same row |
| AdminReservas.NewestFirstUnique | exobooking-core/includes/class-reservas.php:81 | without ties on criado_em, a set of rows has exactly one newest-first order |
| AdminReservas.PagesAsQueriedOfOneOrder | exobooking-core/includes/class-admin-reservas.php:63-70 | when every page query returns the same order, the queried pages are the pages of that order |
| AdminReservas.PagesCoverWhenCreationUnique | exobooking-core/includes/class-admin-reservas.php:61-71 | as written, when no two reservations share a criado_em, pages 1 to total_pages show every reservation once, whatever newest-first order each page query gets |
| AdminReservas.TiedOrdersAllowed | exobooking-core/includes/class-reservas.php:81 | two rows created in the same second may come out in either order under ORDER BY criado_em DESC |
| AdminReservas.TiedPages | exobooking-core/includes/class-admin-reservas.php:63-70 | when page 1's query puts TiedA 20th and page 2's query puts it 21st, the two pages show Spread and then TiedA twice |
| AdminReservas.TiedCreationSkipsARow | exobooking-core/includes/class-reservas.php:81-82 | as written, with 21 reservations of which the last two share a criado_em, the two page queries may order the pair differently, and then one reservation is on no page |

## Left out

- Concurrency is not modelled: each ledger and store call is one atomic step. `reservar_vaga` is a single conditional UPDATE, so that step is faithful. `incrementar_reservadas` reads and then writes, so under concurrent requests it can exceed capacity; the model does not capture this.
- `strtotime`, the `is_numeric`/`(int)` reading of the argument, `is_email`, `sanitize_text_field`, `sanitize_email` and `get_post` are parameters of the model (`Php.Env`), not definitions. `Php.BlanksNotNumeric` and `Php.ReadsOwnDates` are all the model assumes about them, and only the members that name them rely on them.
- How `strtotime` reads the text `gmdate` writes for a year before 1000 or after 9999 is not modelled. Years 1000 to 9999 are the span of a MySQL DATE column. `gmdate` writes years 0 to 999 with four digits too, padded with zeros (`0999`), but MySQL does not promise to store them, and years past 9999 or before 0 are written with five digits or a sign. The write paths follow whatever `strtotime` returns for it, so for those years the model states no more than `Estoque.SetTotal` and `Estoque.Incremented` do.
- Estoque.NormalizeFormatted: holds only for years 1000 to 9999, because how `strtotime` reads other years' text is not modelled.
- Estoque.KeyOfFormatted: holds only for years 1000 to 9999, for the same reason.
- AdminEstoque.DisplayedAvailableIsLedgerAvailable: covers only rows dated in years 1000 to 9999, for the same reason.
- RestReservas.BackedAfterIncrement: is stated for the in-range effect `Increment`; for other years `Estoque.Incremented` can add to a row the re-read value of another row's count, and that case is not covered.
- `wp_unslash` is dropped: the model reads the request values as already unslashed. The nonce check and `current_user_can` are a boolean and a function of the request (`AdminEstoque.SaveRequest`).
- The database is the two class fields. The failure of a write is a `bool` parameter. The value of `$wpdb->insert_id` is the store's counter, which the model advances only on a successful insert; InnoDB may use up an AUTO_INCREMENT value on a failed insert, so ids may have gaps in the database. The model does not capture those gaps, and no contract depends on ids being consecutive.
- Estoque.EstoqueVagas.GetEstoque, Estoque.EstoqueVagas.GetEstoquePorPasseio, Reservas.ReservasStore.GetTodas and Reservas.ReservasStore.GetTotal: reads are taken to succeed. On a database error the source returns null, an empty list or 0 instead (class-estoque-vagas.php:46 and :69, class-reservas.php:87 and :99). So after a successful save, ajax_save_estoque would answer success with empty `rows`, and render_page would show no reservations on one page. The model does not capture these outcomes. Inside set_vagas_totais and incrementar_reservadas, a failed read leads to an outcome the model already covers, with `storeOk` false or with no row found. The refusal of a second INSERT for an existing (passeio_id, data) assumes a unique key on those columns; the schema that declares it is not part of this model.
- PHP integers are unbounded here, while PHP's are 64-bit.
- AdminReservas.PageOffset: `(paged - 1) * 20` turns into a float in PHP once it passes PHP_INT_MAX; the model keeps the exact product.
- Estoque.Absint: `absint(PHP_INT_MIN)` in PHP is not PHP_INT_MAX + 1; the model gives the exact absolute value.
- Estoque.Incremented: `vagas_reservadas + qtd` turns into a float in PHP past PHP_INT_MAX; the model adds exactly.
- MySQL collation is not modelled: ORDER BY nome_cliente uses code-point order. Rows with equal sort values come out by id, in the chosen direction (descending ids under DESC), which is one of the orders the database may return.
- Reservas.SortRows: fixes ties by id, which is stronger than the database's promise of some order. What the database promises for criado_em alone is `AdminReservas.NewestFirst`, used in the Findings below.
- The LEFT JOIN that adds the tour title to each listed reservation, all HTML output, escaping, i18n and `paginate_links` are left out. Of the page rendering, only the row set and the condition for showing the page links are modelled.
- RestReservas.EndpointArgs: `Admits` is the schema as declared, not what WordPress enforces. Each argument has a `sanitize_callback` and none has a `validate_callback`. WordPress then runs its type, minimum and format validation (`rest_parse_request_arg`) for none of them, so the only schema check that runs is `required`. In particular, `type`, `minimum: 1`, `format: date` and `format: email` are not checked by WordPress. `CreateItem` does not rely on `Admits`: it models create_item's own checks (`passeio_id != 0`, `normalize_date`, `is_email`, a non-empty name) on whatever parameters arrive. The `format` and `sanitize_callback` entries are recorded but not used by `Admits`.
- The response's HTTP 201 status and the `WP_Error` message texts are not modelled; errors carry their code and status.
- AdminReservas.TotalPages: `ceil` of a float quotient is modelled as the integer ceiling. These agree for any row count a table can hold.
- The date (`Date`) keys the ledger in place of the Y-m-d text the database stores. Distinct dates have distinct texts (`Civil.FormatInjective`), and for years 1000 to 9999, the range of a MySQL DATE column, the text is read back as the same date (`Estoque.NormalizeFormatted`), so there the key loses nothing.
- Out-of-range dates: a MySQL DATE column cannot hold a year past 9999, and with the strict modes cleared by wpdb such text is stored as the zero date `0000-00-00`, so distinct out-of-range dates would share one database key. The model's map keeps them apart; the in-range lemmas, which are the ones that state the ledger's promises, do not cover those dates.
- Estoque.EstoqueVagas.IncrementarReservadas: the PHP default `$qtd = 1` is not modelled; every caller passes qtd explicitly.
- The plugin bootstrap, the schema (DDL), the custom post type, hook wiring, the admin JavaScript and the Jira script are not part of this model. The uniqueness of (passeio_id, data) is taken as the map key. The reservations schema has no status column, and no code changes a reservation's status, so there is no status operation.

## Findings

| source | as written | input that shows it | evidently intended | confidence | as-written member | corrected member |
|---|---|---|---|---|---|---|
| exobooking-core/includes/class-reservas.php:81-82 | the admin list pages with `ORDER BY criado_em DESC LIMIT 20 OFFSET (paged - 1) * 20`, one query per page, with no unique tie-break, so each query may order rows created in the same second differently | 21 reservations, the last two created in the same second: page 1 may end with one of the pair and page 2 may show the same one again | each reservation appears on exactly one page | medium, not executed | AdminReservas.TiedCreationSkipsARow | AdminReservas.PagesCoverListing |
