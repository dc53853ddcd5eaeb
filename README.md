# Sistema de propaganda — a verified model of the credit ledger and playback gate

This project is a Dafny model of the server core of *sistema_de_propaganda*, a Flask service that
distributes advertising videos to display clients by location. The model covers:

- **Credit ledger and playback recorder** (`VideoService`, `Models`). Each video carries the
  approval, payment and pause flags, a credit balance and a view counter.
  - Recording a playback runs an ordered check-then-act. It refuses an unapproved video. It refuses
    an exhausted one and pauses it. It refuses a paused one. Otherwise it logs the view, spends a
    credit and counts the view, pausing at zero.
  - Adding credits, the four single-flag mutations, upload and delete are modelled too, together
    with the model-level helpers `Video.consumir_credito` and `Video.adicionar_creditos`.
- **Location listing** (`VideoService.VideosByLocation`, `Geo`). The listing gates on approved,
  unpaused and funded, keeps the videos whose circle covers the point, and stable-sorts by credits
  in descending order. The geodesic distance is a parameter.
- **Freshness mark** (`Models.GetLastUpdate`, `Models.UpdateTimestamp`) and which admin routes move
  it (`Admin`).
- **Brazilian validators** (`Validators`): CPF/CNPJ check digits, the CPF_CNPJ dispatch, phone
  numbers, and the latitude, longitude and positive-number fields.
- **Client registration, login and statistics** (`ClienteService`).
- **REST outcome mapping** (`Api`): status codes and JSON bodies of the listing, playback and
  timestamp endpoints.

**How the store is modelled.** The database is the class `Models.Database`, which holds:

- the videos as a map from id to `Video`;
- the view log as a sequence that is only appended to or filtered;
- the clients as a map;
- the freshness mark as an optional time.

Ids come from counters. Time is an integer passed in by the caller. Every service and route is a
method on the store, and its `ensures` ties the new state to a pure function of the old state; the
properties are lemmas about those functions. A failed operation leaves the store as it was, except
that the no-credits refusal commits the pause. `Valid()` holds the referential invariants: ids
match keys and are below the counter, log entries refer to stored videos, and client e-mails and
CPF/CNPJs are unique. The ledger invariant `LedgerValid` (non-negative balances, and each counter
equal to the number of log entries for that video) is proved to be preserved by every operation.

Where the code's own documentation and its behaviour disagree, the model follows the behaviour. The
docstring of the listing route (`server/routes/api.py:22-26`) promises only approved, paid and
unpaused videos, but neither the listing query nor the playback check tests `pago`.

## Model

| member | source | states |
|---|---|---|
| Models.ConsumeCreditSpec | server/models.py:93-101 | `consumir_credito` succeeds exactly when the balance is positive. It then spends one credit, counts one view, and pauses exactly when the balance reaches zero (an existing pause stays). A refusal changes nothing, and no field other than these three ever changes. |
| Models.ConsumeTimesSpec | server/models.py:93-101 | n consumptions spend min(n, balance) credits and count as many views; exhausting a positive balance leaves the video paused. |
| Models.ExhaustedStaysPaused | server/models.py:95-101 | On an exhausted, paused video any number of consumptions changes nothing. |
| Models.AddCreditsUncheckedSpec | server/models.py:103-107 | `Video.adicionar_creditos` adds the amount with no sign check. It lifts the pause when the new balance is positive and otherwise leaves it. |
| Models.VideoRow.constructor | server/models.py:62-66 | A new row defaults to not approved, not paid, not paused, zero credits and zero views. |
| Models.VideoRow.ConsumirCredito | server/models.py:93-101 | The in-place method agrees with `ConsumeCredit` on the result and on every field. |
| Models.VideoRow.AdicionarCreditos | server/models.py:103-107 | The in-place method agrees with `AddCreditsUnchecked`. |
| Models.LogsWithoutSpec | server/models.py:68-71 | The cascade keeps exactly the log entries of other videos, in order. |
| Models.GetLastUpdate | server/models.py:130-137 | Returns the stored mark unchanged, or creates it at the current time when absent. |
| Models.UpdateTimestamp | server/models.py:139-147 | Sets the mark to the current time, creating it if absent. |
| Geo.BoundaryIsInside | server/utils/geo.py:9-10 | The radius test is inclusive: a client exactly at the radius is inside. |
| Geo.WithinRadiusMonotone | server/utils/geo.py:10 | Inside radius r implies inside any larger radius. |
| Geo.NearbyVideosSpec | server/utils/geo.py:12-20 | The selection is a subsequence of the input, holds exactly the covering videos, is no longer than the input, and is empty for empty input. |
| Geo.GetVideosForLocation | server/utils/geo.py:12-20 | The append loop computes exactly the order-preserving selection. |
| Validators.Digits | server/utils/validators.py:20 | Stripping non-digits leaves only digits. |
| Validators.DigitsPerCharacter | server/utils/validators.py:20 | Stripping fixes the empty string, keeps a single character exactly when it is a digit, distributes over concatenation, and keeps a character exactly when it is a digit of the input. |
| Validators.DigitsSpec | server/utils/validators.py:20 | Stripping is idempotent, the identity on digit strings, and a subsequence of the input. |
| Validators.CheckDigit | server/utils/validators.py:32-33 | The mod-11 check digit is in 0..9, is 0 exactly when the remainder is below 2, and is otherwise 11 minus the remainder. |
| Validators.WithCheckDigits | server/utils/validators.py:30-44 | Completing a base appends two digits and keeps the base. |
| Validators.ChecksHoldIffCompleted | server/utils/validators.py:30-46 | Both check digits match exactly when the number equals its base completed with the computed digits. |
| Validators.CpfRoundTrip | server/utils/validators.py:9-46 | `validate_cpf` holds exactly for 11 digits, not all equal, that equal their first nine completed with the two CPF check digits. |
| Validators.CpfFromBase | server/utils/validators.py:9-46 | Completing any 9-digit base that is not all equal yields a valid CPF. |
| Validators.CnpjRoundTrip | server/utils/validators.py:49-88 | `validate_cnpj` holds exactly for 14 digits, not all equal, that equal their first twelve completed with the two CNPJ check digits (weights 5..2,9..2 and 6..2,9..2). |
| Validators.CnpjFromBase | server/utils/validators.py:49-88 | Completing any 12-digit base that is not all equal yields a valid CNPJ. |
| Validators.FormattingIgnored | server/utils/validators.py:19-20 | Formatted and bare inputs get the same CPF and CNPJ verdicts. |
| Validators.CpfCnpjSpec | server/utils/validators.py:99-109 | The field is accepted exactly when it has 11 digits forming a valid CPF or 14 forming a valid CNPJ. Other lengths get the length message. |
| Validators.Ddd | server/utils/validators.py:128 | The area code read from two digits is in 0..99. |
| Validators.TelefoneBRSpec | server/utils/validators.py:120-134 | A phone is accepted exactly when it has 10 or 11 digits, an area code of at least 11, and, at 11 digits, a third digit of 9. |
| Validators.RangeValidatorsSpec | server/utils/validators.py:145-185 | Latitude accepts exactly [-90, 90], Longitude exactly [-180, 180], PositiveNumber exactly values above 0. A readable latitude out of range gets the configured (or default) message; an unreadable one gets "Latitude inválida". |
| Validators.RangeMessageSwallowed | server/utils/validators.py:145-151 | As written, the range message is caught and replaced by the unreadable-value message (91.0 gives "Latitude inválida"). Acceptance is unaffected. |
| VideoService.MutateSpec | server/services/video_service.py:91-171 | Approve, reject, mark-paid and pause succeed exactly for a stored video. Each sets (or flips) its one flag of that one video and nothing else; the pause message tells which way it went. A missing id fails with the operation's prefix and the 404 text, changing nothing. |
| VideoService.MutateTwice | server/services/video_service.py:91-171 | Approve, reject and mark-paid are idempotent; pausing twice restores the table. |
| VideoService.MutateKeepsInvariants | server/services/video_service.py:91-171 | The flag mutations keep the store's and the ledger's invariants. |
| VideoService.MutateVideo | server/services/video_service.py:91-171 | The in-place update of the fetched video agrees with `Mutate` and keeps the invariants. |
| VideoService.AprovarVideo | server/services/video_service.py:91-102 | `aprovar_video` is `Mutate` with Approve. |
| VideoService.ReprovarVideo | server/services/video_service.py:105-116 | `reprovar_video` is `Mutate` with Reject. |
| VideoService.MarcarComoPago | server/services/video_service.py:119-132 | `marcar_como_pago` is `Mutate` with MarkPaid. |
| VideoService.PausarVideo | server/services/video_service.py:158-171 | `pausar_video` is `Mutate` with TogglePause. |
| VideoService.AddCreditsSpec | server/services/video_service.py:135-155 | A non-positive amount is refused before the lookup ("maior que zero") and changes nothing. Otherwise a stored video gains exactly that many credits and is unpaused unconditionally. The message opens with the amount in decimal; nothing else changes. |
| VideoService.AddCreditsAgreesWithModel | server/services/video_service.py:135-155 | On a non-negative balance the service agrees with `Video.adicionar_creditos`. |
| VideoService.AddCreditsDisagreesWithModel | server/services/video_service.py:142-143 | For every video and positive amount both reach the same balance, and the records differ exactly when the new balance is still not positive and the video was paused. |
| VideoService.AddCreditsKeepsInvariants | server/services/video_service.py:135-155 | Adding credits keeps the store's and the ledger's invariants. |
| VideoService.AdicionarCreditos | server/services/video_service.py:135-155 | The in-place service agrees with `AddCredits`. |
| VideoService.PlaybackCheckOrder | server/services/video_service.py:184-196 | The gate refuses exactly the unplayable videos: approval first, then credits, then the pause, so an exhausted paused video reports no credits. |
| VideoService.RecordRefusals | server/services/video_service.py:182-196 | Unapproved: "Vídeo não aprovado", nothing changes. Exhausted: "Vídeo sem créditos" and the pause is committed. Paused: "Vídeo pausado", nothing changes. No refusal logs anything. |
| VideoService.RecordSuccess | server/services/video_service.py:198-220 | Success happens exactly for a stored playable video. It appends exactly one entry (id, address, coordinates, time), spends one credit without going negative, counts one view, pauses exactly at zero, changes nothing else, and returns the updated video (as intended; see Findings). |
| VideoService.RecordMissing | server/services/video_service.py:222-227 | A missing id is an ordinary failure carrying the 404 text and no video, and changes nothing. |
| VideoService.RecordKeepsInvariants | server/services/video_service.py:174-227 | Recording keeps the store's invariants and the ledger invariant (each view counter equals its log entries). |
| VideoService.PlayedAgreesWithConsumeCredit | server/services/video_service.py:207-213 | A granted playback changes the video as `consumir_credito` does; the credit refusal pauses where `consumir_credito` changes nothing. |
| VideoService.PaymentIgnored | server/services/video_service.py:184-196 | The payment flag never affects the gate or the recorder. |
| VideoService.ExhaustedRun | server/services/video_service.py:188-192 | Repeated playbacks of an exhausted video grant none and only pause it. |
| VideoService.PlayRunSpec | server/services/video_service.py:207-213 | k playbacks of an unpaused approved video grant min(k, balance). The balance never goes negative, the views grow by as many, and the video ends paused once exhausted. |
| VideoService.LogKeywordsBreakPlayback | server/services/video_service.py:199-205 | As written, no playback succeeds. Exactly where the intended recorder grants one, the code fails with the TypeError text and changes nothing; elsewhere the two agree. |
| VideoService.RegistrarVisualizacao | server/services/video_service.py:174-227 | The in-place recorder agrees with `Record` and keeps the invariants. |
| VideoService.Extension | server/services/video_service.py:37 | `os.path.splitext` yields empty or a dot-led suffix of the name with no further dot or slash. |
| VideoService.ExtensionSpec | server/services/video_service.py:37 | The extension is non-empty exactly when some dot has no dot or slash after it and a non-dot character before it in the same path component; it is then the name from that dot on. |
| VideoService.ExtensionDotIsLast | server/services/video_service.py:37 | Such a dot is the last dot, after the last slash, and the extension starts there. |
| VideoService.ExtensionExamples | server/services/video_service.py:37 | "clip.MP4" lower-cases to ".mp4", "a.mp4.txt" gives ".txt", and a leading-dot name has no extension. |
| VideoService.UploadCheckSpec | server/services/video_service.py:30-50 | An upload is accepted exactly when a named file has one of the four extensions, the centre is on the globe and the radius is positive. The checks run in order (file, extension, latitude, longitude, radius): each refusal implies that every earlier check passed. |
| VideoService.KelvinSignExtension | server/services/video_service.py:37-38 | A Kelvin sign lowers to "k", so "clip.M\u212AV" is an accepted ".mkv" upload, as with `str.lower()`. |
| VideoService.InitialVideoSpec | server/services/video_service.py:63-75 | An admin video (no owner) is approved, paid, has 1000 credits and is playable. A client video is unapproved and unpaid, with 0 credits, so approval alone leads to the no-credits refusal. Owner id 0 is falsy and gets 1000. |
| VideoService.UploadKeepsInvariants | server/services/video_service.py:63-78 | The new row takes the next id and keeps every invariant. |
| VideoService.UploadVideo | server/services/video_service.py:16-88 | A rejected upload returns the first failing check's message and changes nothing. An accepted one stores `InitialVideo` under the next id. |
| VideoService.DeleteSpec | server/services/video_service.py:230-250 | Deletion succeeds exactly for a stored video. It removes that video and every one of its log entries, keeps the others in order, and keeps all invariants. |
| VideoService.DeletarVideo | server/services/video_service.py:230-250 | The in-place delete agrees with `Delete`. |
| VideoService.AllVideosSpec | server/services/video_service.py:287-289 | Lists every stored video once, ids strictly descending. |
| VideoService.FilteredQueriesSpec | server/services/video_service.py:292-299 | Pending and unpaid lists hold exactly the unapproved and unpaid videos, ids strictly descending. |
| VideoService.SortByCredits | server/services/video_service.py:282 | The sort is a permutation. |
| VideoService.SortSorted | server/services/video_service.py:282 | The sort orders by credits, non-increasing. |
| VideoService.SortStable | server/services/video_service.py:282 | The sort is stable: videos with equal credits keep their relative order. |
| VideoService.ListingSpec | server/services/video_service.py:253-284 | The listing holds exactly the stored videos that are approved, unpaused, funded and covering the point. It is a permutation of them in query order, sorted by credits non-increasingly, and stable on ties. |
| VideoService.UnapprovedNeverPlays | server/services/video_service.py:266-270 | An unapproved video is never listed and always refused. |
| ClienteService.RegistrationCheckSpec | server/services/cliente_service.py:22-28 | Registration passes exactly when neither e-mail nor CPF/CNPJ is taken. A taken e-mail is reported first; "CPF/CNPJ já cadastrado" appears exactly when only the document is taken. |
| ClienteService.RegistrationKeepsInvariants | server/services/cliente_service.py:30-41 | A passing registration adds one new id and keeps ids and uniqueness. |
| ClienteService.RegistrarCliente | server/services/cliente_service.py:14-49 | A refusal returns the message and adds nothing. Success adds exactly one client with the given fields and the hashed password. |
| ClienteService.AutenticarSpec | server/services/cliente_service.py:52-66 | Login returns a client exactly when a stored client has that e-mail and the password check passes. |
| ClienteService.VideosClienteSpec | server/services/cliente_service.py:74-78 | Lists exactly the client's videos, ids strictly descending. |
| ClienteService.VideoStatusSpec | server/services/cliente_service.py:105-107 | "Ativo" exactly when unpaused with credits, else "Pausado"; an unapproved video can be "Ativo". |
| ClienteService.EstatisticasSpec | server/services/cliente_service.py:81-108 | Statistics exist exactly for the caller's own video. They report its counters and status and its most recent log entries, at most 100, newest first. |
| ClienteService.StatsNeverShown | server/services/cliente_service.py:93-98 | As written, the call raises exactly where statistics should be shown, and returns None elsewhere. |
| ClienteService.CountsAddUp | server/services/cliente_service.py:115-117 | Approved plus pending counts equal the number of videos. |
| ClienteService.SumsNonNegative | server/services/cliente_service.py:118-119 | View and credit sums are non-negative when every video's are. |
| ClienteService.DashboardSpec | server/services/cliente_service.py:111-128 | Total = approved + pending = the client's videos, exactly the client's; the sums are non-negative under the ledger invariant. |
| Api.GetVideosSpec | server/routes/api.py:21-40 | 400 with the coordinates message exactly when a coordinate is missing or unreadable. Otherwise 200 with exactly the listing's videos, sorted by credits, and `count` equal to their number. |
| Api.ForbiddenRefusals | server/routes/api.py:79 | The approval and pause refusals map to 403. |
| Api.PaymentRequiredMessages | server/routes/api.py:79 | The credit refusal and the missing-id error both map to 402. |
| Api.PostVisualizacaoSpec | server/routes/api.py:56-84 | 200 exactly for a stored playable video, with the post-playback balance, pause flag and view count; the log gets the caller's address and the posted coordinates. Unapproved or paused gives 403, unchanged. Exhausted gives 402, paused. Unknown id gives 402 with 0 credits and paused (as intended; see Findings). |
| Api.PlayableAnsweredPaymentRequired | server/routes/api.py:71-84 | As written, the route never answers 200. A playable video gets 402 with 0 credits and paused reported, and nothing changes. |
| Api.RegistrarVisualizacao | server/routes/api.py:56-84 | The route on the store agrees with `PostVisualizacao` and keeps the invariants. |
| Api.GetTimestamp | server/routes/api.py:11-18 | Answers 200 with the stored mark, created at the current time on first use. |
| Admin.FreshnessAfterSpec | server/routes/admin.py:84-178 | The mark moves only on success of upload, approve, reject or delete, and then to now. Mark-paid, pause and add-credits never move it. It never decreases under a monotone clock. |
| Admin.PauseHidesWithoutFreshness | server/routes/admin.py:150-161 | Pausing a listed video removes it from the listing while the freshness mark stays put. |
| Admin.TopUpShowsWithoutFreshness | server/routes/admin.py:132-147 | Topping up any approved video that covers the point (an exhausted, auto-paused one included) puts it in the listing while the mark stays put. |
| Admin.AprovarVideo | server/routes/admin.py:84-98 | Approves via the service, flashes success or danger, and bumps the mark only on success. |
| Admin.ReprovarVideo | server/routes/admin.py:101-115 | Rejects via the service, flashes warning or danger, and bumps the mark only on success. |
| Admin.MarcarPago | server/routes/admin.py:118-129 | Marks paid and flashes success or danger; the mark is untouched. |
| Admin.PausarVideo | server/routes/admin.py:150-161 | Toggles the pause and flashes info or danger; the mark is untouched. |
| Admin.DeleteVideo | server/routes/admin.py:164-178 | Deletes via the service and bumps the mark only on success. |
| Admin.AdicionarCreditos | server/routes/admin.py:132-147 | An unreadable amount flashes "Quantidade de créditos inválida!" and changes nothing. An absent field reads as 0 and is refused by the service. Otherwise the service result is flashed; the mark is untouched. |
| Admin.FormErrorFlashesSpec | server/routes/admin.py:76-79 | There is one danger flash "field: error" for every error of every field, and no other. |
| Admin.FlashFormErrors | server/routes/admin.py:76-79 | The nested loop produces exactly those flashes, in order. |
| Admin.UploadVideo | server/routes/admin.py:51-81 | A rejected form flashes its errors and changes nothing. A submitted one uploads without an owner (approved, paid, 1000 credits), flashes the stored name and bumps the mark; a service refusal flashes "Erro: ..." and changes nothing. |
| Admin.Dashboard | server/routes/admin.py:40-48 | Returns every video newest first and the mark; a missing mark is created with the current time and that time is returned, an existing one is returned unchanged. |

## Notable behaviour

These are modelled as the code behaves and are proved as stated.

- `pago` is never checked, by the listing or by playback (`VideoService.PaymentIgnored`,
  `VideoService.ListingSpec`), although `server/routes/api.py:25` says listed videos are paid.
- A missing id is an ordinary failure, not a 404. The playback route maps it to 402 "payment
  required" with 0 credits and paused reported (`Api.PostVisualizacaoSpec`).
- An exhausted video that is also paused reports "sem créditos", because the credit check comes
  first (`VideoService.PlaybackCheckOrder`).
- A client's upload starts with 0 credits, so approving it alone yields the no-credits refusal,
  which also pauses it. Owner id 0 is falsy and gets 1000 credits (`VideoService.InitialVideoSpec`).
- The service's add-credits always unpauses, even a manual pause. `Video.adicionar_creditos`
  unpauses only when the new balance is positive; they differ exactly when the video was paused
  and the new balance is still not positive (`VideoService.AddCreditsDisagreesWithModel`).
- "Ativo" ignores approval (`ClienteService.VideoStatusSpec`).
- Pausing, marking paid and adding credits do not move the freshness mark. Pausing or topping up
  changes what the listing offers while polling clients see no change
  (`Admin.PauseHidesWithoutFreshness`, `Admin.TopUpShowsWithoutFreshness`).

## Findings

| source | as written | input that shows it | evidently intended | confidence | as-written member | corrected member |
|---|---|---|---|---|---|---|
| server/services/video_service.py:199-204 | The log row is built with keywords `ip_address`, `latitude`, `longitude`. LogVisualizacao's columns are `client_ip`, `client_latitude`, `client_longitude` (server/models.py:115-117), so the declarative constructor raises TypeError, the `except` rolls back, and the call fails. | Any approved, unpaused video with 5 credits: the report is "Erro ao registrar visualização: 'ip_address' is an invalid keyword argument for LogVisualizacao". The API answers 402. | Log the view under the real columns, spend the credit and succeed. | not executed; high (declarative constructors reject unknown keywords) | VideoService.LogKeywordsBreakPlayback | VideoService.RecordSuccess |
| server/services/cliente_service.py:93-98 | The statistics query orders by `LogVisualizacao.timestamp`, which is not a column (the time column is `visualizado_em`, server/models.py:118). The attribute lookup raises AttributeError for every owned video. | Client 7 asks for the statistics of its own video 3: the call raises instead of returning the statistics. | Order by `visualizado_em` descending and return the statistics. | not executed; high | ClienteService.StatsNeverShown | ClienteService.EstatisticasSpec |
| server/utils/validators.py:145-151 | `ValidationError` is a `ValueError`, so the range error raised inside the `try` is caught by `except (TypeError, ValueError)`. It is replaced by the unreadable-value message; Longitude (162-168) and PositiveNumber (179-185) behave the same. | Latitude 91.0 gets "Latitude inválida" instead of "Latitude deve estar entre -90 e 90". | Report the field's own range message for a readable out-of-range value. | not executed; high | Validators.RangeMessageSwallowed | Validators.RangeValidatorsSpec |

The corrected definitions (`VideoService.Record`, `ClienteService.Estatisticas`,
`Validators.RangeCheck`) are the ones the rest of the model uses. The as-written playback route is
`Api.PostVisualizacaoAsWritten`, and `Api.PlayableAnsweredPaymentRequired` shows its effect.

## Left out

- Geodesic distance (geopy) is an arbitrary function `dist` from two points to kilometres. Floating point, NaN and infinities are not modelled: coordinates and radii are exact reals.
- Files are not modelled: saving and removing them, `secure_filename`, and the timestamped stored name (a parameter, `storedName`). Downloads (`/api/download`, `/admin/download-client`) are left out too.
- Sessions, `commit` and `rollback` are not modelled: each operation is atomic, and a failure leaves the store unchanged except for the committed no-credits pause. Concurrency is not modelled either: operations run one at a time, so the read-modify-write race on `creditos` is not captured.
- Password hashing is a parameter: `hash` on registration and `checkPassword` on login. The admin login, logout, session decorator and HTML rendering are not modelled.
- The clock is a parameter `now`. ISO-8601 and Unix-second formatting of the timestamp endpoint is not modelled: the body carries the time value.
- Ids come from counters that never reuse a value; SQLite's reuse of a deleted maximum rowid is not modelled. Query order without ORDER BY is taken as ascending id.
- VideoService.UploadVideo: the exception path "Erro ao fazer upload: ..." (failure to save the file or commit) is not modelled.
- VideoService.UploadErrorMessage: the extension list is given in the fixed order ".mp4, .avi, .mov, .mkv". Python joins a set, whose order depends on string hashing.
- ClienteService.EstatisticasSpec: "newest first" is proved only for a log in chronological order, since entries with equal times have no defined order in the database.
- ClienteService.RegistrarCliente: the generic "Erro ao registrar: ..." exception path is not modelled.
- Text.Lower: maps one character to one and lowers only ASCII, the Latin-1 capitals and U+212A KELVIN SIGN; other capitals are left as they are. No other character lowers to ASCII (U+0130 lowers to "i" plus a combining dot), so the upload extension verdict still matches `str.lower()`; the messages the status test searches contain no other capitals.
- Api.GetVideos: `float()` on a query parameter is a parameter `parseFloat`; Python's accepted spellings are not modelled.
- Api.PostVisualizacao: the posted JSON is an object with optional numeric coordinates. Non-object bodies and non-numeric coordinate values are not modelled.
- Admin.AdicionarCreditos: `int()` on the posted text is a parameter `parseInt`.
- Admin.UploadVideo: the upload form's own validators (the file-type list with "webm", `DataRequired`, the radius range 0.1 to 10000) are not modelled. The route takes the form's outcome, data or per-field errors, as input.
- `get_cliente_by_id` is a plain lookup and is not modelled.
- The client portal's upload route, which never moves the freshness mark, is not modelled. Neither is the legacy `server/routes.py` / `server/app.py` revision, whose listing filters by geography only.
- The display clients (`client/`, `server/static/js/client.js`) and the deployment watcher (`monitor_git/`) are I/O loops and are not modelled.
