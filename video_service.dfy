/** server/services/video_service.py: the administrative mutations of a
    video, the playback recorder that gates and spends credits, upload
    validation and the initial state it fixes, deletion with its cascade, the
    catalogue queries and the location listing. Every service call looks the
    video up first; a missing id raises inside the call's `try`, so it comes
    back as an ordinary failure whose message ends with werkzeug's 404 text,
    and the store is left as it was. */
module VideoService {
  import opened Seqs
  import opened Text
  import opened Models
  import opened Geo

  /** `str()` of the NotFound raised by `get_or_404`. */
  const NotFoundText: string :=
    "404 Not Found: " + "The requested URL was not found " + "on the server. "
    + "If you entered the URL manually " + "please check your spelling " + "and try again."

  /** A service's `(success, message)` answer. */
  datatype Outcome = Outcome(success: bool, message: string)

  // ----------------------------------------------------------------------
  // Single-flag mutations: aprovar, reprovar, marcar_como_pago, pausar

  datatype Mutation = Approve | Reject | MarkPaid | TogglePause

  function Apply(m: Mutation, v: Video): Video
  {
    match m
    case Approve => v.(aprovado := true)
    case Reject => v.(aprovado := false)
    case MarkPaid => v.(pago := true)
    case TogglePause => v.(pausado := !v.pausado)
  }

  function SuccessMessage(m: Mutation, after: Video): string
  {
    match m
    case Approve => "Vídeo aprovado com sucesso"
    case Reject => "Vídeo reprovado"
    case MarkPaid => "Vídeo marcado como pago"
    case TogglePause => if after.pausado then "Vídeo pausado com sucesso" else "Vídeo despausado com sucesso"
  }

  function ErrorPrefix(m: Mutation): string
  {
    match m
    case Approve => "Erro ao aprovar vídeo: "
    case Reject => "Erro ao reprovar vídeo: "
    case MarkPaid => "Erro ao marcar como pago: "
    case TogglePause => "Erro ao pausar vídeo: "
  }

  /** The answer and the videos table after mutation `m` of video `id`. */
  function Mutate(videos: map<nat, Video>, id: nat, m: Mutation): (Outcome, map<nat, Video>)
  {
    if id !in videos then (Outcome(false, ErrorPrefix(m) + NotFoundText), videos)
    else
      var after := Apply(m, videos[id]);
      (Outcome(true, SuccessMessage(m, after)), videos[id := after])
  }

  /** A mutation succeeds exactly when the video exists; it then changes one
      field of that one video (approval set or cleared, payment set, pause
      flipped) and nothing else. A failure changes nothing. */
  lemma MutateSpec(videos: map<nat, Video>, id: nat, m: Mutation)
    ensures var (out, after) := Mutate(videos, id, m);
      && (out.success <==> id in videos)
      && (!out.success ==> after == videos && out.message == ErrorPrefix(m) + NotFoundText)
      && after.Keys == videos.Keys
      && (forall k :: k in videos && k != id ==> after[k] == videos[k])
      && (id in videos ==>
            var v, w := videos[id], after[id];
            && (m == Approve ==> w.aprovado && w.(aprovado := v.aprovado) == v)
            && (m == Reject ==> !w.aprovado && w.(aprovado := v.aprovado) == v)
            && (m == MarkPaid ==> w.pago && w.(pago := v.pago) == v)
            && (m == TogglePause ==>
                  && w.pausado == !v.pausado && w.(pausado := v.pausado) == v
                  && (out.message == "Vídeo pausado com sucesso" <==> w.pausado)))
  {
  }

  /** Approving, rejecting and marking paid are idempotent; toggling the
      pause twice restores the table. */
  lemma MutateTwice(videos: map<nat, Video>, id: nat, m: Mutation)
    ensures var once := Mutate(videos, id, m).1;
      var twice := Mutate(once, id, m).1;
      (m == TogglePause ==> twice == videos) && (m != TogglePause ==> twice == once)
  {
    var once := Mutate(videos, id, m).1;
    if id in videos && m == TogglePause {
      assert Apply(TogglePause, once[id]) == videos[id];
      assert once[id := videos[id]] == videos;
    }
  }

  /** A mutation keeps the store's invariants: keys, the log's foreign keys,
      balances and view counters are untouched. */
  lemma MutateKeepsInvariants(videos: map<nat, Video>, logs: seq<LogEntry>, n: nat, id: nat, m: Mutation)
    ensures var after := Mutate(videos, id, m).1;
      && (VideosValid(videos, n) ==> VideosValid(after, n))
      && (LogsValid(logs, videos) ==> LogsValid(logs, after))
      && (LedgerValid(videos, logs) ==> LedgerValid(after, logs))
  {
    MutateSpec(videos, id, m);
  }

  /** One mutation applied to the store in place; the four service functions
      below differ only in the mutation. */
  method MutateVideo(db: Database, id: nat, m: Mutation) returns (out: Outcome)
    requires db.Valid()
    modifies db`videos
    ensures db.Valid()
    ensures LedgerValid(old(db.videos), db.logs) ==> LedgerValid(db.videos, db.logs)
    ensures (out, db.videos) == Mutate(old(db.videos), id, m)
  {
    MutateKeepsInvariants(db.videos, db.logs, db.nextVideoId, id, m);
    if id !in db.videos {
      return Outcome(false, ErrorPrefix(m) + NotFoundText);
    }
    var video := db.videos[id];
    match m {
      case Approve => video := video.(aprovado := true);
      case Reject => video := video.(aprovado := false);
      case MarkPaid => video := video.(pago := true);
      case TogglePause => video := video.(pausado := !video.pausado);
    }
    db.videos := db.videos[id := video];
    out := Outcome(true, SuccessMessage(m, video));
  }

  method AprovarVideo(db: Database, id: nat) returns (out: Outcome)
    requires db.Valid()
    modifies db`videos
    ensures db.Valid()
    ensures LedgerValid(old(db.videos), db.logs) ==> LedgerValid(db.videos, db.logs)
    ensures (out, db.videos) == Mutate(old(db.videos), id, Approve)
  {
    out := MutateVideo(db, id, Approve);
  }

  method ReprovarVideo(db: Database, id: nat) returns (out: Outcome)
    requires db.Valid()
    modifies db`videos
    ensures db.Valid()
    ensures LedgerValid(old(db.videos), db.logs) ==> LedgerValid(db.videos, db.logs)
    ensures (out, db.videos) == Mutate(old(db.videos), id, Reject)
  {
    out := MutateVideo(db, id, Reject);
  }

  method MarcarComoPago(db: Database, id: nat) returns (out: Outcome)
    requires db.Valid()
    modifies db`videos
    ensures db.Valid()
    ensures LedgerValid(old(db.videos), db.logs) ==> LedgerValid(db.videos, db.logs)
    ensures (out, db.videos) == Mutate(old(db.videos), id, MarkPaid)
  {
    out := MutateVideo(db, id, MarkPaid);
  }

  method PausarVideo(db: Database, id: nat) returns (out: Outcome)
    requires db.Valid()
    modifies db`videos
    ensures db.Valid()
    ensures LedgerValid(old(db.videos), db.logs) ==> LedgerValid(db.videos, db.logs)
    ensures (out, db.videos) == Mutate(old(db.videos), id, TogglePause)
  {
    out := MutateVideo(db, id, TogglePause);
  }

  // ----------------------------------------------------------------------
  // adicionar_creditos

  /** The answer and the videos table after adding `quantidade` credits. The
      amount is checked before the lookup. */
  function AddCredits(videos: map<nat, Video>, id: nat, quantidade: int): (Outcome, map<nat, Video>)
  {
    if quantidade <= 0 then (Outcome(false, "Quantidade deve ser maior que zero"), videos)
    else if id !in videos then (Outcome(false, "Erro ao adicionar créditos: " + NotFoundText), videos)
    else
      var v := videos[id];
      (Outcome(true, DecimalString(quantidade) + " créditos adicionados com sucesso"),
       videos[id := v.(creditos := v.creditos + quantidade, pausado := false)])
  }

  /** A non-positive amount is refused whatever the id, changing nothing. A
      positive amount on an existing video raises the balance by exactly that
      much and always lifts the pause, a manual one included; the message
      opens with the amount in decimal. Nothing else changes. */
  lemma AddCreditsSpec(videos: map<nat, Video>, id: nat, quantidade: int)
    ensures var (out, after) := AddCredits(videos, id, quantidade);
      && (out.success <==> quantidade > 0 && id in videos)
      && (quantidade <= 0 ==> out.message == "Quantidade deve ser maior que zero")
      && (!out.success ==> after == videos)
      && after.Keys == videos.Keys
      && (forall k :: k in videos && k != id ==> after[k] == videos[k])
      && (out.success ==>
            var v, w := videos[id], after[id];
            && w.creditos == v.creditos + quantidade && !w.pausado
            && w.(creditos := v.creditos, pausado := v.pausado) == v
            && exists digits :: AllDigits(digits) && DecimalValue(digits) == quantidade
                 && out.message == digits + " créditos adicionados com sucesso")
  {
    if quantidade > 0 {
      DecimalRoundTrip(quantidade);
    }
  }

  /** On a stored video (balance never negative) the service and the model
      helper `Video.adicionar_creditos` agree for every positive amount. Off a
      stored balance they can differ only in the pause flag, as the next lemma
      states. */
  lemma AddCreditsAgreesWithModel(videos: map<nat, Video>, id: nat, quantidade: int)
    requires id in videos && videos[id].creditos >= 0 && quantidade > 0
    ensures AddCredits(videos, id, quantidade).1[id] == AddCreditsUnchecked(videos[id], quantidade)
  {
  }

  /** For every video and every positive amount, the service and the helper
      reach the same balance, and their records differ exactly when the new
      balance is still not positive and the video was paused: the helper
      keeps that pause, the service lifts it. */
  lemma AddCreditsDisagreesWithModel(videos: map<nat, Video>, id: nat, quantidade: int)
    ensures id in videos && quantidade > 0 ==>
      var v := videos[id];
      var service := AddCredits(videos, id, quantidade).1[id];
      && service.creditos == AddCreditsUnchecked(v, quantidade).creditos
      && (service != AddCreditsUnchecked(v, quantidade) <==> v.creditos + quantidade <= 0 && v.pausado)
  {
  }

  /** Adding credits keeps the store's invariants; a positive amount on a
      non-negative balance leaves it positive. */
  lemma AddCreditsKeepsInvariants(videos: map<nat, Video>, logs: seq<LogEntry>, n: nat, id: nat, quantidade: int)
    ensures var after := AddCredits(videos, id, quantidade).1;
      && (VideosValid(videos, n) ==> VideosValid(after, n))
      && (LogsValid(logs, videos) ==> LogsValid(logs, after))
      && (LedgerValid(videos, logs) ==> LedgerValid(after, logs))
  {
    AddCreditsSpec(videos, id, quantidade);
  }

  method AdicionarCreditos(db: Database, id: nat, quantidade: int) returns (out: Outcome)
    requires db.Valid()
    modifies db`videos
    ensures db.Valid()
    ensures LedgerValid(old(db.videos), db.logs) ==> LedgerValid(db.videos, db.logs)
    ensures (out, db.videos) == AddCredits(old(db.videos), id, quantidade)
  {
    AddCreditsKeepsInvariants(db.videos, db.logs, db.nextVideoId, id, quantidade);
    if quantidade <= 0 {
      return Outcome(false, "Quantidade deve ser maior que zero");
    }
    if id !in db.videos {
      return Outcome(false, "Erro ao adicionar créditos: " + NotFoundText);
    }
    var video := db.videos[id];
    video := video.(creditos := video.creditos + quantidade);
    video := video.(pausado := false);
    db.videos := db.videos[id := video];
    out := Outcome(true, DecimalString(quantidade) + " créditos adicionados com sucesso");
  }

  // ----------------------------------------------------------------------
  // registrar_visualizacao

  datatype Refusal = NotApproved | NoCredits | Paused

  /** The recorder's gate, in the code's order: approval, then credits, then
      the pause flag. `pago` is not consulted. */
  function PlaybackCheck(v: Video): Option<Refusal>
  {
    if !v.aprovado then Some(NotApproved)
    else if v.creditos <= 0 then Some(NoCredits)
    else if v.pausado then Some(Paused)
    else None
  }

  function RefusalMessage(r: Refusal): string
  {
    match r
    case NotApproved => "Vídeo não aprovado"
    case NoCredits => "Vídeo sem créditos"
    case Paused => "Vídeo pausado"
  }

  /** A video the listing offers and the recorder accepts. */
  predicate Playable(v: Video)
  {
    v.aprovado && !v.pausado && v.creditos > 0
  }

  /** The video after a granted playback: one credit spent, one view counted,
      paused once the balance is gone. */
  function Played(v: Video): Video
  {
    var c := v.creditos - 1;
    v.(creditos := c, visualizacoes := v.visualizacoes + 1, pausado := if c <= 0 then true else v.pausado)
  }

  /** The recorder's effect on the stored video: the refusal, if any, and the
      video afterwards. The no-credits refusal commits a pause. */
  function PlayVideo(v: Video): (Option<Refusal>, Video)
  {
    match PlaybackCheck(v)
    case None => (None, Played(v))
    case Some(NoCredits) => (Some(NoCredits), v.(pausado := true))
    case Some(r) => (Some(r), v)
  }

  /** `(success, message, video)` as the recorder returns it. */
  datatype Report = Report(success: bool, message: string, video: Option<Video>)

  const RecordErrorPrefix: string := "Erro ao registrar visualização: "

  /** The recorder as intended: the report, the videos table and the view log
      afterwards. A granted playback appends one entry for `id` carrying the
      caller's address, its reported coordinates and the time. */
  function Record(videos: map<nat, Video>, logs: seq<LogEntry>, id: nat, ip: string,
                  lat: Option<real>, lon: Option<real>, now: Time): (Report, map<nat, Video>, seq<LogEntry>)
  {
    if id !in videos then (Report(false, RecordErrorPrefix + NotFoundText, None), videos, logs)
    else
      var (refusal, w) := PlayVideo(videos[id]);
      if refusal.Some? then (Report(false, RefusalMessage(refusal.value), Some(w)), videos[id := w], logs)
      else (Report(true, "Visualização registrada", Some(w)), videos[id := w], logs + [LogEntry(id, ip, lat, lon, now)])
  }

  /** The gate refuses exactly the videos that are not playable, and names the
      first failing check: approval first, credits second (so an exhausted
      video that is also paused reports no credits), the pause last. */
  lemma PlaybackCheckOrder(v: Video)
    ensures PlaybackCheck(v) == None <==> Playable(v)
    ensures PlaybackCheck(v) == Some(NotApproved) <==> !v.aprovado
    ensures PlaybackCheck(v) == Some(NoCredits) <==> v.aprovado && v.creditos <= 0
    ensures PlaybackCheck(v) == Some(Paused) <==> v.aprovado && v.creditos > 0 && v.pausado
  {
  }

  /** The three refusals. An unapproved or paused video changes nothing; a
      video out of credits is paused (and that pause is kept); none of them
      writes a log entry. The report carries the video as stored afterwards. */
  lemma RecordRefusals(videos: map<nat, Video>, logs: seq<LogEntry>, id: nat, ip: string,
                       lat: Option<real>, lon: Option<real>, now: Time)
    requires id in videos && !Playable(videos[id])
    ensures var (report, after, logs') := Record(videos, logs, id, ip, lat, lon, now);
      var v := videos[id];
      && !report.success && logs' == logs
      && (!v.aprovado ==>
            report == Report(false, "Vídeo não aprovado", Some(v)) && after == videos)
      && (v.aprovado && v.creditos <= 0 ==>
            && report == Report(false, "Vídeo sem créditos", Some(after[id]))
            && after == videos[id := v.(pausado := true)])
      && (v.aprovado && v.creditos > 0 && v.pausado ==>
            report == Report(false, "Vídeo pausado", Some(v)) && after == videos)
  {
    var v := videos[id];
    assert videos[id := v] == videos;
  }

  /** A playback succeeds exactly on an existing playable video. It then
      appends exactly one log entry, spends exactly one credit (the balance
      never goes below zero), counts one view, pauses exactly when the balance
      reaches zero, and touches no other video and no other field. */
  lemma RecordSuccess(videos: map<nat, Video>, logs: seq<LogEntry>, id: nat, ip: string,
                      lat: Option<real>, lon: Option<real>, now: Time)
    ensures var (report, after, logs') := Record(videos, logs, id, ip, lat, lon, now);
      && (report.success <==> id in videos && Playable(videos[id]))
      && (report.success ==>
            var v, w := videos[id], after[id];
            && logs' == logs + [LogEntry(id, ip, lat, lon, now)]
            && w.creditos == v.creditos - 1 && w.creditos >= 0
            && w.visualizacoes == v.visualizacoes + 1
            && (w.pausado <==> w.creditos == 0)
            && w.(creditos := v.creditos, visualizacoes := v.visualizacoes, pausado := v.pausado) == v
            && after == videos[id := w]
            && report.video == Some(w))
  {
  }

  /** A missing id is an ordinary failure: no video is reported and nothing
      changes. */
  lemma RecordMissing(videos: map<nat, Video>, logs: seq<LogEntry>, id: nat, ip: string,
                      lat: Option<real>, lon: Option<real>, now: Time)
    requires id !in videos
    ensures Record(videos, logs, id, ip, lat, lon, now) ==
      (Report(false, RecordErrorPrefix + NotFoundText, None), videos, logs)
  {
  }

  /** A granted playback appends one entry for the video whose counter it
      raises by one; a refusal changes no counter and appends nothing. So
      the ledger invariant survives the recorder. */
  lemma RecordKeepsLedger(videos: map<nat, Video>, logs: seq<LogEntry>, id: nat, ip: string,
                          lat: Option<real>, lon: Option<real>, now: Time)
    requires LedgerValid(videos, logs)
    ensures var (_, after, logs') := Record(videos, logs, id, ip, lat, lon, now);
      LedgerValid(after, logs')
  {
    var (report, after, logs') := Record(videos, logs, id, ip, lat, lon, now);
    if id in videos {
      var (refusal, w) := PlayVideo(videos[id]);
      assert after == videos[id := w];
      if refusal.None? {
        var e := LogEntry(id, ip, lat, lon, now);
        assert logs' == logs + [e];
        forall k | k in after
          ensures after[k].creditos >= 0 && after[k].visualizacoes == |Filter(ForVideo(k), logs')|
        {
          FilterSnoc(ForVideo(k), logs, e);
        }
      } else {
        assert logs' == logs;
        assert w.creditos == videos[id].creditos && w.visualizacoes == videos[id].visualizacoes;
      }
    }
  }

  /** The recorder keeps the store's invariants: the new log entry refers to
      a stored video, a balance is only decremented when positive, and the
      view counter grows exactly when an entry is appended for that video. */
  lemma RecordKeepsInvariants(videos: map<nat, Video>, logs: seq<LogEntry>, n: nat, id: nat, ip: string,
                              lat: Option<real>, lon: Option<real>, now: Time)
    ensures var (_, after, logs') := Record(videos, logs, id, ip, lat, lon, now);
      && (VideosValid(videos, n) ==> VideosValid(after, n))
      && (LogsValid(logs, videos) ==> LogsValid(logs', after))
      && (LedgerValid(videos, logs) ==> LedgerValid(after, logs'))
  {
    var (report, after, logs') := Record(videos, logs, id, ip, lat, lon, now);
    if id in videos {
      assert after.Keys == videos.Keys;
    }
    if LedgerValid(videos, logs) {
      RecordKeepsLedger(videos, logs, id, ip, lat, lon, now);
    }
  }

  /** The recorder and the model helper `Video.consumir_credito` are two
      versions of one transition: on a playable video both spend the credit
      and leave the same record. On a video without credits the helper
      refuses and changes nothing, while the recorder also pauses it. */
  lemma PlayedAgreesWithConsumeCredit(v: Video)
    ensures Playable(v) ==> ConsumeCredit(v) == (true, Played(v))
    ensures v.aprovado && v.creditos <= 0 ==>
      ConsumeCredit(v) == (false, v) && PlayVideo(v).1 == v.(pausado := true)
  {
  }

  /** Payment plays no part in the gate: flipping `pago` never changes what
      the recorder does. */
  lemma PaymentIgnored(v: Video, pago: bool)
    ensures PlaybackCheck(v.(pago := pago)) == PlaybackCheck(v)
    ensures Playable(v.(pago := pago)) == Playable(v)
    ensures PlayVideo(v.(pago := pago)).1 == PlayVideo(v).1.(pago := pago)
  {
  }

  /** `k` playback reports for one video, one after another: how many were
      granted, and the video afterwards. */
  function PlayRun(v: Video, k: nat): (nat, Video)
    decreases k
  {
    if k == 0 then (0, v)
    else
      var (refusal, w) := PlayVideo(v);
      var (granted, u) := PlayRun(w, k - 1);
      (if refusal.None? then granted + 1 else granted, u)
  }

  /** Once an approved video has no credits, every further report is refused
      and only the pause flag moves (to true). */
  lemma {:induction false} ExhaustedRun(v: Video, k: nat)
    requires v.aprovado && v.creditos <= 0
    ensures PlayRun(v, k).0 == 0
    ensures PlayRun(v, k).1 == if k == 0 then v else v.(pausado := true)
    decreases k
  {
    if k > 0 {
      var w := v.(pausado := true);
      ExhaustedRun(w, k - 1);
      assert w.(pausado := true) == w;
    }
  }

  /** Serialized playbacks of an approved, unpaused video with `c >= 0`
      credits: of `k` reports exactly min(k, c) are granted, the views grow
      by that number, the balance never goes negative, and the video ends
      paused as soon as a report finds it drained. With c = N, the N-th report
      succeeds and leaves 0 credits and the pause set; report N + 1 is refused. */
  lemma {:induction false} PlayRunSpec(v: Video, k: nat)
    requires v.aprovado && !v.pausado && v.creditos >= 0
    ensures var spent := if k <= v.creditos then k else v.creditos;
      var (granted, u) := PlayRun(v, k);
      && granted == spent
      && u.creditos == v.creditos - spent >= 0
      && u.visualizacoes == v.visualizacoes + spent
      && (k >= v.creditos && k > 0 ==> u.pausado)
    decreases k
  {
    if k > 0 {
      var w := PlayVideo(v).1;
      if v.creditos == 0 {
        ExhaustedRun(w, k - 1);
        assert w.(pausado := true) == w;
      } else if v.creditos == 1 {
        ExhaustedRun(w, k - 1);
        assert w.(pausado := true) == w;
      } else {
        PlayRunSpec(w, k - 1);
      }
    }
  }

  /** The recorder as written: the log row is built with keyword arguments
      `ip_address`, `latitude`, `longitude`, which are not columns of
      LogVisualizacao (its columns are `client_ip`, `client_latitude`,
      `client_longitude`). The model's constructor raises TypeError naming
      the first unknown keyword, the `except` rolls back, and the report is
      a failure without a video. Every other path is as intended. */
  const LogKeywordError: string := "'ip_address' is an " + "invalid keyword " + "argument for LogVisualizacao"

  function RecordAsWritten(videos: map<nat, Video>, logs: seq<LogEntry>, id: nat, ip: string,
                           lat: Option<real>, lon: Option<real>, now: Time): (Report, map<nat, Video>, seq<LogEntry>)
  {
    if id in videos && PlaybackCheck(videos[id]) == None then
      (Report(false, RecordErrorPrefix + LogKeywordError, None), videos, logs)
    else Record(videos, logs, id, ip, lat, lon, now)
  }

  /** As written, no playback ever succeeds: exactly where the intended
      recorder grants one, the code reports an error, spends nothing and logs
      nothing; everywhere else the two agree. */
  lemma LogKeywordsBreakPlayback(videos: map<nat, Video>, logs: seq<LogEntry>, id: nat, ip: string,
                                 lat: Option<real>, lon: Option<real>, now: Time)
    ensures !RecordAsWritten(videos, logs, id, ip, lat, lon, now).0.success
    ensures Record(videos, logs, id, ip, lat, lon, now).0.success ==>
      RecordAsWritten(videos, logs, id, ip, lat, lon, now) ==
        (Report(false, RecordErrorPrefix + LogKeywordError, None), videos, logs)
    ensures !Record(videos, logs, id, ip, lat, lon, now).0.success ==>
      RecordAsWritten(videos, logs, id, ip, lat, lon, now) == Record(videos, logs, id, ip, lat, lon, now)
  {
  }

  /** `registrar_visualizacao` on the store, as intended: the check-then-act
      on the fetched video, the log append and the in-place field updates. */
  method RegistrarVisualizacao(db: Database, id: nat, ip: string, lat: Option<real>, lon: Option<real>, now: Time)
    returns (report: Report)
    requires db.Valid()
    modifies db`videos, db`logs
    ensures db.Valid()
    ensures LedgerValid(old(db.videos), old(db.logs)) ==> LedgerValid(db.videos, db.logs)
    ensures (report, db.videos, db.logs) == Record(old(db.videos), old(db.logs), id, ip, lat, lon, now)
  {
    RecordKeepsInvariants(db.videos, db.logs, db.nextVideoId, id, ip, lat, lon, now);
    if id !in db.videos {
      return Report(false, RecordErrorPrefix + NotFoundText, None);
    }
    var video := db.videos[id];
    if !video.aprovado {
      assert db.videos[id := video] == db.videos;
      return Report(false, "Vídeo não aprovado", Some(video));
    }
    if video.creditos <= 0 {
      video := video.(pausado := true);
      db.videos := db.videos[id := video];
      return Report(false, "Vídeo sem créditos", Some(video));
    }
    if video.pausado {
      assert db.videos[id := video] == db.videos;
      return Report(false, "Vídeo pausado", Some(video));
    }
    db.logs := db.logs + [LogEntry(id, ip, lat, lon, now)];
    video := video.(creditos := video.creditos - 1);
    video := video.(visualizacoes := video.visualizacoes + 1);
    if video.creditos <= 0 {
      video := video.(pausado := true);
    }
    db.videos := db.videos[id := video];
    report := Report(true, "Visualização registrada", Some(video));
  }

  // ----------------------------------------------------------------------
  // upload_video

  datatype UploadError = NoFile | BadExtension | BadLatitude | BadLongitude | BadRadius

  const AllowedExtensions: set<string> := {".mp4", ".avi", ".mov", ".mkv"}

  function UploadErrorMessage(e: UploadError): string
  {
    match e
    case NoFile => "Nenhum arquivo selecionado"
    case BadExtension => "Tipo de arquivo não permitido. Use: .mp4, .avi, .mov, .mkv"
    case BadLatitude => "Latitude inválida (-90 a 90)"
    case BadLongitude => "Longitude inválida (-180 a 180)"
    case BadRadius => "Raio deve ser maior que zero"
  }

  /** `os.path.splitext(p)[1]` on POSIX: from the last dot to the end, when
      that dot lies in the last path component and something other than a
      dot precedes it there; otherwise empty. */
  function Extension(p: string): (ext: string)
    ensures ext == [] || (ext[0] == '.' && |ext| <= |p| && ext == p[|p| - |ext|..])
    ensures forall i :: 0 < i < |ext| ==> ext[i] != '.' && ext[i] != '/'
  {
    var sep := LastIndexOf(p, '/');
    var dot := LastIndexOf(p, '.');
    if dot > sep && exists k :: sep < k < dot && p[k] != '.' then p[dot..] else ""
  }

  /** `dot` starts the extension of `p`: it is a dot, no dot or slash follows
      it, and some character other than a dot precedes it in the same path
      component. */
  ghost predicate IsExtensionDot(p: string, dot: int)
  {
    && 0 <= dot < |p| && p[dot] == '.'
    && (forall j :: dot < j < |p| ==> p[j] != '.' && p[j] != '/')
    && exists k :: 0 <= k < dot && p[k] != '.' && forall j :: k <= j < dot ==> p[j] != '/'
  }

  /** The extension is non-empty exactly when some position starts one, and
      then it is the rest of the name from that dot. */
  lemma ExtensionSpec(p: string)
    ensures Extension(p) != [] <==> exists dot :: IsExtensionDot(p, dot)
    ensures forall dot :: IsExtensionDot(p, dot) ==> Extension(p) == p[dot..]
  {
    var sep := LastIndexOf(p, '/');
    var d := LastIndexOf(p, '.');
    forall dot | IsExtensionDot(p, dot)
      ensures Extension(p) == p[dot..]
    {
      ExtensionDotIsLast(p, dot);
    }
    if Extension(p) != [] {
      var k :| sep < k < d && p[k] != '.';
      assert forall j :: k <= j < d ==> p[j] != '/';
      assert IsExtensionDot(p, d);
    }
  }

  /** A position that starts the extension is the last dot, after the last
      slash, with a non-dot character between them. */
  lemma ExtensionDotIsLast(p: string, dot: int)
    requires IsExtensionDot(p, dot)
    ensures dot == LastIndexOf(p, '.') && dot > LastIndexOf(p, '/')
    ensures Extension(p) == p[dot..]
  {
    var sep := LastIndexOf(p, '/');
    var d := LastIndexOf(p, '.');
    var k :| 0 <= k < dot && p[k] != '.' && forall j :: k <= j < dot ==> p[j] != '/';
    assert d == dot;
    assert sep < k;
  }

  /** The upload checks, in order: a file with a name, an allowed extension
      (compared lower-cased), latitude, longitude, radius. */
  function UploadCheck(filename: Option<string>, latitude: real, longitude: real, radiusKm: real): Option<UploadError>
  {
    if filename.None? || filename.value == "" then Some(NoFile)
    else if Lower(Extension(filename.value)) !in AllowedExtensions then Some(BadExtension)
    else if !(-90.0 <= latitude <= 90.0) then Some(BadLatitude)
    else if !(-180.0 <= longitude <= 180.0) then Some(BadLongitude)
    else if radiusKm <= 0.0 then Some(BadRadius)
    else None
  }

  /** The record an accepted upload creates: owner-less (admin) videos start
      approved, paid and with 1000 credits; a client's video starts
      unapproved and unpaid, with 0 credits unless the client id is 0, which
      Python reads as false. Pause and views take the column defaults. */
  function InitialVideo(id: nat, storedName: string, originalName: string, latitude: real, longitude: real,
                        radiusKm: real, now: Time, clienteId: Option<nat>): Video
  {
    var admin := clienteId.None?;
    Video(id, storedName, originalName, latitude, longitude, radiusKm, now, clienteId,
          admin, admin, if clienteId.Some? && clienteId.value != 0 then 0 else 1000, false, 0)
  }

  /** An upload is accepted exactly when the file has a name whose extension is
      one of the four, the centre is on the globe and the radius positive. The
      checks run in that order: each refusal implies that every earlier check
      passed. */
  lemma UploadCheckSpec(filename: Option<string>, latitude: real, longitude: real, radiusKm: real)
    ensures UploadCheck(filename, latitude, longitude, radiusKm) == None <==>
      && filename.Some? && filename.value != ""
      && Lower(Extension(filename.value)) in AllowedExtensions
      && -90.0 <= latitude <= 90.0 && -180.0 <= longitude <= 180.0 && radiusKm > 0.0
    ensures filename.None? || filename.value == "" ==>
      UploadCheck(filename, latitude, longitude, radiusKm) == Some(NoFile)
    ensures UploadCheck(filename, latitude, longitude, radiusKm) == Some(BadExtension) ==>
      filename.Some? && filename.value != ""
    ensures UploadCheck(filename, latitude, longitude, radiusKm) == Some(BadLatitude) ==>
      && filename.Some? && filename.value != ""
      && Lower(Extension(filename.value)) in AllowedExtensions
    ensures UploadCheck(filename, latitude, longitude, radiusKm) == Some(BadLongitude) ==>
      && filename.Some? && filename.value != ""
      && Lower(Extension(filename.value)) in AllowedExtensions
      && -90.0 <= latitude <= 90.0
    ensures UploadCheck(filename, latitude, longitude, radiusKm) == Some(BadRadius) ==>
      && filename.Some? && filename.value != ""
      && Lower(Extension(filename.value)) in AllowedExtensions
      && -90.0 <= latitude <= 90.0 && -180.0 <= longitude <= 180.0
  {
  }

  /** A Kelvin sign in the extension lowers to "k", so "clip.M\U{212A}V" is an
      accepted ".mkv" upload. */
  lemma KelvinSignExtension()
    ensures Lower(Extension("clip.M\U{212A}V")) == ".mkv"
    ensures UploadCheck(Some("clip.M\U{212A}V"), 0.0, 0.0, 1.0) == None
  {
    ExtensionFromLastDot("clip.M\U{212A}V", 4);
    assert Extension("clip.M\U{212A}V") == ".M\U{212A}V";
  }

  /** In a name without slashes whose last dot is preceded by something,
      the extension runs from that dot. */
  lemma ExtensionFromLastDot(p: string, dot: nat)
    requires 0 < dot < |p| && p[dot] == '.' && p[0] != '.'
    requires forall j :: 0 <= j < |p| ==> p[j] != '/'
    requires forall j :: dot < j < |p| ==> p[j] != '.'
    ensures Extension(p) == p[dot..]
  {
    assert LastIndexOf(p, '/') == -1;
    assert LastIndexOf(p, '.') == dot;
  }

  /** Extensions are compared case-insensitively and only the last one
      counts; a name that is only a dot-prefixed extension has none. */
  lemma ExtensionExamples()
    ensures Lower(Extension("clip.MP4")) == ".mp4"
    ensures Extension("a.mp4.txt") == ".txt"
    ensures Extension(".mp4") == ""
  {
    ExtensionFromLastDot("clip.MP4", 4);
    assert "clip.MP4"[4..] == ".MP4";
    ExtensionFromLastDot("a.mp4.txt", 5);
    assert "a.mp4.txt"[5..] == ".txt";
    var d := ".mp4";
    assert d[0] == '.';
    assert forall j :: 0 <= j < |d| ==> d[j] != '/';
    assert LastIndexOf(d, '.') == 0;
  }

  /** Initial state by owner: an admin video is immediately playable; a
      client's video is neither playable nor listed until approved and, once
      approved, its first report is refused for lack of credits (and pauses
      it); an id of 0 would still get the 1000 credits. */
  lemma InitialVideoSpec(id: nat, storedName: string, originalName: string, latitude: real, longitude: real,
                         radiusKm: real, now: Time, clienteId: Option<nat>)
    ensures var v := InitialVideo(id, storedName, originalName, latitude, longitude, radiusKm, now, clienteId);
      && v.id == id && v.clienteId == clienteId && !v.pausado && v.visualizacoes == 0
      && (clienteId.None? ==> v.aprovado && v.pago && v.creditos == 1000 && Playable(v))
      && (clienteId.Some? ==> !v.aprovado && !v.pago && PlaybackCheck(v) == Some(NotApproved))
      && (clienteId.Some? && clienteId.value != 0 ==>
            v.creditos == 0 && PlayVideo(Apply(Approve, v)) == (Some(NoCredits), v.(aprovado := true, pausado := true)))
      && (clienteId == Some(0) ==> v.creditos == 1000)
  {
  }

  /** An accepted upload keeps the store's invariants: the new video takes
      the next free id, no log entry can refer to it yet, and it starts with a
      non-negative balance and no views. */
  lemma UploadKeepsInvariants(videos: map<nat, Video>, logs: seq<LogEntry>, n: nat, v: Video)
    requires v.id == n && v.creditos >= 0 && v.visualizacoes == 0
    ensures VideosValid(videos, n) ==> n !in videos && VideosValid(videos[n := v], n + 1)
    ensures LogsValid(logs, videos) ==> LogsValid(logs, videos[n := v])
    ensures VideosValid(videos, n) && LogsValid(logs, videos) && LedgerValid(videos, logs) ==>
      LedgerValid(videos[n := v], logs)
  {
    if VideosValid(videos, n) && LogsValid(logs, videos) {
      FilterNone(ForVideo(n), logs);
    }
  }

  /** `upload_video`: validate, then add the new row under the next id. The
      stored name (timestamp plus sanitized name) and saving the file belong
      to the caller. */
  method UploadVideo(db: Database, filename: Option<string>, latitude: real, longitude: real, radiusKm: real,
                     clienteId: Option<nat>, storedName: string, now: Time)
    returns (video: Option<Video>, error: Option<string>)
    requires db.Valid()
    modifies db`videos, db`nextVideoId
    ensures db.Valid()
    ensures LedgerValid(old(db.videos), db.logs) ==> LedgerValid(db.videos, db.logs)
    ensures UploadCheck(filename, latitude, longitude, radiusKm).Some? ==>
      && video == None
      && error == Some(UploadErrorMessage(UploadCheck(filename, latitude, longitude, radiusKm).value))
      && db.videos == old(db.videos) && db.nextVideoId == old(db.nextVideoId)
    ensures UploadCheck(filename, latitude, longitude, radiusKm).None? ==>
      && video == Some(InitialVideo(old(db.nextVideoId), storedName, filename.value, latitude, longitude,
                                    radiusKm, now, clienteId))
      && error == None
      && db.videos == old(db.videos)[old(db.nextVideoId) := video.value]
      && db.nextVideoId == old(db.nextVideoId) + 1
  {
    var check := UploadCheck(filename, latitude, longitude, radiusKm);
    if check.Some? {
      return None, Some(UploadErrorMessage(check.value));
    }
    var v := InitialVideo(db.nextVideoId, storedName, filename.value, latitude, longitude, radiusKm, now, clienteId);
    UploadKeepsInvariants(db.videos, db.logs, db.nextVideoId, v);
    db.videos := db.videos[db.nextVideoId := v];
    db.nextVideoId := db.nextVideoId + 1;
    video, error := Some(v), None;
  }

  // ----------------------------------------------------------------------
  // deletar_video

  /** The answer, videos table and view log after deleting video `id`; the
      log loses the video's entries by the cascade. */
  function Delete(videos: map<nat, Video>, logs: seq<LogEntry>, id: nat): (Outcome, map<nat, Video>, seq<LogEntry>)
  {
    if id !in videos then (Outcome(false, "Erro ao deletar vídeo: " + NotFoundText), videos, logs)
    else (Outcome(true, "Vídeo deletado com sucesso"), videos - {id}, LogsWithout(logs, id))
  }

  /** Deletion succeeds exactly for an existing video; it removes that video
      and every log entry of it, keeps every other video and every other
      entry in order, and keeps the store's invariants. */
  lemma DeleteSpec(videos: map<nat, Video>, logs: seq<LogEntry>, n: nat, id: nat)
    ensures var (out, after, logs') := Delete(videos, logs, id);
      && (out.success <==> id in videos)
      && (!out.success ==> after == videos && logs' == logs)
      && id !in after && after.Keys == videos.Keys - {id}
      && (forall k :: k in after ==> after[k] == videos[k])
      && (out.success ==> forall l :: l in logs' <==> l in logs && l.videoId != id)
      && IsSubsequence(logs', logs)
      && (VideosValid(videos, n) ==> VideosValid(after, n))
      && (LogsValid(logs, videos) ==> LogsValid(logs', after))
      && (LedgerValid(videos, logs) ==> LedgerValid(after, logs'))
  {
    LogsWithoutSpec(logs, id);
    var (out, after, logs') := Delete(videos, logs, id);
    if !out.success {
      assert id !in after;
      assert logs' == logs;
      assert IsSubsequence(logs, logs) by { FilterKeepsAll((l: LogEntry) => true, logs); FilterIsSubsequence((l: LogEntry) => true, logs); }
    }
    if out.success && LogsValid(logs, videos) {
      forall i | 0 <= i < |logs'| ensures logs'[i].videoId in after {
        assert logs'[i] in logs';
      }
    }
    if out.success && LedgerValid(videos, logs) {
      forall k | k in after ensures after[k].visualizacoes == |Filter(ForVideo(k), logs')| {
        FilterFilter(OtherVideo(id), ForVideo(k), logs);
      }
    }
  }

  method DeletarVideo(db: Database, id: nat) returns (out: Outcome)
    requires db.Valid()
    modifies db`videos, db`logs
    ensures db.Valid()
    ensures LedgerValid(old(db.videos), old(db.logs)) ==> LedgerValid(db.videos, db.logs)
    ensures (out, db.videos, db.logs) == Delete(old(db.videos), old(db.logs), id)
  {
    DeleteSpec(db.videos, db.logs, db.nextVideoId, id);
    if id !in db.videos {
      return Outcome(false, "Erro ao deletar vídeo: " + NotFoundText);
    }
    db.logs := LogsWithout(db.logs, id);
    db.videos := db.videos - {id};
    out := Outcome(true, "Vídeo deletado com sucesso");
  }

  // ----------------------------------------------------------------------
  // Queries: get_all_videos, get_videos_pendentes, get_videos_nao_pagos

  function VideoId(v: Video): nat { v.id }

  /** `order_by(Video.id.desc())`: every video, newest id first. */
  function AllVideos(videos: map<nat, Video>, n: nat): seq<Video>
  {
    Reverse(Rows(videos, n))
  }

  function PendingVideos(videos: map<nat, Video>, n: nat): seq<Video>
  {
    Filter((v: Video) => !v.aprovado, AllVideos(videos, n))
  }

  function UnpaidVideos(videos: map<nat, Video>, n: nat): seq<Video>
  {
    Filter((v: Video) => !v.pago, AllVideos(videos, n))
  }

  /** On a valid table the listing holds every stored video exactly once, in
      strictly descending id order. */
  lemma AllVideosSpec(videos: map<nat, Video>, n: nat)
    requires VideosValid(videos, n)
    ensures forall v :: v in AllVideos(videos, n) <==> v.id in videos && videos[v.id] == v
    ensures forall i, j :: 0 <= i < j < |AllVideos(videos, n)| ==>
      AllVideos(videos, n)[i].id > AllVideos(videos, n)[j].id
  {
    forall v ensures v in AllVideos(videos, n) <==> v.id in videos && videos[v.id] == v {
      ReverseMember(Rows(videos, n), v);
      RowsMember(videos, n, v);
    }
    RowsAscending(videos, n, VideoId);
    ReverseDescending(Rows(videos, n), VideoId);
  }

  /** The pending and unpaid queries hold exactly the stored videos that are
      unapproved, respectively unpaid, newest id first. */
  lemma FilteredQueriesSpec(videos: map<nat, Video>, n: nat)
    requires VideosValid(videos, n)
    ensures forall v :: v in PendingVideos(videos, n) <==> v.id in videos && videos[v.id] == v && !v.aprovado
    ensures forall v :: v in UnpaidVideos(videos, n) <==> v.id in videos && videos[v.id] == v && !v.pago
    ensures forall i, j :: 0 <= i < j < |PendingVideos(videos, n)| ==>
      PendingVideos(videos, n)[i].id > PendingVideos(videos, n)[j].id
    ensures forall i, j :: 0 <= i < j < |UnpaidVideos(videos, n)| ==>
      UnpaidVideos(videos, n)[i].id > UnpaidVideos(videos, n)[j].id
  {
    AllVideosSpec(videos, n);
    var all := AllVideos(videos, n);
    var pending := (v: Video) => !v.aprovado;
    var unpaid := (v: Video) => !v.pago;
    forall v ensures v in PendingVideos(videos, n) <==> v in all && !v.aprovado {
      FilterMember(pending, all, v);
    }
    forall v ensures v in UnpaidVideos(videos, n) <==> v in all && !v.pago {
      FilterMember(unpaid, all, v);
    }
    var newer := (a: Video, b: Video) => a.id > b.id;
    FilterKeepsOrder(pending, all, newer);
    FilterKeepsOrder(unpaid, all, newer);
  }

  // ----------------------------------------------------------------------
  // get_videos_by_location

  /** Python's stable `sort(key=creditos, reverse=True)`, as an insertion
      sort: `x` goes before the first element with no more credits than it,
      so it stays ahead of the equal elements that followed it. */
  function InsertByCredits(x: Video, r: seq<Video>): (s: seq<Video>)
    ensures multiset(s) == multiset(r) + multiset{x}
  {
    if r == [] || r[0].creditos <= x.creditos then [x] + r
    else
      assert r == [r[0]] + r[1..];
      [r[0]] + InsertByCredits(x, r[1..])
  }

  function SortByCredits(s: seq<Video>): (r: seq<Video>)
    ensures multiset(r) == multiset(s)
  {
    if s == [] then []
    else
      assert s == [s[0]] + s[1..];
      InsertByCredits(s[0], SortByCredits(s[1..]))
  }

  predicate CreditsDescending(s: seq<Video>)
  {
    forall i, j :: 0 <= i < j < |s| ==> s[i].creditos >= s[j].creditos
  }

  /** The videos with exactly `c` credits. */
  function WithCredits(c: int): Video -> bool
  {
    (v: Video) => v.creditos == c
  }

  /** A video with at least as many credits as every element of a sorted list
      can head it. */
  lemma HeadAbove(y: Video, s: seq<Video>)
    requires CreditsDescending(s)
    requires forall k :: 0 <= k < |s| ==> s[k].creditos <= y.creditos
    ensures CreditsDescending([y] + s)
  {
    var l := [y] + s;
    forall i, j | 0 <= i < j < |l| ensures l[i].creditos >= l[j].creditos {
      assert l[j] == s[j - 1];
      if i > 0 {
        assert l[i] == s[i - 1];
      }
    }
  }

  /** Inserting a video with fewer credits than the head of a sorted list
      into its tail yields nothing above that head. */
  lemma BoundedByHead(x: Video, r: seq<Video>)
    requires r != [] && CreditsDescending(r) && r[0].creditos > x.creditos
    ensures forall k :: 0 <= k < |InsertByCredits(x, r[1..])| ==>
      InsertByCredits(x, r[1..])[k].creditos <= r[0].creditos
  {
    var t := r[1..];
    var rest := InsertByCredits(x, t);
    forall k | 0 <= k < |rest| ensures rest[k].creditos <= r[0].creditos {
      assert rest[k] in multiset(rest);
      if rest[k] != x {
        assert rest[k] in multiset(t);
        var m :| 0 <= m < |t| && t[m] == rest[k];
        assert t[m] == r[m + 1];
      }
    }
  }

  lemma {:induction false} InsertSorted(x: Video, r: seq<Video>)
    requires CreditsDescending(r)
    ensures CreditsDescending(InsertByCredits(x, r))
    decreases |r|
  {
    if r == [] || r[0].creditos <= x.creditos {
      forall k | 0 <= k < |r| ensures r[k].creditos <= x.creditos {
        assert r[0].creditos >= r[k].creditos;
      }
      HeadAbove(x, r);
    } else {
      var t := r[1..];
      DescendingTail(r);
      InsertSorted(x, t);
      BoundedByHead(x, r);
      HeadAbove(r[0], InsertByCredits(x, t));
      assert InsertByCredits(x, r) == [r[0]] + InsertByCredits(x, t);
    }
  }

  lemma {:induction false} SortSorted(s: seq<Video>)
    ensures CreditsDescending(SortByCredits(s))
    decreases |s|
  {
    if s != [] {
      SortSorted(s[1..]);
      InsertSorted(s[0], SortByCredits(s[1..]));
    }
  }

  /** Dropping the head of a sorted list leaves it sorted. */
  lemma DescendingTail(r: seq<Video>)
    requires r != [] && CreditsDescending(r)
    ensures CreditsDescending(r[1..])
  {
    var t := r[1..];
    forall i, j | 0 <= i < j < |t| ensures t[i].creditos >= t[j].creditos {
      assert t[i] == r[i + 1] && t[j] == r[j + 1];
    }
  }

  /** Two filtered singletons of which at most one is non-empty commute. */
  lemma SwapSingletons(fr: seq<Video>, fx: seq<Video>, rest: seq<Video>)
    requires fr == [] || fx == []
    ensures fr + (fx + rest) == fx + (fr + rest)
  {
    if fr == [] {
      assert fr + (fx + rest) == fx + rest == fx + (fr + rest);
    } else {
      assert fx + (fr + rest) == fr + rest == fr + (fx + rest);
    }
  }

  /** Inserting into a sorted list keeps, among the videos of any one credit
      value, the order they have in `[x] + r`. */
  lemma {:induction false} InsertStable(x: Video, r: seq<Video>, c: int)
    requires CreditsDescending(r)
    ensures Filter(WithCredits(c), InsertByCredits(x, r)) == Filter(WithCredits(c), [x] + r)
    decreases |r|
  {
    var keep := WithCredits(c);
    if r != [] && r[0].creditos > x.creditos {
      var t := r[1..];
      DescendingTail(r);
      InsertStable(x, t, c);
      var fx := if keep(x) then [x] else [];
      var fr := if keep(r[0]) then [r[0]] else [];
      var rest := Filter(keep, t);
      assert InsertByCredits(x, r) == [r[0]] + InsertByCredits(x, t);
      FilterCons(keep, r[0], InsertByCredits(x, t));
      FilterCons(keep, x, t);
      assert r == [r[0]] + t;
      FilterCons(keep, x, r);
      FilterCons(keep, r[0], t);
      // x has fewer credits than r[0], so at most one of them has `c`.
      SwapSingletons(fr, fx, rest);
    }
  }

  /** The sort is stable: among videos with equal credits it keeps the input
      order. */
  lemma {:induction false} SortStable(s: seq<Video>, c: int)
    ensures Filter(WithCredits(c), SortByCredits(s)) == Filter(WithCredits(c), s)
    decreases |s|
  {
    if s != [] {
      var keep := WithCredits(c);
      SortStable(s[1..], c);
      SortSorted(s[1..]);
      InsertStable(s[0], SortByCredits(s[1..]), c);
      FilterCons(keep, s[0], SortByCredits(s[1..]));
      FilterCons(keep, s[0], s[1..]);
      assert s == [s[0]] + s[1..];
    }
  }

  /** `get_videos_by_location`: the playable rows in table order, those whose
      circle covers the point, sorted by credits, most first. */
  function VideosByLocation(videos: map<nat, Video>, n: nat, dist: Distance, client: Point): seq<Video>
  {
    SortByCredits(NearbyVideos(dist, client, Filter(Playable, Rows(videos, n))))
  }

  /** The listing holds exactly the stored videos that are approved, unpaused,
      with credits, and cover the point (payment is not required); it is a
      permutation of the gated, covering rows in table order, sorted by
      credits non-increasingly, and stable on ties. It is empty exactly when
      no stored video qualifies. */
  lemma ListingSpec(videos: map<nat, Video>, n: nat, dist: Distance, client: Point)
    ensures var gated := NearbyVideos(dist, client, Filter(Playable, Rows(videos, n)));
      var listing := VideosByLocation(videos, n, dist, client);
      && CreditsDescending(listing)
      && multiset(listing) == multiset(gated)
      && (forall c :: Filter(WithCredits(c), listing) == Filter(WithCredits(c), gated))
      && (forall v :: v in listing <==>
            && (exists id :: id in videos && id < n && videos[id] == v)
            && Playable(v) && IsWithinRadius(dist, client, Center(v), v.radiusKm))
  {
    var rows := Rows(videos, n);
    var playable := Filter(Playable, rows);
    var gated := NearbyVideos(dist, client, playable);
    var listing := VideosByLocation(videos, n, dist, client);
    SortSorted(gated);
    forall c ensures Filter(WithCredits(c), listing) == Filter(WithCredits(c), gated) {
      SortStable(gated, c);
    }
    forall v ensures v in listing <==>
      && (exists id :: id in videos && id < n && videos[id] == v)
      && Playable(v) && IsWithinRadius(dist, client, Center(v), v.radiusKm)
    {
      assert v in listing <==> v in multiset(listing);
      assert v in gated <==> v in multiset(gated);
      NearbyVideosSpec(dist, client, playable);
      FilterMember(Playable, rows, v);
      RowsMember(videos, n, v);
    }
  }

  /** An unapproved video is never listed, whatever its position, and the
      recorder refuses it as not approved even from inside its circle. */
  lemma UnapprovedNeverPlays(videos: map<nat, Video>, n: nat, dist: Distance, client: Point, v: Video)
    requires !v.aprovado
    ensures v !in VideosByLocation(videos, n, dist, client)
    ensures PlaybackCheck(v) == Some(NotApproved)
  {
    ListingSpec(videos, n, dist, client);
  }
}
