/** server/services/cliente_service.py: client registration with its
    uniqueness checks, login, and the owner-scoped views of a client's
    videos: the listing, one video's statistics and the dashboard totals. */
module ClienteService {
  import opened Seqs
  import opened Models
  import opened VideoService

  // ----------------------------------------------------------------------
  // registrar_cliente

  predicate EmailTaken(clientes: map<nat, Cliente>, email: string)
  {
    exists id :: id in clientes && clientes[id].email == email
  }

  predicate CpfCnpjTaken(clientes: map<nat, Cliente>, cpfCnpj: string)
  {
    exists id :: id in clientes && clientes[id].cpfCnpj == cpfCnpj
  }

  /** The registration refusal, if any: the email is checked before the
      CPF/CNPJ. */
  function RegistrationCheck(clientes: map<nat, Cliente>, email: string, cpfCnpj: string): Option<string>
  {
    if EmailTaken(clientes, email) then Some("Email já cadastrado")
    else if CpfCnpjTaken(clientes, cpfCnpj) then Some("CPF/CNPJ já cadastrado")
    else None
  }

  /** Registration is refused exactly when the email or the CPF/CNPJ is
      already on file; a taken email is reported even when the CPF/CNPJ is
      taken too, and the CPF/CNPJ message only when the email is free. */
  lemma RegistrationCheckSpec(clientes: map<nat, Cliente>, email: string, cpfCnpj: string)
    ensures RegistrationCheck(clientes, email, cpfCnpj) == None <==>
      forall id :: id in clientes ==> clientes[id].email != email && clientes[id].cpfCnpj != cpfCnpj
    ensures EmailTaken(clientes, email) ==> RegistrationCheck(clientes, email, cpfCnpj) == Some("Email já cadastrado")
    ensures RegistrationCheck(clientes, email, cpfCnpj) == Some("CPF/CNPJ já cadastrado") <==>
      !EmailTaken(clientes, email) && CpfCnpjTaken(clientes, cpfCnpj)
  {
  }

  /** A registration that passes the checks adds exactly one record, under a
      fresh id, and keeps emails and CPF/CNPJs unique. */
  lemma RegistrationKeepsInvariants(clientes: map<nat, Cliente>, n: nat, c: Cliente)
    requires ClientesValid(clientes, n)
    requires c.id == n && RegistrationCheck(clientes, c.email, c.cpfCnpj) == None
    ensures n !in clientes && clientes[n := c].Keys == clientes.Keys + {n}
    ensures ClientesValid(clientes[n := c], n + 1)
  {
    var after := clientes[n := c];
    forall a, b | a in after && b in after && a != b
      ensures after[a].email != after[b].email && after[a].cpfCnpj != after[b].cpfCnpj
    {
      if a == n {
        assert after[b] == clientes[b];
      } else if b == n {
        assert after[a] == clientes[a];
      }
    }
  }

  /** `registrar_cliente`: check, then add the client with the password
      stored as its hash. Hashing belongs to the caller-supplied `hash`. */
  method RegistrarCliente(db: Database, nome: string, email: string, senha: string, cpfCnpj: string,
                          telefone: string, endereco: string, hash: string -> string, now: Time)
    returns (cliente: Option<Cliente>, error: Option<string>)
    requires db.Valid()
    modifies db`clientes, db`nextClienteId
    ensures db.Valid()
    ensures RegistrationCheck(old(db.clientes), email, cpfCnpj).Some? ==>
      && cliente == None && error == RegistrationCheck(old(db.clientes), email, cpfCnpj)
      && db.clientes == old(db.clientes) && db.nextClienteId == old(db.nextClienteId)
    ensures RegistrationCheck(old(db.clientes), email, cpfCnpj).None? ==>
      && cliente == Some(Cliente(old(db.nextClienteId), nome, email, telefone, cpfCnpj, hash(senha), endereco, now))
      && error == None
      && db.clientes == old(db.clientes)[old(db.nextClienteId) := cliente.value]
      && db.nextClienteId == old(db.nextClienteId) + 1
  {
    if EmailTaken(db.clientes, email) {
      return None, Some("Email já cadastrado");
    }
    if CpfCnpjTaken(db.clientes, cpfCnpj) {
      return None, Some("CPF/CNPJ já cadastrado");
    }
    var c := Cliente(db.nextClienteId, nome, email, telefone, cpfCnpj, hash(senha), endereco, now);
    RegistrationKeepsInvariants(db.clientes, db.nextClienteId, c);
    db.clientes := db.clientes[db.nextClienteId := c];
    db.nextClienteId := db.nextClienteId + 1;
    cliente, error := Some(c), None;
  }

  // ----------------------------------------------------------------------
  // autenticar_cliente

  function HasEmail(email: string): Cliente -> bool
  {
    (c: Cliente) => c.email == email
  }

  /** `autenticar_cliente`: the first client with this email, if the password
      check (`check_password(senha)` against the stored hash) accepts. */
  function Autenticar(clientes: map<nat, Cliente>, n: nat, email: string, senha: string,
                      checkPassword: (string, string) -> bool): Option<Cliente>
  {
    var found := Filter(HasEmail(email), Rows(clientes, n));
    if found != [] && checkPassword(senha, found[0].senha) then Some(found[0]) else None
  }

  /** With emails unique, login returns a client exactly when that client is
      on file with this email and the password check accepts; otherwise None. */
  lemma AutenticarSpec(clientes: map<nat, Cliente>, n: nat, email: string, senha: string,
                       checkPassword: (string, string) -> bool, c: Cliente)
    requires ClientesValid(clientes, n)
    ensures Autenticar(clientes, n, email, senha, checkPassword) == Some(c) <==>
      c.id in clientes && clientes[c.id] == c && c.email == email && checkPassword(senha, c.senha)
  {
    var rows := Rows(clientes, n);
    var found := Filter(HasEmail(email), rows);
    FilterMember(HasEmail(email), rows, c);
    RowsMember(clientes, n, c);
    if found != [] {
      FilterMember(HasEmail(email), rows, found[0]);
      RowsMember(clientes, n, found[0]);
    }
    if c.id in clientes && clientes[c.id] == c && c.email == email {
      assert c in found;
      assert found[0].email == email;
    }
  }

  // ----------------------------------------------------------------------
  // get_videos_cliente, get_estatisticas_video, get_dashboard_stats

  function OwnedBy(clienteId: nat): Video -> bool
  {
    (v: Video) => v.clienteId == Some(clienteId)
  }

  /** `get_videos_cliente`: the client's videos, newest id first. */
  function VideosCliente(videos: map<nat, Video>, n: nat, clienteId: nat): seq<Video>
  {
    Filter(OwnedBy(clienteId), AllVideos(videos, n))
  }

  /** The listing holds exactly the stored videos owned by the client, in
      strictly descending id order. */
  lemma VideosClienteSpec(videos: map<nat, Video>, n: nat, clienteId: nat)
    requires VideosValid(videos, n)
    ensures forall v :: v in VideosCliente(videos, n, clienteId) <==>
      v.id in videos && videos[v.id] == v && v.clienteId == Some(clienteId)
    ensures forall i, j :: 0 <= i < j < |VideosCliente(videos, n, clienteId)| ==>
      VideosCliente(videos, n, clienteId)[i].id > VideosCliente(videos, n, clienteId)[j].id
  {
    AllVideosSpec(videos, n);
    forall v ensures v in VideosCliente(videos, n, clienteId) <==>
      v in AllVideos(videos, n) && v.clienteId == Some(clienteId)
    {
      FilterMember(OwnedBy(clienteId), AllVideos(videos, n), v);
    }
    FilterKeepsOrder(OwnedBy(clienteId), AllVideos(videos, n), (a: Video, b: Video) => a.id > b.id);
  }

  /** The status shown to the client. */
  function VideoStatus(v: Video): string
  {
    if !v.pausado && v.creditos > 0 then "Ativo" else "Pausado"
  }

  /** "Ativo" exactly when unpaused with credits left. Every playable video is
      "Ativo", but so is an unapproved one with credits, which the recorder
      refuses. */
  lemma VideoStatusSpec(v: Video)
    ensures VideoStatus(v) == "Ativo" <==> !v.pausado && v.creditos > 0
    ensures VideoStatus(v) != "Ativo" ==> VideoStatus(v) == "Pausado"
    ensures Playable(v) ==> VideoStatus(v) == "Ativo"
    ensures !v.aprovado && !v.pausado && v.creditos > 0 ==>
      VideoStatus(v) == "Ativo" && PlaybackCheck(v) == Some(NotApproved)
  {
  }

  datatype VideoStats = VideoStats(
    video: Video,
    visualizacoes: seq<LogEntry>,   // latest views first, at most 100
    totalVisualizacoes: int,
    creditosRestantes: int,
    status: string)

  /** The latest (at most) 100 log entries of video `id`, newest first, taking
      log order as time order. */
  function RecentViews(logs: seq<LogEntry>, id: nat): seq<LogEntry>
  {
    Take(Reverse(Filter(ForVideo(id), logs)), 100)
  }

  /** `get_estatisticas_video` as intended (ordered by the view time column):
      None unless the video exists and belongs to the caller. */
  function Estatisticas(videos: map<nat, Video>, logs: seq<LogEntry>, videoId: nat, clienteId: nat): Option<VideoStats>
  {
    if videoId in videos && videos[videoId].clienteId == Some(clienteId) then
      var v := videos[videoId];
      Some(VideoStats(v, RecentViews(logs, videoId), v.visualizacoes, v.creditos, VideoStatus(v)))
    else None
  }

  /** Log order is time order when each entry is no older than the one before. */
  predicate Chronological(logs: seq<LogEntry>)
  {
    forall i, j :: 0 <= i < j < |logs| ==> logs[i].visualizadoEm <= logs[j].visualizadoEm
  }

  /** Statistics exist exactly for the caller's own stored video. They report
      its counters and status, and at most 100 of its log entries: the newest
      ones, newest first (every one of them when it has at most 100), so with
      a chronological log their times never increase. */
  lemma EstatisticasSpec(videos: map<nat, Video>, logs: seq<LogEntry>, videoId: nat, clienteId: nat)
    ensures Estatisticas(videos, logs, videoId, clienteId).Some? <==>
      videoId in videos && videos[videoId].clienteId == Some(clienteId)
    ensures Estatisticas(videos, logs, videoId, clienteId).Some? ==>
      var st := Estatisticas(videos, logs, videoId, clienteId).value;
      var mine := Filter(ForVideo(videoId), logs);
      && st.video == videos[videoId]
      && st.totalVisualizacoes == st.video.visualizacoes && st.creditosRestantes == st.video.creditos
      && st.status == VideoStatus(st.video)
      && |st.visualizacoes| == (if |mine| < 100 then |mine| else 100)
      && (forall k :: 0 <= k < |st.visualizacoes| ==>
            st.visualizacoes[k] == mine[|mine| - 1 - k] && st.visualizacoes[k].videoId == videoId)
      && (Chronological(logs) ==>
            forall i, j :: 0 <= i < j < |st.visualizacoes| ==>
              st.visualizacoes[i].visualizadoEm >= st.visualizacoes[j].visualizadoEm)
  {
    if videoId in videos && videos[videoId].clienteId == Some(clienteId) {
      var mine := Filter(ForVideo(videoId), logs);
      var views := RecentViews(logs, videoId);
      FilterAllKeepAll(ForVideo(videoId), logs);
      forall k | 0 <= k < |views| ensures views[k] == mine[|mine| - 1 - k] {
        ReverseAt(mine, k);
      }
      if Chronological(logs) {
        FilterKeepsOrder(ForVideo(videoId), logs, (a: LogEntry, b: LogEntry) => a.visualizadoEm <= b.visualizadoEm);
      }
    }
  }

  /** The statistics as written: the query orders by
      `LogVisualizacao.timestamp`, which does not exist (the column is
      `visualizado_em`), so for the caller's own video the call raises
      AttributeError instead of answering; otherwise it returns None. */
  datatype Answer<T> = Returned(value: T) | Raised(error: string)

  const TimestampAttributeError: string := "type object 'LogVisualizacao' has no attribute 'timestamp'"

  function EstatisticasAsWritten(videos: map<nat, Video>, logs: seq<LogEntry>, videoId: nat, clienteId: nat)
    : Answer<Option<VideoStats>>
  {
    if videoId in videos && videos[videoId].clienteId == Some(clienteId) then Raised(TimestampAttributeError)
    else Returned(None)
  }

  /** As written, the statistics page fails exactly where the intended
      function has something to show, and agrees with it (None) elsewhere. */
  lemma StatsNeverShown(videos: map<nat, Video>, logs: seq<LogEntry>, videoId: nat, clienteId: nat)
    ensures EstatisticasAsWritten(videos, logs, videoId, clienteId).Raised? <==>
      Estatisticas(videos, logs, videoId, clienteId).Some?
    ensures EstatisticasAsWritten(videos, logs, videoId, clienteId).Returned? ==>
      EstatisticasAsWritten(videos, logs, videoId, clienteId) == Returned(Estatisticas(videos, logs, videoId, clienteId))
  {
  }

  datatype DashboardStats = DashboardStats(
    totalVideos: nat,
    videosAprovados: nat,
    videosPendentes: nat,
    totalVisualizacoes: int,
    creditosTotais: int,
    videos: seq<Video>)

  function CountApproved(s: seq<Video>): nat
  {
    if s == [] then 0 else CountApproved(s[..|s| - 1]) + (if s[|s| - 1].aprovado then 1 else 0)
  }

  function CountPending(s: seq<Video>): nat
  {
    if s == [] then 0 else CountPending(s[..|s| - 1]) + (if s[|s| - 1].aprovado then 0 else 1)
  }

  function SumViews(s: seq<Video>): int
  {
    if s == [] then 0 else SumViews(s[..|s| - 1]) + s[|s| - 1].visualizacoes
  }

  function SumCredits(s: seq<Video>): int
  {
    if s == [] then 0 else SumCredits(s[..|s| - 1]) + s[|s| - 1].creditos
  }

  /** `get_dashboard_stats`: counts and sums over the client's videos, in
      table order. */
  function Dashboard(videos: map<nat, Video>, n: nat, clienteId: nat): DashboardStats
  {
    var mine := Filter(OwnedBy(clienteId), Rows(videos, n));
    DashboardStats(|mine|, CountApproved(mine), CountPending(mine), SumViews(mine), SumCredits(mine), mine)
  }

  /** Every video is either approved or pending, so the two counts add up. */
  lemma {:induction false} CountsAddUp(s: seq<Video>)
    ensures CountApproved(s) + CountPending(s) == |s|
  {
    if s != [] {
      CountsAddUp(s[..|s| - 1]);
    }
  }

  /** Sums over videos that each have non-negative balance and views are
      non-negative. */
  lemma {:induction false} SumsNonNegative(s: seq<Video>)
    requires forall i :: 0 <= i < |s| ==> s[i].creditos >= 0 && s[i].visualizacoes >= 0
    ensures SumViews(s) >= 0 && SumCredits(s) >= 0
  {
    if s != [] {
      SumsNonNegative(s[..|s| - 1]);
    }
  }

  /** The dashboard covers exactly the client's stored videos; its total is
      approved plus pending; on a store whose ledger invariant holds its view
      and credit totals are non-negative. */
  lemma DashboardSpec(videos: map<nat, Video>, n: nat, clienteId: nat)
    requires VideosValid(videos, n)
    ensures var d := Dashboard(videos, n, clienteId);
      && d.totalVideos == d.videosAprovados + d.videosPendentes == |d.videos|
      && (forall v :: v in d.videos <==> v.id in videos && videos[v.id] == v && v.clienteId == Some(clienteId))
    ensures forall logs :: LedgerValid(videos, logs) ==>
      Dashboard(videos, n, clienteId).totalVisualizacoes >= 0 && Dashboard(videos, n, clienteId).creditosTotais >= 0
  {
    var rows := Rows(videos, n);
    var mine := Filter(OwnedBy(clienteId), rows);
    CountsAddUp(mine);
    forall v ensures v in mine <==> v.id in videos && videos[v.id] == v && v.clienteId == Some(clienteId) {
      FilterMember(OwnedBy(clienteId), rows, v);
      RowsMember(videos, n, v);
    }
    forall logs | LedgerValid(videos, logs)
      ensures SumViews(mine) >= 0 && SumCredits(mine) >= 0
    {
      forall i | 0 <= i < |mine| ensures mine[i].creditos >= 0 && mine[i].visualizacoes >= 0 {
        assert mine[i] in mine;
      }
      SumsNonNegative(mine);
    }
  }
}
