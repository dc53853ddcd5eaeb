/** The persistent entities of server/models.py: the video record with its
    approval, payment, pause and credit state, the append-only view log, the
    client record, the ORM row object with its two credit helpers, the store
    that owns every table, and the singleton freshness mark. */
module Models {
  import opened Seqs

  /** Wall-clock instants, abstracted to an ordered value supplied by the caller. */
  type Time = int

  /** One row of the `videos` table. */
  datatype Video = Video(
    id: nat,
    filename: string,           // stored, server-assigned name
    originalFilename: string,   // name the uploader gave
    latitude: real,
    longitude: real,
    radiusKm: real,
    uploadedAt: Time,
    clienteId: Option<nat>,     // None: house content uploaded by the admin
    aprovado: bool,
    pago: bool,
    creditos: int,
    pausado: bool,
    visualizacoes: int)

  /** One row of `logs_visualizacao`: who reported a playback, from where, when. */
  datatype LogEntry = LogEntry(
    videoId: nat,
    clientIp: string,
    clientLatitude: Option<real>,
    clientLongitude: Option<real>,
    visualizadoEm: Time)

  /** One row of `clientes`; `senha` holds the password hash, never the password. */
  datatype Cliente = Cliente(
    id: nat,
    nome: string,
    email: string,
    telefone: string,
    cpfCnpj: string,
    senha: string,
    endereco: string,
    createdAt: Time)

  /** `Video.consumir_credito`: spend one credit if any is left, counting the
      view and pausing the video when the last credit goes. Returns whether a
      credit was spent and the record afterwards. */
  function ConsumeCredit(v: Video): (bool, Video)
  {
    if v.creditos > 0 then
      var c := v.creditos - 1;
      (true, v.(creditos := c, visualizacoes := v.visualizacoes + 1,
                pausado := if c == 0 then true else v.pausado))
    else (false, v)
  }

  /** `Video.adicionar_creditos`: add `quantidade` (any sign) and lift the
      pause when the balance ends up positive. */
  function AddCreditsUnchecked(v: Video, quantidade: int): Video
  {
    var c := v.creditos + quantidade;
    v.(creditos := c, pausado := if c > 0 then false else v.pausado)
  }

  /** A consumption succeeds exactly when credits remain; it moves one unit
      from the credit balance to the view counter, pauses exactly when the
      balance reaches zero, and touches no other field. A refused consumption
      changes nothing. */
  lemma ConsumeCreditSpec(v: Video)
    ensures ConsumeCredit(v).0 <==> v.creditos > 0
    ensures var (ok, w) := ConsumeCredit(v);
      && w.creditos + w.visualizacoes == v.creditos + v.visualizacoes
      && (ok ==> w.creditos == v.creditos - 1 && w.visualizacoes == v.visualizacoes + 1)
      && (ok ==> (w.pausado <==> w.creditos == 0 || v.pausado))
      && (!ok ==> w == v)
      && w.(creditos := v.creditos, visualizacoes := v.visualizacoes, pausado := v.pausado) == v
  {
  }

  /** Repeated consumption never drives a non-negative balance below zero:
      after `n` attempts the balance is what was there minus what could be paid. */
  function ConsumeTimes(v: Video, n: nat): Video
    decreases n
  {
    if n == 0 then v else ConsumeTimes(ConsumeCredit(v).1, n - 1)
  }

  lemma {:induction false} ConsumeTimesSpec(v: Video, n: nat)
    requires v.creditos >= 0
    ensures var w := ConsumeTimes(v, n);
      var spent := if n <= v.creditos then n else v.creditos;
      && w.creditos == v.creditos - spent
      && w.visualizacoes == v.visualizacoes + spent
      && (v.creditos > 0 && n >= v.creditos ==> w.pausado)
    decreases n
  {
    if n > 0 {
      var u := ConsumeCredit(v).1;
      ConsumeTimesSpec(u, n - 1);
      if v.creditos > 0 && n >= v.creditos && u.creditos > 0 {
        assert ConsumeTimes(v, n) == ConsumeTimes(u, n - 1);
      }
      if v.creditos == 1 {
        assert u.pausado;
        ExhaustedStaysPaused(u, n - 1);
      }
    }
  }

  lemma {:induction false} ExhaustedStaysPaused(v: Video, n: nat)
    requires v.creditos == 0 && v.pausado
    ensures ConsumeTimes(v, n) == v
    decreases n
  {
    if n > 0 {
      ExhaustedStaysPaused(ConsumeCredit(v).1, n - 1);
    }
  }

  /** Adding credits changes only the balance and the pause flag; the pause is
      lifted exactly when the new balance is positive, and is otherwise kept. */
  lemma AddCreditsUncheckedSpec(v: Video, q: int)
    ensures var w := AddCreditsUnchecked(v, q);
      && w.creditos == v.creditos + q
      && (w.creditos > 0 ==> !w.pausado)
      && (w.creditos <= 0 ==> w.pausado == v.pausado)
      && w.(creditos := v.creditos, pausado := v.pausado) == v
  {
  }

  /** The ORM object for one video, as the request handlers mutate it. */
  class VideoRow {
    const id: nat
    const filename: string
    const originalFilename: string
    const latitude: real
    const longitude: real
    const radiusKm: real
    const uploadedAt: Time
    const clienteId: Option<nat>
    var aprovado: bool
    var pago: bool
    var creditos: int
    var pausado: bool
    var visualizacoes: int

    /** The row's current column values. */
    function Snapshot(): Video
      reads this
    {
      Video(id, filename, originalFilename, latitude, longitude, radiusKm, uploadedAt,
            clienteId, aprovado, pago, creditos, pausado, visualizacoes)
    }

    /** A new row takes the column defaults: not approved, not paid, not
        paused, no credits, no views. */
    constructor (id: nat, filename: string, originalFilename: string, latitude: real,
                 longitude: real, radiusKm: real, uploadedAt: Time, clienteId: Option<nat>)
      ensures Snapshot() == Video(id, filename, originalFilename, latitude, longitude, radiusKm,
                                  uploadedAt, clienteId, false, false, 0, false, 0)
    {
      this.id := id;
      this.filename := filename;
      this.originalFilename := originalFilename;
      this.latitude := latitude;
      this.longitude := longitude;
      this.radiusKm := radiusKm;
      this.uploadedAt := uploadedAt;
      this.clienteId := clienteId;
      aprovado, pago, creditos, pausado, visualizacoes := false, false, 0, false, 0;
    }

    method ConsumirCredito() returns (consumed: bool)
      modifies this
      ensures (consumed, Snapshot()) == ConsumeCredit(old(Snapshot()))
    {
      if creditos > 0 {
        creditos := creditos - 1;
        visualizacoes := visualizacoes + 1;
        if creditos == 0 {
          pausado := true;
        }
        return true;
      }
      return false;
    }

    method AdicionarCreditos(quantidade: int)
      modifies this
      ensures Snapshot() == AddCreditsUnchecked(old(Snapshot()), quantidade)
    {
      creditos := creditos + quantidade;
      if creditos > 0 {
        pausado := false;
      }
    }
  }

  /** Cascade delete-orphan: the view log once video `id` is gone. */
  function OtherVideo(id: nat): LogEntry -> bool
  {
    (l: LogEntry) => l.videoId != id
  }

  function LogsWithout(logs: seq<LogEntry>, id: nat): seq<LogEntry>
  {
    Filter(OtherVideo(id), logs)
  }

  /** Deleting a video removes every one of its log entries and keeps every
      entry of the other videos, in the original order. */
  lemma LogsWithoutSpec(logs: seq<LogEntry>, id: nat)
    ensures forall l :: l in LogsWithout(logs, id) <==> l in logs && l.videoId != id
    ensures IsSubsequence(LogsWithout(logs, id), logs)
  {
    forall l ensures l in LogsWithout(logs, id) <==> l in logs && l.videoId != id {
      FilterMember(OtherVideo(id), logs, l);
    }
    FilterIsSubsequence(OtherVideo(id), logs);
  }

  /** Every stored video sits under its own id, below the next id to hand
      out (the primary key and its autoincrement). */
  predicate VideosValid(videos: map<nat, Video>, nextId: nat)
  {
    forall id :: id in videos ==> videos[id].id == id && id < nextId
  }

  /** Every log entry refers to a stored video (the foreign key). */
  predicate LogsValid(logs: seq<LogEntry>, videos: map<nat, Video>)
  {
    forall i :: 0 <= i < |logs| ==> logs[i].videoId in videos
  }

  /** Every client sits under its own id, and no two clients share an email or
      a CPF/CNPJ (the unique columns). */
  predicate ClientesValid(clientes: map<nat, Cliente>, nextId: nat)
  {
    && (forall id :: id in clientes ==> clientes[id].id == id && id < nextId)
    && (forall a, b :: a in clientes && b in clientes && a != b ==>
          clientes[a].email != clientes[b].email && clientes[a].cpfCnpj != clientes[b].cpfCnpj)
  }

  /** The view log entries of video `id`. */
  function ForVideo(id: nat): LogEntry -> bool
  {
    (l: LogEntry) => l.videoId == id
  }

  /** The ledger's invariant: no balance or view counter is negative, and each
      video's view counter equals the number of its log entries. Nothing in
      the schema enforces it; every service operation keeps it. */
  predicate LedgerValid(videos: map<nat, Video>, logs: seq<LogEntry>)
  {
    forall id :: id in videos ==>
      && videos[id].creditos >= 0
      && videos[id].visualizacoes == |Filter(ForVideo(id), logs)|
  }

  /** The database: every table the core reads or writes. Failed operations
      leave it as it was (the session is rolled back). */
  class Database {
    var videos: map<nat, Video>
    var nextVideoId: nat
    var logs: seq<LogEntry>
    var clientes: map<nat, Cliente>
    var nextClienteId: nat
    /** The `system_status` singleton: None until the row is first created. */
    var lastUpdate: Option<Time>

    ghost predicate Valid()
      reads this
    {
      && VideosValid(videos, nextVideoId)
      && LogsValid(logs, videos)
      && ClientesValid(clientes, nextClienteId)
    }

    constructor ()
      ensures Valid()
      ensures videos == map[] && logs == [] && clientes == map[] && lastUpdate == None
      ensures nextVideoId == 1 && nextClienteId == 1
    {
      videos, logs, clientes, lastUpdate := map[], [], map[], None;
      nextVideoId, nextClienteId := 1, 1;
    }
  }

  /** `SystemStatus.get_last_update`: create the row (stamped `now`) if it is
      missing, otherwise read it without changing it. */
  method GetLastUpdate(db: Database, now: Time) returns (t: Time)
    modifies db`lastUpdate
    ensures old(db.lastUpdate).Some? ==> t == old(db.lastUpdate).value && db.lastUpdate == old(db.lastUpdate)
    ensures old(db.lastUpdate).None? ==> t == now && db.lastUpdate == Some(now)
  {
    if db.lastUpdate.None? {
      db.lastUpdate := Some(now);
    }
    t := db.lastUpdate.value;
  }

  /** `SystemStatus.update_timestamp`: create the row if missing and stamp it `now`. */
  method UpdateTimestamp(db: Database, now: Time) returns (t: Time)
    modifies db`lastUpdate
    ensures t == now && db.lastUpdate == Some(now)
  {
    db.lastUpdate := Some(now);
    t := now;
  }
}
