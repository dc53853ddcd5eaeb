/** server/routes/api.py: the REST endpoints the playback clients call. Each
    route is a function from the request's inputs and the stored state to the
    JSON response and the new state; the playback route is also a method on
    the store. */
module Api {
  import opened Seqs
  import opened Text
  import opened Models
  import opened Geo
  import opened VideoService
  import opened Keywords

  /** The JSON bodies the routes return. */
  datatype Body =
    | ErrorBody(error: string)
    | VideoList(videos: seq<Video>, count: int)
    | PlaybackSuccess(creditosRestantes: int, pausado: bool, visualizacoesTotal: int)
    | PlaybackFailure(error: string, creditos: int, pausado: bool)
    | TimestampBody(lastUpdate: Time)

  datatype Response = Response(status: int, body: Body)

  const MissingCoordinates: string := "Latitude e longitude são obrigatórios"

  /** `float()` of a query parameter: `None` for a parameter that is absent
      (TypeError) or is not a number (ValueError). */
  function QueryFloat(arg: Option<string>, parseFloat: string -> Option<real>): Option<real>
  {
    if arg.None? then None else parseFloat(arg.value)
  }

  /** `GET /api/videos`: both coordinates are required; the answer lists the
      location's videos and their number. */
  function GetVideos(latArg: Option<string>, lonArg: Option<string>, parseFloat: string -> Option<real>,
                     videos: map<nat, Video>, n: nat, dist: Distance): Response
  {
    var lat := QueryFloat(latArg, parseFloat);
    var lon := QueryFloat(lonArg, parseFloat);
    if lat.None? || lon.None? then Response(400, ErrorBody(MissingCoordinates))
    else
      var listing := VideosByLocation(videos, n, dist, Point(lat.value, lon.value));
      Response(200, VideoList(listing, |listing|))
  }

  /** The route answers 400 exactly when a coordinate is missing or
      unreadable, and otherwise lists exactly the playable videos covering
      the point, most credits first, with their count. */
  lemma GetVideosSpec(latArg: Option<string>, lonArg: Option<string>, parseFloat: string -> Option<real>,
                      videos: map<nat, Video>, n: nat, dist: Distance)
    ensures var r := GetVideos(latArg, lonArg, parseFloat, videos, n, dist);
      && (r.status == 400 <==> latArg.None? || lonArg.None? || parseFloat(latArg.value).None?
                               || parseFloat(lonArg.value).None?)
      && (r.status == 400 ==> r.body == ErrorBody(MissingCoordinates))
      && (r.status != 400 ==>
            && r.status == 200 && r.body.VideoList? && r.body.count == |r.body.videos|
            && CreditsDescending(r.body.videos)
            && var client := Point(parseFloat(latArg.value).value, parseFloat(lonArg.value).value);
               forall v :: v in r.body.videos <==>
                 && (exists id :: id in videos && id < n && videos[id] == v)
                 && Playable(v) && IsWithinRadius(dist, client, Center(v), v.radiusKm))
  {
    var r := GetVideos(latArg, lonArg, parseFloat, videos, n, dist);
    if r.status != 400 {
      ListingSpec(videos, n, dist, Point(parseFloat(latArg.value).value, parseFloat(lonArg.value).value));
    }
  }

  /** The failure status of the playback route: 403 when the lower-cased
      message mentions "pausado" or "aprovado", 402 otherwise. */
  function StatusFor(message: string): int
  {
    if Contains(Lower(message), "pausado") || Contains(Lower(message), "aprovado") then 403 else 402
  }

  /** The JSON object a client may post: its coordinates, each possibly
      absent. A request without a JSON body reads as the empty object. */
  datatype PlaybackRequest = PlaybackRequest(latitude: Option<real>, longitude: Option<real>)

  function Coordinates(body: Option<PlaybackRequest>): PlaybackRequest
  {
    if body.None? then PlaybackRequest(None, None) else body.value
  }

  /** The response built from the recorder's report. */
  function PlaybackResponse(report: Report): Response
    requires report.success ==> report.video.Some?
  {
    if report.success then
      var v := report.video.value;
      Response(200, PlaybackSuccess(v.creditos, v.pausado, v.visualizacoes))
    else
      Response(StatusFor(report.message), PlaybackFailure(report.message,
        if report.video.Some? then report.video.value.creditos else 0,
        if report.video.Some? then report.video.value.pausado else true))
  }

  /** `POST /api/visualizacao/<id>` as intended: the response, the videos
      table and the view log afterwards. */
  function PostVisualizacao(videos: map<nat, Video>, logs: seq<LogEntry>, id: nat, remoteAddr: string,
                            body: Option<PlaybackRequest>, now: Time): (Response, map<nat, Video>, seq<LogEntry>)
  {
    var coords := Coordinates(body);
    var (report, videos', logs') := Record(videos, logs, id, remoteAddr, coords.latitude, coords.longitude, now);
    RecordSuccess(videos, logs, id, remoteAddr, coords.latitude, coords.longitude, now);
    (PlaybackResponse(report), videos', logs')
  }

  lemma KeywordFreeStatus(s: string)
    requires KeywordFree(s)
    ensures StatusFor(s) == 402
  {
    assert NoPair(Lower(s), 'p', 'a') && NoPair(Lower(s), 'a', 'p');
    NotContainsByPair(Lower(s), "pausado");
    NotContainsByPair(Lower(s), "aprovado");
  }

  /** The not-found report mentions neither keyword. */
  lemma NotFoundKeywordFree()
    ensures KeywordFree(RecordErrorPrefix + NotFoundText)
  {
    RecordPrefixKeywordFree();
    NotFoundLiteralKeywordFree();
    KeywordFreeAfterSpace(RecordErrorPrefix, NotFoundText);
  }

  /** A message that ends in a lower-case keyword contains that keyword once
      lower-cased, whatever precedes it. */
  lemma EndsWithKeyword(prefix: string, word: string)
    requires Lower(word) == word
    ensures Contains(Lower(prefix + word), word)
  {
    LowerConcat(prefix, word);
    ContainsWithin(Lower(prefix), word, []);
    assert Lower(prefix) + word + [] == Lower(prefix + word);
  }

  /** Any message ending in "aprovado" or "pausado" is forbidden (403). */
  lemma KeywordStatus(prefix: string, word: string)
    requires word == "aprovado" || word == "pausado"
    ensures StatusFor(prefix + word) == 403
  {
    assert Lower(word) == word;
    EndsWithKeyword(prefix, word);
  }

  /** The approval and pause refusals are forbidden (403). */
  lemma ForbiddenRefusals()
    ensures StatusFor(RefusalMessage(NotApproved)) == 403
    ensures StatusFor(RefusalMessage(Paused)) == 403
  {
    KeywordStatus("Vídeo não ", "aprovado");
    assert RefusalMessage(NotApproved) == "Vídeo não " + "aprovado";
    KeywordStatus("Vídeo ", "pausado");
    assert RefusalMessage(Paused) == "Vídeo " + "pausado";
  }

  /** The credit refusal and a missing video are both reported as payment
      required (402). */
  lemma PaymentRequiredMessages()
    ensures StatusFor(RefusalMessage(NoCredits)) == 402
    ensures StatusFor(RecordErrorPrefix + NotFoundText) == 402
  {
    KeywordFreeAbsent(RefusalMessage(NoCredits), 'p');
    KeywordFreeStatus(RefusalMessage(NoCredits));
    NotFoundKeywordFree();
    KeywordFreeStatus(RecordErrorPrefix + NotFoundText);
  }

  /** The TypeError's report mentions neither keyword. */
  lemma LogKeywordErrorKeywordFree()
    ensures KeywordFree(RecordErrorPrefix + LogKeywordError)
  {
    RecordPrefixKeywordFree();
    TypeErrorKeywordFree();
    KeywordFreeAfterSpace(RecordErrorPrefix, LogKeywordError);
  }

  /** The playback route as intended: it answers 200 exactly for a stored,
      playable video, with the balance, pause flag and view count after the
      credit is spent, and logs the view with the caller's address and
      posted coordinates; an unapproved or paused video is forbidden (403)
      and changes nothing; an exhausted video is payment required (402) and
      is left paused; an unknown id is also 402, with zero credits and
      paused reported. */
  lemma PostVisualizacaoSpec(videos: map<nat, Video>, logs: seq<LogEntry>, id: nat, remoteAddr: string,
                             body: Option<PlaybackRequest>, now: Time)
    ensures var (r, videos', logs') := PostVisualizacao(videos, logs, id, remoteAddr, body, now);
      var coords := Coordinates(body);
      && (r.status == 200 <==> id in videos && Playable(videos[id]))
      && (id !in videos ==>
            && r == Response(402, PlaybackFailure(RecordErrorPrefix + NotFoundText, 0, true))
            && videos' == videos && logs' == logs)
      && (id in videos && Playable(videos[id]) ==>
            var v := videos[id];
            && r.body == PlaybackSuccess(v.creditos - 1, v.creditos == 1, v.visualizacoes + 1)
            && logs' == logs + [LogEntry(id, remoteAddr, coords.latitude, coords.longitude, now)])
      && (id in videos && !videos[id].aprovado ==>
            var v := videos[id];
            && r == Response(403, PlaybackFailure("Vídeo não aprovado", v.creditos, v.pausado))
            && videos' == videos && logs' == logs)
      && (id in videos && videos[id].aprovado && videos[id].creditos <= 0 ==>
            var v := videos[id];
            && r == Response(402, PlaybackFailure("Vídeo sem créditos", v.creditos, true))
            && videos' == videos[id := v.(pausado := true)] && logs' == logs)
      && (id in videos && videos[id].aprovado && videos[id].creditos > 0 && videos[id].pausado ==>
            var v := videos[id];
            && r == Response(403, PlaybackFailure("Vídeo pausado", v.creditos, true))
            && videos' == videos && logs' == logs)
  {
    var coords := Coordinates(body);
    RecordSuccess(videos, logs, id, remoteAddr, coords.latitude, coords.longitude, now);
    ForbiddenRefusals();
    PaymentRequiredMessages();
    if id in videos && !Playable(videos[id]) {
      RecordRefusals(videos, logs, id, remoteAddr, coords.latitude, coords.longitude, now);
    }
  }

  /** The playback route over the recorder as written. */
  function PostVisualizacaoAsWritten(videos: map<nat, Video>, logs: seq<LogEntry>, id: nat, remoteAddr: string,
                                     body: Option<PlaybackRequest>, now: Time): (Response, map<nat, Video>, seq<LogEntry>)
  {
    var coords := Coordinates(body);
    var (report, videos', logs') := RecordAsWritten(videos, logs, id, remoteAddr, coords.latitude, coords.longitude, now);
    LogKeywordsBreakPlayback(videos, logs, id, remoteAddr, coords.latitude, coords.longitude, now);
    (PlaybackResponse(report), videos', logs')
  }

  /** As written, the route never answers 200: a playable video gets 402
      with zero credits and paused reported, although nothing was spent and
      the video is neither paused nor exhausted. */
  lemma PlayableAnsweredPaymentRequired(videos: map<nat, Video>, logs: seq<LogEntry>, id: nat, remoteAddr: string,
                                        body: Option<PlaybackRequest>, now: Time)
    ensures PostVisualizacaoAsWritten(videos, logs, id, remoteAddr, body, now).0.status != 200
    ensures id in videos && Playable(videos[id]) ==>
      PostVisualizacaoAsWritten(videos, logs, id, remoteAddr, body, now) ==
        (Response(402, PlaybackFailure(RecordErrorPrefix + LogKeywordError, 0, true)), videos, logs)
  {
    var coords := Coordinates(body);
    LogKeywordsBreakPlayback(videos, logs, id, remoteAddr, coords.latitude, coords.longitude, now);
    LogKeywordErrorKeywordFree();
    KeywordFreeStatus(RecordErrorPrefix + LogKeywordError);
  }

  /** `POST /api/visualizacao/<id>` on the store. */
  method RegistrarVisualizacao(db: Database, id: nat, remoteAddr: string, body: Option<PlaybackRequest>, now: Time)
    returns (r: Response)
    requires db.Valid()
    modifies db`videos, db`logs
    ensures db.Valid()
    ensures LedgerValid(old(db.videos), old(db.logs)) ==> LedgerValid(db.videos, db.logs)
    ensures (r, db.videos, db.logs) == PostVisualizacao(old(db.videos), old(db.logs), id, remoteAddr, body, now)
  {
    var coords := Coordinates(body);
    RecordSuccess(db.videos, db.logs, id, remoteAddr, coords.latitude, coords.longitude, now);
    var report := VideoService.RegistrarVisualizacao(db, id, remoteAddr, coords.latitude, coords.longitude, now);
    r := PlaybackResponse(report);
  }

  /** `GET /api/timestamp`: the last change time, created on first use. */
  method GetTimestamp(db: Database, now: Time) returns (r: Response)
    modifies db`lastUpdate
    ensures db.lastUpdate.Some? && r == Response(200, TimestampBody(db.lastUpdate.value))
    ensures old(db.lastUpdate).Some? ==> db.lastUpdate == old(db.lastUpdate)
    ensures old(db.lastUpdate).None? ==> db.lastUpdate == Some(now)
  {
    var t := GetLastUpdate(db, now);
    r := Response(200, TimestampBody(t));
  }
}
