/** server/routes/admin.py: the administrator's mutation routes. Each route
    calls one service operation, flashes its message, and bumps the
    freshness mark only after a successful upload, approval, rejection or
    deletion; marking paid, pausing and adding credits never touch it. */
module Admin {
  import opened Seqs
  import opened Models
  import opened Geo
  import opened VideoService

  /** A message queued for the next page, with its Bootstrap category. */
  datatype Flash = Flash(message: string, category: string)

  datatype AdminAction =
    | UploadAction | ApproveAction | RejectAction | MarkPaidAction | PauseAction | AddCreditsAction | DeleteAction

  /** The routes that call `SystemStatus.update_timestamp` on success. */
  predicate BumpsFreshness(a: AdminAction)
  {
    a.UploadAction? || a.ApproveAction? || a.RejectAction? || a.DeleteAction?
  }

  /** The freshness mark after route `a` ran at `now` with the given outcome. */
  function FreshnessAfter(a: AdminAction, success: bool, before: Option<Time>, now: Time): Option<Time>
  {
    if success && BumpsFreshness(a) then Some(now) else before
  }

  /** The mark moves only on a success of the four bumping routes, and then
      to the current time; with a clock that never runs backwards it never
      decreases. */
  lemma FreshnessAfterSpec(a: AdminAction, success: bool, before: Option<Time>, now: Time)
    ensures var after := FreshnessAfter(a, success, before, now);
      && (after != before ==> success && BumpsFreshness(a) && after == Some(now))
      && (a.MarkPaidAction? || a.PauseAction? || a.AddCreditsAction? ==> after == before)
      && (!success ==> after == before)
      && (before.Some? && before.value <= now ==> after.Some? && before.value <= after.value)
  {
  }

  /** Pausing a listed video takes it out of every listing that showed it,
      yet leaves the freshness mark where it was, so a client that polls the
      mark keeps its old list. */
  lemma PauseHidesWithoutFreshness(videos: map<nat, Video>, n: nat, id: nat, dist: Distance, client: Point,
                                   before: Option<Time>, now: Time)
    requires id in videos && id < n && videos[id].id == id
    requires forall k :: k in videos ==> videos[k].id == k
    requires videos[id] in VideosByLocation(videos, n, dist, client)
    ensures var (out, after) := Mutate(videos, id, TogglePause);
      && out.success
      && after[id] !in VideosByLocation(after, n, dist, client)
      && FreshnessAfter(PauseAction, out.success, before, now) == before
  {
    var (out, after) := Mutate(videos, id, TogglePause);
    ListingSpec(videos, n, dist, client);
    ListingSpec(after, n, dist, client);
  }

  /** Topping up an exhausted, auto-paused video that covers the point puts
      it into the listing, again without moving the freshness mark. */
  lemma TopUpShowsWithoutFreshness(videos: map<nat, Video>, n: nat, id: nat, q: int, dist: Distance, client: Point,
                                   before: Option<Time>, now: Time)
    requires id in videos && id < n && q > 0
    requires videos[id].aprovado && videos[id].creditos + q > 0
    requires IsWithinRadius(dist, client, Center(videos[id]), videos[id].radiusKm)
    ensures var (out, after) := AddCredits(videos, id, q);
      && out.success
      && after[id] in VideosByLocation(after, n, dist, client)
      && FreshnessAfter(AddCreditsAction, out.success, before, now) == before
  {
    var (out, after) := AddCredits(videos, id, q);
    ListingSpec(after, n, dist, client);
  }

  /** The category each route flashes its service message with. */
  function SuccessCategory(a: AdminAction): string
  {
    match a
    case RejectAction => "warning"
    case PauseAction => "info"
    case _ => "success"
  }

  function RouteFlash(a: AdminAction, out: Outcome): Flash
  {
    Flash(out.message, if out.success then SuccessCategory(a) else "danger")
  }

  /** `POST /admin/aprovar/<id>`. */
  method AprovarVideo(db: Database, id: nat, now: Time) returns (flash: Flash)
    requires db.Valid()
    modifies db`videos, db`lastUpdate
    ensures db.Valid()
    ensures var (out, after) := Mutate(old(db.videos), id, Approve);
      && db.videos == after && flash == RouteFlash(ApproveAction, out)
      && db.lastUpdate == FreshnessAfter(ApproveAction, out.success, old(db.lastUpdate), now)
  {
    var out := VideoService.AprovarVideo(db, id);
    if out.success {
      var _ := UpdateTimestamp(db, now);
      flash := Flash(out.message, "success");
    } else {
      flash := Flash(out.message, "danger");
    }
  }

  /** `POST /admin/reprovar/<id>`. */
  method ReprovarVideo(db: Database, id: nat, now: Time) returns (flash: Flash)
    requires db.Valid()
    modifies db`videos, db`lastUpdate
    ensures db.Valid()
    ensures var (out, after) := Mutate(old(db.videos), id, Reject);
      && db.videos == after && flash == RouteFlash(RejectAction, out)
      && db.lastUpdate == FreshnessAfter(RejectAction, out.success, old(db.lastUpdate), now)
  {
    var out := VideoService.ReprovarVideo(db, id);
    if out.success {
      var _ := UpdateTimestamp(db, now);
      flash := Flash(out.message, "warning");
    } else {
      flash := Flash(out.message, "danger");
    }
  }

  /** `POST /admin/marcar-pago/<id>`: no freshness bump. */
  method MarcarPago(db: Database, id: nat) returns (flash: Flash)
    requires db.Valid()
    modifies db`videos
    ensures db.Valid()
    ensures var (out, after) := Mutate(old(db.videos), id, MarkPaid);
      db.videos == after && flash == RouteFlash(MarkPaidAction, out)
    ensures db.lastUpdate == old(db.lastUpdate)
  {
    var out := VideoService.MarcarComoPago(db, id);
    if out.success {
      flash := Flash(out.message, "success");
    } else {
      flash := Flash(out.message, "danger");
    }
  }

  /** `POST /admin/pausar/<id>`: no freshness bump. */
  method PausarVideo(db: Database, id: nat) returns (flash: Flash)
    requires db.Valid()
    modifies db`videos
    ensures db.Valid()
    ensures var (out, after) := Mutate(old(db.videos), id, TogglePause);
      db.videos == after && flash == RouteFlash(PauseAction, out)
    ensures db.lastUpdate == old(db.lastUpdate)
  {
    var out := VideoService.PausarVideo(db, id);
    if out.success {
      flash := Flash(out.message, "info");
    } else {
      flash := Flash(out.message, "danger");
    }
  }

  /** `POST /admin/delete/<id>`. */
  method DeleteVideo(db: Database, id: nat, now: Time) returns (flash: Flash)
    requires db.Valid()
    modifies db`videos, db`logs, db`lastUpdate
    ensures db.Valid()
    ensures var (out, after, logs) := Delete(old(db.videos), old(db.logs), id);
      && db.videos == after && db.logs == logs && flash == RouteFlash(DeleteAction, out)
      && db.lastUpdate == FreshnessAfter(DeleteAction, out.success, old(db.lastUpdate), now)
  {
    var out := DeletarVideo(db, id);
    if out.success {
      var _ := UpdateTimestamp(db, now);
      flash := Flash(out.message, "success");
    } else {
      flash := Flash(out.message, "danger");
    }
  }

  /** The `creditos` form field: absent, or the text that was posted. */
  datatype FormField = Absent | Posted(text: string)

  const InvalidAmount: string := "Quantidade de créditos inválida!"

  /** `int(request.form.get('creditos', 0))`: an absent field reads as 0; a
      posted text is parsed by `parseInt`, `None` standing for ValueError. */
  function Amount(field: FormField, parseInt: string -> Option<int>): Option<int>
  {
    if field.Absent? then Some(0) else parseInt(field.text)
  }

  /** `POST /admin/adicionar-creditos/<id>`: an unreadable amount is reported
      without calling the service; a readable one goes to the service, whose
      refusal of amounts up to zero covers the absent field. No freshness
      bump either way. */
  method AdicionarCreditos(db: Database, id: nat, field: FormField, parseInt: string -> Option<int>)
    returns (flash: Flash)
    requires db.Valid()
    modifies db`videos
    ensures db.Valid()
    ensures Amount(field, parseInt).None? ==>
      flash == Flash(InvalidAmount, "danger") && db.videos == old(db.videos)
    ensures Amount(field, parseInt).Some? ==>
      var (out, after) := AddCredits(old(db.videos), id, Amount(field, parseInt).value);
      db.videos == after && flash == RouteFlash(AddCreditsAction, out)
    ensures field.Absent? ==>
      flash == Flash("Quantidade deve ser maior que zero", "danger") && db.videos == old(db.videos)
    ensures db.lastUpdate == old(db.lastUpdate)
  {
    var quantidade := Amount(field, parseInt);
    if quantidade.None? {
      return Flash(InvalidAmount, "danger");
    }
    var out := VideoService.AdicionarCreditos(db, id, quantidade.value);
    if out.success {
      flash := Flash(out.message, "success");
    } else {
      flash := Flash(out.message, "danger");
    }
  }

  /** The upload form after `validate_on_submit`: the submitted data, or the
      errors of each failing field in declaration order. */
  datatype UploadForm =
    | Submitted(filename: Option<string>, latitude: real, longitude: real, radiusKm: real)
    | Rejected(errors: seq<(string, seq<string>)>)

  /** One "field: error" danger flash per error of one field. */
  function FieldFlashes(field: string, errors: seq<string>): seq<Flash>
  {
    seq(|errors|, i requires 0 <= i < |errors| => Flash(field + ": " + errors[i], "danger"))
  }

  /** The flashes for every error of every field, in order. */
  function FormErrorFlashes(errors: seq<(string, seq<string>)>): seq<Flash>
  {
    if errors == [] then []
    else FormErrorFlashes(errors[..|errors| - 1]) + FieldFlashes(errors[|errors| - 1].0, errors[|errors| - 1].1)
  }

  /** Every flash is a danger flash naming its field, and every error of
      every field gets one. */
  lemma {:induction false} FormErrorFlashesSpec(errors: seq<(string, seq<string>)>)
    ensures forall f :: f in FormErrorFlashes(errors) ==>
      f.category == "danger" && exists k, j :: 0 <= k < |errors| && 0 <= j < |errors[k].1|
                                  && f.message == errors[k].0 + ": " + errors[k].1[j]
    ensures forall k, j :: 0 <= k < |errors| && 0 <= j < |errors[k].1| ==>
      Flash(errors[k].0 + ": " + errors[k].1[j], "danger") in FormErrorFlashes(errors)
  {
    if errors != [] {
      var init := errors[..|errors| - 1];
      var (field, errs) := errors[|errors| - 1];
      FormErrorFlashesSpec(init);
      assert FormErrorFlashes(errors) == FormErrorFlashes(init) + FieldFlashes(field, errs);
      forall f | f in FormErrorFlashes(errors)
        ensures f.category == "danger" && exists k, j :: 0 <= k < |errors| && 0 <= j < |errors[k].1|
                                            && f.message == errors[k].0 + ": " + errors[k].1[j]
      {
        if f in FormErrorFlashes(init) {
          var k, j :| 0 <= k < |init| && 0 <= j < |init[k].1| && f.message == init[k].0 + ": " + init[k].1[j];
          assert errors[k] == init[k];
        } else {
          var j :| 0 <= j < |errs| && FieldFlashes(field, errs)[j] == f;
          assert errors[|errors| - 1].1[j] == errs[j];
        }
      }
      forall k, j | 0 <= k < |errors| && 0 <= j < |errors[k].1|
        ensures Flash(errors[k].0 + ": " + errors[k].1[j], "danger") in FormErrorFlashes(errors)
      {
        if k < |init| {
          assert errors[k] == init[k];
        } else {
          assert FieldFlashes(field, errs)[j] == Flash(errors[k].0 + ": " + errors[k].1[j], "danger");
        }
      }
    }
  }

  /** The nested loop over `form.errors.items()` that flashes each error. */
  method FlashFormErrors(errors: seq<(string, seq<string>)>) returns (flashes: seq<Flash>)
    ensures flashes == FormErrorFlashes(errors)
  {
    flashes := [];
    var k := 0;
    while k < |errors|
      invariant 0 <= k <= |errors|
      invariant flashes == FormErrorFlashes(errors[..k])
    {
      var (field, errs) := errors[k];
      var j := 0;
      while j < |errs|
        invariant 0 <= j <= |errs|
        invariant flashes == FormErrorFlashes(errors[..k]) + FieldFlashes(field, errs[..j])
      {
        flashes := flashes + [Flash(field + ": " + errs[j], "danger")];
        j := j + 1;
      }
      assert errs[..j] == errs;
      assert errors[..k + 1][..k] == errors[..k];
      k := k + 1;
    }
    assert errors[..k] == errors;
  }

  /** `POST /admin/upload`: a rejected form flashes its errors and changes
      nothing; a submitted one goes to the service as an administrator's
      upload (no owner), and a stored video bumps the freshness mark. */
  method UploadVideo(db: Database, form: UploadForm, storedName: string, now: Time) returns (flashes: seq<Flash>)
    requires db.Valid()
    modifies db`videos, db`nextVideoId, db`lastUpdate
    ensures db.Valid()
    ensures form.Rejected? ==>
      && flashes == FormErrorFlashes(form.errors)
      && db.videos == old(db.videos) && db.nextVideoId == old(db.nextVideoId)
      && db.lastUpdate == old(db.lastUpdate)
    ensures form.Submitted? ==>
      var check := UploadCheck(form.filename, form.latitude, form.longitude, form.radiusKm);
      && db.lastUpdate == FreshnessAfter(UploadAction, check.None?, old(db.lastUpdate), now)
      && (check.Some? ==>
            && flashes == [Flash("Erro: " + UploadErrorMessage(check.value), "danger")]
            && db.videos == old(db.videos) && db.nextVideoId == old(db.nextVideoId))
      && (check.None? ==>
            var v := InitialVideo(old(db.nextVideoId), storedName, form.filename.value, form.latitude,
                                  form.longitude, form.radiusKm, now, None);
            && flashes == [Flash("Vídeo \"" + storedName + "\" enviado com sucesso!", "success")]
            && db.videos == old(db.videos)[old(db.nextVideoId) := v]
            && db.nextVideoId == old(db.nextVideoId) + 1
            && v.aprovado && v.pago && v.creditos == 1000 && Playable(v))
  {
    if form.Rejected? {
      flashes := FlashFormErrors(form.errors);
      return;
    }
    var id := db.nextVideoId;
    var video, error := VideoService.UploadVideo(db, form.filename, form.latitude, form.longitude, form.radiusKm,
                                                 None, storedName, now);
    if video.Some? {
      InitialVideoSpec(id, storedName, form.filename.value, form.latitude, form.longitude, form.radiusKm, now, None);
      var _ := UpdateTimestamp(db, now);
      flashes := [Flash("Vídeo \"" + video.value.filename + "\" enviado com sucesso!", "success")];
    } else {
      flashes := [Flash("Erro: " + error.value, "danger")];
    }
  }

  /** `GET /admin/`: every video, newest first, and the freshness mark
      (created on first use). */
  method Dashboard(db: Database, now: Time) returns (videos: seq<Video>, lastUpdate: Time)
    modifies db`lastUpdate
    ensures videos == AllVideos(db.videos, db.nextVideoId)
    ensures db.lastUpdate == Some(lastUpdate)
    ensures old(db.lastUpdate).Some? ==> db.lastUpdate == old(db.lastUpdate)
    ensures old(db.lastUpdate).None? ==> lastUpdate == now
  {
    videos := AllVideos(db.videos, db.nextVideoId);
    lastUpdate := GetLastUpdate(db, now);
  }
}
