/**
 * The rejection mailer (lambdas/rejectionMailer.ts): an email only for a
 * storage-change record whose file type is not `jpeg`/`png`, and none for an
 * accepted one.
 */
module RejectionMailer {
  import opened Wrappers
  import opened UriDecoding
  import opened FileType
  import opened Events
  import opened Mail
  import Mailer

  const Subject: string := "Regection Notification"
  const Heading: string := "Rejection Details:"

  function RejectionMessage(key: string): string {
    "Image " + key + " has been regected. It is an invalid file type"
  }

  /** The rejection notice, naming the decoded key. */
  function RejectionEmail(cfg: SesConfig, key: string): (e: Email)
    ensures Carries(e, cfg, Subject, Heading, RejectionMessage(key))
  {
    SendEmailParams(cfg, Subject, Heading, ContactDetails(AlbumName, cfg.emailFrom, RejectionMessage(key)))
  }

  /** One iteration of the inner loop: at most one send attempt, or the URIError that ends the batch. */
  function Route(cfg: SesConfig, r: S3Record): (res: Result<seq<Email>, Fault>)
    ensures res.Failure? <==> NormaliseKey(r.rawKey).None?
    ensures res.Failure? ==> res.error == BadKey
    ensures res.Success? ==> |res.value| <= 1
    ensures res.Success? ==> (res.value != [] <==> !MailerAccepts(NormaliseKey(r.rawKey).value))
    ensures res.Success? && res.value != [] ==> res.value == [RejectionEmail(cfg, NormaliseKey(r.rawKey).value)]
  {
    match NormaliseKey(r.rawKey)
    case None => Failure(BadKey)
    case Some(srcKey) =>
      var fileExtension := Lower(PoppedSuffix(srcKey));
      if fileExtension != "jpeg" && fileExtension != "png" then Success([RejectionEmail(cfg, srcKey)])
      else Success([])
  }

  function RouteFor(cfg: SesConfig): S3Record -> Result<seq<Email>, Fault> {
    r => Route(cfg, r)
  }

  /** `handler`: every send attempt is recorded in `outbox`; a failed send is swallowed. */
  method Handler(cfg: SesConfig, outbox: Outbox, event: seq<SqsRecord>) returns (error: Option<Fault>)
    modifies outbox
    ensures outbox.attempted == old(outbox.attempted) + Dispatch(Steps(event), RouteFor(cfg)).emails
    ensures error == Dispatch(Steps(event), RouteFor(cfg)).error
    ensures old(outbox.delivered) <= outbox.delivered
    ensures forall k :: |old(outbox.delivered)| <= k < |outbox.delivered| ==>
      outbox.delivered[k] in Dispatch(Steps(event), RouteFor(cfg)).emails
  {
    error := HandleBatch(outbox, event, RouteFor(cfg));
  }

  // ---------------------------------------------------------------------
  // Properties.

  /**
   * Both mailers decode and classify the same way: this one sends exactly for
   * the records where the notification mailer takes its rejection branch,
   * and both throw on the same records.
   */
  lemma SendsWhereMailerRejects(cfg: SesConfig, r: S3Record)
    ensures Route(cfg, r).Failure? <==> Mailer.Route(cfg, r).Failure?
    ensures Route(cfg, r).Success? ==>
      (Route(cfg, r).value != [] <==> Mailer.Route(cfg, r).value == [Mailer.RejectionEmail(cfg, NormaliseKey(r.rawKey).value)])
  {
    if NormaliseKey(r.rawKey).Some? {
      var key := NormaliseKey(r.rawKey).value;
      Mailer.RouteChoice(cfg, r, key);
      Mailer.AcceptanceIsNotRejection(cfg, r.bucket, key);
    }
  }

  /** Across a whole batch: no email for an accepted type, every email a rejection notice. */
  lemma AllEmailsAreRejections(cfg: SesConfig, steps: seq<Step>)
    ensures forall e :: e in Dispatch(steps, RouteFor(cfg)).emails ==>
      (exists key :: e == RejectionEmail(cfg, key)) &&
      e.toAddresses == [cfg.emailTo] && e.source == cfg.emailFrom && e.subject == Subject
  {
    forall e | e in Dispatch(steps, RouteFor(cfg)).emails
      ensures (exists key :: e == RejectionEmail(cfg, key)) &&
        e.toAddresses == [cfg.emailTo] && e.source == cfg.emailFrom && e.subject == Subject
    {
      var r :| Change(r) in steps && RouteFor(cfg)(r).Success? && e in RouteFor(cfg)(r).value;
      var key := RouteRejects(cfg, r, e);
      assert e == RejectionEmail(cfg, key);
    }
  }

  lemma RouteRejects(cfg: SesConfig, r: S3Record, e: Email) returns (key: string)
    requires Route(cfg, r).Success? && e in Route(cfg, r).value
    ensures e == RejectionEmail(cfg, key)
    ensures e.toAddresses == [cfg.emailTo] && e.source == cfg.emailFrom && e.subject == Subject
  {
    key := NormaliseKey(r.rawKey).value;
  }

  /** At most one send attempt per storage-change record. */
  lemma {:induction false} AtMostOneAttemptPerRecord(cfg: SesConfig, steps: seq<Step>)
    ensures |Dispatch(steps, RouteFor(cfg)).emails| <= |steps|
    decreases |steps|
  {
    if steps != [] {
      AtMostOneAttemptPerRecord(cfg, steps[1..]);
      match steps[0]
      case Unreadable =>
      case Change(r) =>
        assert RouteFor(cfg)(r) == Route(cfg, r);
    }
  }

  /** An SQS record whose message has no `Records` field sends nothing. */
  lemma NoRecordsNoSend(cfg: SesConfig, r: SqsRecord)
    requires r.body == Notification(None)
    ensures Dispatch(Steps([r]), RouteFor(cfg)) == Dispatched([], None)
  {
    assert [r][..0] == [];
  }
}
