/**
 * The notification mailer (lambdas/mailer.ts): one email per storage-change
 * record, whatever its event name; an acceptance with the object's URL when
 * the file type is `jpeg`/`png`, a rejection otherwise.
 */
module Mailer {
  import opened Wrappers
  import opened UriDecoding
  import opened FileType
  import opened Events
  import opened Mail

  const Subject: string := "New image Upload"
  const Heading: string := "Sent from: "

  function AcceptedMessage(bucket: string, key: string): string {
    "We received your Image. Its URL is s3://" + bucket + "/" + key
  }

  function RejectedMessage(key: string): string {
    "Image " + key + " has been rejected because of an invalid file type"
  }

  /** The acceptance notice, carrying the object's `s3://` URL. */
  function AcceptanceEmail(cfg: SesConfig, bucket: string, key: string): (e: Email)
    ensures Carries(e, cfg, Subject, Heading, AcceptedMessage(bucket, key))
  {
    SendEmailParams(cfg, Subject, Heading, ContactDetails(AlbumName, cfg.emailFrom, AcceptedMessage(bucket, key)))
  }

  /** The rejection notice, naming the decoded key. */
  function RejectionEmail(cfg: SesConfig, key: string): (e: Email)
    ensures Carries(e, cfg, Subject, Heading, RejectedMessage(key))
  {
    SendEmailParams(cfg, Subject, Heading, ContactDetails(AlbumName, cfg.emailFrom, RejectedMessage(key)))
  }

  /** One iteration of the inner loop: the send attempts for one record, or the URIError that ends the batch. */
  function Route(cfg: SesConfig, r: S3Record): (res: Result<seq<Email>, Fault>)
    ensures res.Failure? <==> NormaliseKey(r.rawKey).None?
    ensures res.Failure? ==> res.error == BadKey
    ensures res.Success? ==> |res.value| == 1
  {
    match NormaliseKey(r.rawKey)
    case None => Failure(BadKey)
    case Some(srcKey) =>
      var fileType := Lower(PoppedSuffix(srcKey));
      if fileType == "jpeg" || fileType == "png" then Success([AcceptanceEmail(cfg, r.bucket, srcKey)])
      else Success([RejectionEmail(cfg, srcKey)])
  }

  function RouteFor(cfg: SesConfig): S3Record -> Result<seq<Email>, Fault> {
    r => Route(cfg, r)
  }

  /** `handler`: every send attempt is recorded in `outbox`; a failed send is swallowed. */
  method Handler(cfg: SesConfig, outbox: Outbox, event: seq<SqsRecord>) returns (error: Option<Fault>)
    modifies outbox
    ensures outbox.attempted == old(outbox.attempted) + Dispatch(Steps(event), RouteFor(cfg)).emails
    ensures error == Dispatch(Steps(event), RouteFor(cfg)).error
    ensures old(outbox.delivered) <= outbox.delivered
    ensures forall k :: |old(outbox.delivered)| <= k < |outbox.delivered| ==>
      outbox.delivered[k] in Dispatch(Steps(event), RouteFor(cfg)).emails
  {
    error := HandleBatch(outbox, event, RouteFor(cfg));
  }

  // ---------------------------------------------------------------------
  // Properties.

  /** The accept/reject choice is the mailers' classification of the decoded key, and nothing else. */
  lemma RouteChoice(cfg: SesConfig, r: S3Record, key: string)
    requires NormaliseKey(r.rawKey) == Some(key)
    ensures MailerAccepts(key) ==> Route(cfg, r) == Success([AcceptanceEmail(cfg, r.bucket, key)])
    ensures !MailerAccepts(key) ==> Route(cfg, r) == Success([RejectionEmail(cfg, key)])
  {
  }

  /** The event name plays no part: a removal is notified like a creation. */
  lemma RouteIgnoresEventName(cfg: SesConfig, r: S3Record, eventName: string)
    ensures Route(cfg, r.(eventName := eventName)) == Route(cfg, r)
  {
  }

  /** Acceptance and rejection emails are never the same email. */
  lemma AcceptanceIsNotRejection(cfg: SesConfig, bucket: string, key: string)
    ensures AcceptanceEmail(cfg, bucket, key) != RejectionEmail(cfg, key)
  {
    var a := ContactDetails(AlbumName, cfg.emailFrom, AcceptedMessage(bucket, key));
    var b := ContactDetails(AlbumName, cfg.emailFrom, RejectedMessage(key));
    assert a.message[0] == 'W' && b.message[0] == 'I';
    HtmlDistinguishesMessages(Heading, a, b);
  }

  /** Exactly one send attempt per storage-change record of a batch that does not throw. */
  lemma {:induction false} OneAttemptPerRecord(cfg: SesConfig, steps: seq<Step>)
    requires Dispatch(steps, RouteFor(cfg)).error.None?
    ensures |Dispatch(steps, RouteFor(cfg)).emails| == |steps|
    decreases |steps|
  {
    if steps != [] {
      OneAttemptPerRecord(cfg, steps[1..]);
    }
  }

  /** An SQS record whose message has no `Records` field sends nothing. */
  lemma NoRecordsNoSend(cfg: SesConfig, r: SqsRecord)
    requires r.body == Notification(None)
    ensures Dispatch(Steps([r]), RouteFor(cfg)) == Dispatched([], None)
  {
    assert [r][..0] == [];
  }

  /** Every email of a batch goes to `SES_EMAIL_TO` from `SES_EMAIL_FROM` with the subject "New image Upload". */
  lemma AllEmailsAddressed(cfg: SesConfig, steps: seq<Step>)
    ensures forall e :: e in Dispatch(steps, RouteFor(cfg)).emails ==>
      e.toAddresses == [cfg.emailTo] && e.source == cfg.emailFrom && e.subject == Subject
  {
    forall e | e in Dispatch(steps, RouteFor(cfg)).emails
      ensures e.toAddresses == [cfg.emailTo] && e.source == cfg.emailFrom && e.subject == Subject
    {
      var r :| Change(r) in steps && RouteFor(cfg)(r).Success? && e in RouteFor(cfg)(r).value;
      RouteAddressed(cfg, r, e);
    }
  }

  lemma RouteAddressed(cfg: SesConfig, r: S3Record, e: Email)
    requires Route(cfg, r).Success? && e in Route(cfg, r).value
    ensures e.toAddresses == [cfg.emailTo] && e.source == cfg.emailFrom && e.subject == Subject
  {
    RouteChoice(cfg, r, NormaliseKey(r.rawKey).value);
  }

  lemma VacationPhotoIsPng()
    ensures MailerAccepts("vacation photo.png")
  {
    PoppedSuffixOf("vacation photo", "png");
    assert "vacation photo" + "." + "png" == "vacation photo.png";
    assert Lower("png") == "png";
  }

  /** `vacation+photo.png` in bucket `b` is accepted, and its email carries the decoded key `vacation photo.png`. */
  lemma VacationPhotoAccepted(cfg: SesConfig)
    ensures Route(cfg, S3Record("ObjectCreated:Put", "b", "vacation+photo.png")) ==
      Success([AcceptanceEmail(cfg, "b", "vacation photo.png")])
  {
    PlusIsSpace("vacation", "photo.png");
    assert "vacation" + "+" + "photo.png" == "vacation+photo.png";
    assert "vacation" + " " + "photo.png" == "vacation photo.png";
    VacationPhotoIsPng();
    RouteChoice(cfg, S3Record("ObjectCreated:Put", "b", "vacation+photo.png"), "vacation photo.png");
  }
}
