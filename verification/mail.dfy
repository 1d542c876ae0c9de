/**
 * What the two mailers share: their configuration, the contact details and
 * HTML template they fill in, the outgoing email, the mail client, and the
 * walk over a batch that turns each storage-change record into zero or more
 * send attempts and stops at the first throw.
 */
module Mail {
  import opened Wrappers
  import opened Events

  /** `SES_EMAIL_FROM` and `SES_EMAIL_TO` from the deployment's env file. */
  datatype SesConfig = SesConfig(emailFrom: string, emailTo: string)

  datatype ContactDetails = ContactDetails(name: string, email: string, message: string)

  /** A `SendEmailCommandInput`; both of its charsets are "UTF-8". */
  datatype Email = Email(toAddresses: seq<string>, source: string, subject: string, htmlBody: string)

  /** The sender name both mailers put in the body. */
  const AlbumName: string := "The Photo Album"

  function HtmlHead(heading: string): string {
    "\n    <html>\n      <body>\n        <h2>" + heading + "</h2>\n        <ul>\n          <li style=\"font-size:18px\">\U{1F464} <b>"
  }

  const AfterName: string := "</b></li>\n          <li style=\"font-size:18px\">\U{2709}\U{FE0F} <b>"
  const AfterEmail: string := "</b></li>\n        </ul>\n        <p style=\"font-size:18px\">"
  const HtmlTail: string := "</p>\n      </body>\n    </html> \n  "

  /** Where the message starts in the body. */
  function MessageOffset(heading: string, c: ContactDetails): nat {
    |HtmlHead(heading)| + |c.name| + |AfterName| + |c.email| + |AfterEmail|
  }

  /**
   * `getHtmlContent`: name, email and message are embedded verbatim, with no
   * escaping, at fixed places of the template.
   */
  function HtmlContent(heading: string, c: ContactDetails): (html: string)
    ensures |html| == MessageOffset(heading, c) + |c.message| + |HtmlTail|
    ensures html[|HtmlHead(heading)|..|HtmlHead(heading)| + |c.name|] == c.name
    ensures html[|HtmlHead(heading)| + |c.name| + |AfterName|..|HtmlHead(heading)| + |c.name| + |AfterName| + |c.email|] == c.email
    ensures html[MessageOffset(heading, c)..MessageOffset(heading, c) + |c.message|] == c.message
    ensures html[..|HtmlHead(heading)|] == HtmlHead(heading)
    ensures html[|html| - |HtmlTail|..] == HtmlTail
  {
    var head := HtmlHead(heading);
    Pieces(head, c.name, AfterName, c.email, AfterEmail, c.message, HtmlTail);
    head + c.name + AfterName + c.email + AfterEmail + c.message + HtmlTail
  }

  /** Where the filled-in pieces of a template sit in the text they are joined into. */
  lemma Pieces(a: string, b: string, x: string, d: string, y: string, f: string, g: string)
    ensures var s := a + b + x + d + y + f + g;
      && |s| == |a| + |b| + |x| + |d| + |y| + |f| + |g|
      && s[..|a|] == a
      && s[|a|..|a| + |b|] == b
      && s[|a| + |b| + |x|..|a| + |b| + |x| + |d|] == d
      && s[|a| + |b| + |x| + |d| + |y|..|a| + |b| + |x| + |d| + |y| + |f|] == f
      && s[|s| - |g|..] == g
  {
    var s := a + b + x + d + y + f + g;
    var m := |a| + |b| + |x| + |d| + |y|;
    assert s == (a + b + x + d + y) + f + g;
    assert s[..|a|] == a;
    assert s[|a|..|a| + |b|] == b;
    assert s[|a| + |b| + |x|..|a| + |b| + |x| + |d|] == d;
    assert s[m..m + |f|] == f;
  }

  /**
   * `sendEmailParams` of both mailers, which differ only in the subject and
   * the heading: to `SES_EMAIL_TO` alone, from `SES_EMAIL_FROM`, the body
   * opening with the heading and showing the name, the email and the
   * message at their places.
   */
  function SendEmailParams(cfg: SesConfig, subject: string, heading: string, c: ContactDetails): (e: Email)
    ensures e.toAddresses == [cfg.emailTo] && e.source == cfg.emailFrom && e.subject == subject
    ensures |e.htmlBody| == MessageOffset(heading, c) + |c.message| + |HtmlTail|
    ensures e.htmlBody[..|HtmlHead(heading)|] == HtmlHead(heading)
    ensures e.htmlBody[|HtmlHead(heading)|..|HtmlHead(heading)| + |c.name|] == c.name
    ensures e.htmlBody[|HtmlHead(heading)| + |c.name| + |AfterName|..|HtmlHead(heading)| + |c.name| + |AfterName| + |c.email|] == c.email
    ensures e.htmlBody[MessageOffset(heading, c)..MessageOffset(heading, c) + |c.message|] == c.message
  {
    Email([cfg.emailTo], cfg.emailFrom, subject, HtmlContent(heading, c))
  }

  /**
   * A mailer's notice: to `SES_EMAIL_TO` alone, from `SES_EMAIL_FROM`, with
   * `subject`; the body opens with `heading`, shows the sender name
   * "The Photo Album" and `SES_EMAIL_FROM` as the contact, and carries
   * `message` verbatim at its place.
   */
  predicate Carries(e: Email, cfg: SesConfig, subject: string, heading: string, message: string) {
    && e.toAddresses == [cfg.emailTo] && e.source == cfg.emailFrom && e.subject == subject
    && var h := |HtmlHead(heading)|;
    && var m := MessageOffset(heading, ContactDetails(AlbumName, cfg.emailFrom, message));
    && m + |message| <= |e.htmlBody|
    && e.htmlBody[..h] == HtmlHead(heading)
    && e.htmlBody[h..h + |AlbumName|] == AlbumName
    && e.htmlBody[h + |AlbumName| + |AfterName|..h + |AlbumName| + |AfterName| + |cfg.emailFrom|] == cfg.emailFrom
    && e.htmlBody[m..m + |message|] == message
  }

  /** Two bodies built from the same template and sender but messages starting differently differ. */
  lemma HtmlDistinguishesMessages(heading: string, c: ContactDetails, d: ContactDetails)
    requires c.name == d.name && c.email == d.email
    requires c.message != [] && d.message != [] && c.message[0] != d.message[0]
    ensures HtmlContent(heading, c) != HtmlContent(heading, d)
  {
    var m := MessageOffset(heading, c);
    assert HtmlContent(heading, c)[m] == c.message[0];
    assert HtmlContent(heading, d)[m] == d.message[0];
  }

  /**
   * The SES client. Every call is an attempt; whether the provider accepts
   * it is not known in advance.
   */
  class Outbox {
    var attempted: seq<Email>
    var delivered: seq<Email>

    constructor ()
      ensures attempted == [] && delivered == []
    {
      attempted := [];
      delivered := [];
    }

    method Send(e: Email) returns (ok: bool)
      modifies this
      ensures attempted == old(attempted) + [e]
      ensures delivered == old(delivered) + (if ok then [e] else [])
    {
      ok := *;
      attempted := attempted + [e];
      if ok {
        delivered := delivered + [e];
      }
    }
  }

  /** The send attempts of a batch, and the fault that ended it early, if any. */
  datatype Dispatched = Dispatched(emails: seq<Email>, error: Option<Fault>)

  /**
   * A mailer's loops: each step in order, stopping at the first throw. Every
   * attempt is one its record's route asked for; a batch runs to the end
   * exactly when every message parses and every record's route succeeds; a
   * fault is an unreadable message's or some record's route's.
   */
  function Dispatch(steps: seq<Step>, route: S3Record -> Result<seq<Email>, Fault>): (d: Dispatched)
    ensures forall e :: e in d.emails ==> exists r :: Change(r) in steps && route(r).Success? && e in route(r).value
    ensures d.error.None? <==> Unreadable !in steps && forall r :: Change(r) in steps ==> route(r).Success?
    ensures d.error.Some? ==>
      (d.error.value == BadMessage && Unreadable in steps) || exists r :: Change(r) in steps && route(r) == Failure(d.error.value)
    decreases |steps|
  {
    if steps == [] then Dispatched([], None)
    else match steps[0]
      case Unreadable => Dispatched([], Some(BadMessage))
      case Change(r) =>
        match route(r)
        case Failure(f) => Dispatched([], Some(f))
        case Success(sent) =>
          var rest := Dispatch(steps[1..], route);
          Dispatched(sent + rest.emails, rest.error)
  }

  lemma {:induction false} DispatchAppend(a: seq<Step>, b: seq<Step>, route: S3Record -> Result<seq<Email>, Fault>)
    ensures Dispatch(a + b, route) ==
      if Dispatch(a, route).error.Some? then Dispatch(a, route)
      else Dispatched(Dispatch(a, route).emails + Dispatch(b, route).emails, Dispatch(b, route).error)
    decreases |a|
  {
    if a == [] {
      assert a + b == b;
    } else {
      assert (a + b)[1..] == a[1..] + b;
      DispatchAppend(a[1..], b, route);
      match a[0]
      case Unreadable =>
      case Change(r) =>
        match route(r)
        case Failure(_) =>
        case Success(sent) =>
          var x, y, z := sent, Dispatch(a[1..], route).emails, Dispatch(b, route).emails;
          assert x + (y + z) == (x + y) + z;
    }
  }

  /** Partial batches: the sends before a throwing step happened, the steps after it are not looked at. */
  lemma DispatchStopsAt(before: seq<Step>, s: Step, after: seq<Step>, route: S3Record -> Result<seq<Email>, Fault>, f: Fault)
    requires Dispatch(before, route).error.None?
    requires Dispatch([s], route) == Dispatched([], Some(f))
    ensures Dispatch(before + [s] + after, route) == Dispatched(Dispatch(before, route).emails, Some(f))
  {
    DispatchAppend(before, [s] + after, route);
    assert before + [s] + after == before + ([s] + after);
    assert ([s] + after)[1..] == after;
  }

  lemma DispatchFailsOn(r: S3Record, route: S3Record -> Result<seq<Email>, Fault>)
    requires route(r).Failure?
    ensures Dispatch([Change(r)], route) == Dispatched([], Some(route(r).error))
  {
  }

  lemma DispatchOneMore(before: seq<Step>, r: S3Record, route: S3Record -> Result<seq<Email>, Fault>)
    requires Dispatch(before, route).error.None? && route(r).Success?
    ensures Dispatch(before + [Change(r)], route) == Dispatched(Dispatch(before, route).emails + route(r).value, None)
  {
    DispatchAppend(before, [Change(r)], route);
    assert Dispatch([Change(r)], route) == Dispatched(route(r).value + [], None);
    assert route(r).value + [] == route(r).value;
  }

  /** The sends of one record, each failure caught and logged so that the loop goes on. */
  method SendAll(outbox: Outbox, emails: seq<Email>)
    modifies outbox
    ensures outbox.attempted == old(outbox.attempted) + emails
    ensures old(outbox.delivered) <= outbox.delivered
    ensures forall n :: |old(outbox.delivered)| <= n < |outbox.delivered| ==> outbox.delivered[n] in emails
  {
    ghost var sent0, delivered0 := outbox.attempted, outbox.delivered;
    for k := 0 to |emails|
      invariant outbox.attempted == sent0 + emails[..k]
      invariant delivered0 <= outbox.delivered
      invariant forall n :: |delivered0| <= n < |outbox.delivered| ==> outbox.delivered[n] in emails[..k]
    {
      var _ := outbox.Send(emails[k]);
      assert emails[..k + 1] == emails[..k] + [emails[k]];
    }
    assert emails[..|emails|] == emails;
  }

  /**
   * The sends of a batch so far, as the loop invariants of a mailer's
   * `handler` state them: the attempts are `emails` after `sent0`, and every
   * delivery after `delivered0` is one of them.
   */
  ghost predicate SentSoFar(attempted: seq<Email>, delivered: seq<Email>, sent0: seq<Email>, delivered0: seq<Email>, emails: seq<Email>) {
    && attempted == sent0 + emails
    && delivered0 <= delivered
    && forall k :: |delivered0| <= k < |delivered| ==> delivered[k] in emails
  }

  /** Sending `b` after the sends `a` so far leaves the sends `a + b` so far. */
  lemma SentMore(attempted: seq<Email>, delivered: seq<Email>, mid: seq<Email>, sent0: seq<Email>, delivered0: seq<Email>,
                 a: seq<Email>, b: seq<Email>)
    requires SentSoFar(sent0 + a, mid, sent0, delivered0, a)
    requires attempted == sent0 + a + b && mid <= delivered
    requires forall k :: |mid| <= k < |delivered| ==> delivered[k] in b
    ensures SentSoFar(attempted, delivered, sent0, delivered0, a + b)
  {
    forall k | |delivered0| <= k < |delivered|
      ensures delivered[k] in a + b
    {
      if k < |mid| {
        assert delivered[k] == mid[k];
      }
    }
  }

  /** Once a prefix of the steps has thrown, the steps after it change nothing. */
  lemma DispatchStopped(a: seq<Step>, b: seq<Step>, route: S3Record -> Result<seq<Email>, Fault>)
    requires Dispatch(a, route).error.Some?
    ensures Dispatch(a + b, route) == Dispatch(a, route)
  {
    DispatchAppend(a, b, route);
  }

  lemma RecordThrows(before: seq<Step>, records: seq<S3Record>, j: nat, route: S3Record -> Result<seq<Email>, Fault>)
    requires j < |records| && route(records[j]).Failure?
    requires Dispatch(before + Changes(records[..j]), route).error.None?
    ensures Dispatch(before + Changes(records), route) ==
      Dispatched(Dispatch(before + Changes(records[..j]), route).emails, Some(route(records[j]).error))
  {
    var done := before + Changes(records[..j]);
    ChangesAround(records, j);
    assert before + Changes(records) == done + [Change(records[j])] + Changes(records[j + 1..]);
    DispatchFailsOn(records[j], route);
    DispatchStopsAt(done, Change(records[j]), Changes(records[j + 1..]), route, route(records[j]).error);
  }

  lemma RecordSends(before: seq<Step>, records: seq<S3Record>, j: nat, route: S3Record -> Result<seq<Email>, Fault>)
    requires j < |records| && route(records[j]).Success?
    requires Dispatch(before + Changes(records[..j]), route).error.None?
    ensures Dispatch(before + Changes(records[..j + 1]), route) ==
      Dispatched(Dispatch(before + Changes(records[..j]), route).emails + route(records[j]).value, None)
  {
    ChangesPrefix(records, j);
    assert before + Changes(records[..j]) + [Change(records[j])] == before + Changes(records[..j + 1]);
    DispatchOneMore(before + Changes(records[..j]), records[j], route);
  }

  /** The inner loop of a mailer's `handler`: the storage-change records of one SQS record. */
  method HandleRecords(outbox: Outbox, records: seq<S3Record>, route: S3Record -> Result<seq<Email>, Fault>,
                       ghost before: seq<Step>, ghost sent0: seq<Email>, ghost delivered0: seq<Email>)
    returns (error: Option<Fault>)
    requires Dispatch(before, route).error.None?
    requires SentSoFar(outbox.attempted, outbox.delivered, sent0, delivered0, Dispatch(before, route).emails)
    modifies outbox
    ensures SentSoFar(outbox.attempted, outbox.delivered, sent0, delivered0, Dispatch(before + Changes(records), route).emails)
    ensures error == Dispatch(before + Changes(records), route).error
  {
    assert before + Changes(records[..0]) == before;
    for j := 0 to |records|
      invariant Dispatch(before + Changes(records[..j]), route).error.None?
      invariant SentSoFar(outbox.attempted, outbox.delivered, sent0, delivered0, Dispatch(before + Changes(records[..j]), route).emails)
    {
      var record := records[j];
      match route(record)
      case Failure(f) =>
        RecordThrows(before, records, j, route);
        return Some(f);
      case Success(emails) =>
        RecordSends(before, records, j, route);
        ghost var mid := outbox.delivered;
        SendAll(outbox, emails);
        SentMore(outbox.attempted, outbox.delivered, mid, sent0, delivered0, Dispatch(before + Changes(records[..j]), route).emails, emails);
    }
    assert records[..|records|] == records;
    error := None;
  }

  /** A mailer's `handler`, given how it routes one record. */
  method HandleBatch(outbox: Outbox, event: seq<SqsRecord>, route: S3Record -> Result<seq<Email>, Fault>)
    returns (error: Option<Fault>)
    modifies outbox
    ensures outbox.attempted == old(outbox.attempted) + Dispatch(Steps(event), route).emails
    ensures error == Dispatch(Steps(event), route).error
    ensures old(outbox.delivered) <= outbox.delivered
    ensures forall k :: |old(outbox.delivered)| <= k < |outbox.delivered| ==> outbox.delivered[k] in Dispatch(Steps(event), route).emails
  {
    ghost var sent0, delivered0 := outbox.attempted, outbox.delivered;
    for i := 0 to |event|
      invariant Dispatch(Steps(event[..i]), route).error.None?
      invariant SentSoFar(outbox.attempted, outbox.delivered, sent0, delivered0, Dispatch(Steps(event[..i]), route).emails)
    {
      StepsPrefix(event, i);
      StepsAround(event, i);
      match event[i].body
      case Unparseable =>
        DispatchStopsAt(Steps(event[..i]), Unreadable, Steps(event[i + 1..]), route, BadMessage);
        return Some(BadMessage);
      case Notification(None) =>
        assert Steps(event[..i]) + StepsOf(event[i]) == Steps(event[..i]);
      case Notification(Some(records)) =>
        error := HandleRecords(outbox, records, route, Steps(event[..i]), sent0, delivered0);
        if error.Some? {
          DispatchStopped(Steps(event[..i]) + Changes(records), Steps(event[i + 1..]), route);
          return;
        }
    }
    assert event[..|event|] == event;
    error := None;
  }
}
