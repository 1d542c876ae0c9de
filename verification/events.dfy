/**
 * The inbound event shapes of the S3-facing handlers, already parsed: an SQS
 * batch whose record bodies carry an SNS envelope whose `Message` is a list of
 * storage-change records. The nesting is flattened into one list of steps,
 * in the order the handlers' nested loops visit them.
 */
module Events {
  import opened Wrappers

  /** One storage-change record: `eventName`, `s3.bucket.name` and `s3.object.key` as delivered (still encoded). */
  datatype S3Record = S3Record(eventName: string, bucket: string, rawKey: string)

  /**
   * The body of one SQS record. `Unparseable`: `JSON.parse` of the body or of
   * its `Message` field throws, or reading `Records` of the result does (a
   * `null` message, a `Records` that cannot be iterated); all of them throw
   * before any inner record is handled. `Notification(None)`: the inner
   * message has no `Records` field.
   */
  datatype SqsBody = Unparseable | Notification(records: Option<seq<S3Record>>)

  datatype SqsRecord = SqsRecord(body: SqsBody)

  /** What a handler's nested loops visit: an SQS record it cannot parse, or one storage-change record. */
  datatype Step = Unreadable | Change(record: S3Record)

  /** What an S3-facing handler throws. */
  datatype Fault =
    | BadMessage                        // `JSON.parse` failed
    | BadKey                            // `decodeURIComponent` threw a URIError
    | UndeterminedType                  // "Could not determine the image type. "
    | UnsupportedType(imageType: string) // "Unsupported image type: <imageType>"

  function Changes(records: seq<S3Record>): (steps: seq<Step>)
    ensures |steps| == |records|
    ensures forall k :: 0 <= k < |records| ==> steps[k] == Change(records[k])
  {
    seq(|records|, k requires 0 <= k < |records| => Change(records[k]))
  }

  /** The steps of one outer record: one unreadable step, or the changes it lists. */
  function StepsOf(r: SqsRecord): (steps: seq<Step>)
    ensures Unreadable in steps <==> r.body == Unparseable
    ensures forall x :: Change(x) in steps ==> Lists(r, x)
  {
    match r.body
    case Unparseable => [Unreadable]
    case Notification(None) => []
    case Notification(Some(records)) => Changes(records)
  }

  /**
   * Every step of a batch, outer record by outer record. A step is
   * unreadable exactly where an outer record is, and every change comes from
   * the records some outer record lists.
   */
  function Steps(event: seq<SqsRecord>): (steps: seq<Step>)
    ensures Unreadable in steps <==> exists k :: 0 <= k < |event| && event[k].body == Unparseable
    ensures forall x :: Change(x) in steps ==> exists k :: 0 <= k < |event| && Lists(event[k], x)
  {
    if event == [] then []
    else
      var last := |event| - 1;
      assert forall k :: 0 <= k < last ==> event[..last][k] == event[k];
      Steps(event[..last]) + StepsOf(event[last])
  }

  /** The outer record lists the storage-change record `x`. */
  predicate Lists(r: SqsRecord, x: S3Record) {
    r.body.Notification? && r.body.records.Some? && x in r.body.records.value
  }

  /** `sub` occurs in `s` at index `i`. */
  predicate OccursAt(s: string, sub: string, i: int) {
    0 <= i && i + |sub| <= |s| && s[i..i + |sub|] == sub
  }

  /** `String.prototype.includes`: `sub` occurs somewhere in `s`. */
  predicate Contains(s: string, sub: string): (found: bool)
    ensures found <==> exists i :: OccursAt(s, sub, i)
    decreases |s|
  {
    if sub <= s then
      assert OccursAt(s, sub, 0);
      true
    else if s == [] then
      assert forall i :: !OccursAt(s, sub, i);
      false
    else
      OccurrenceShift(s, sub);
      Contains(s[1..], sub)
  }

  /** Away from the front, an occurrence in `s` is one in `s[1..]`, one place earlier. */
  lemma OccurrenceShift(s: string, sub: string)
    requires s != [] && !(sub <= s)
    ensures (exists i :: OccursAt(s, sub, i)) <==> (exists i :: OccursAt(s[1..], sub, i))
  {
    if i :| OccursAt(s, sub, i) {
      assert i != 0;
      assert s[1..][i - 1..i - 1 + |sub|] == s[i..i + |sub|];
      assert OccursAt(s[1..], sub, i - 1);
    }
    if i :| OccursAt(s[1..], sub, i) {
      assert s[1..][i..i + |sub|] == s[i + 1..i + 1 + |sub|];
      assert OccursAt(s, sub, i + 1);
    }
  }

  lemma {:induction false} StepsAppend(a: seq<SqsRecord>, b: seq<SqsRecord>)
    ensures Steps(a + b) == Steps(a) + Steps(b)
    decreases |b|
  {
    if b != [] {
      var b', last := b[..|b| - 1], b[|b| - 1];
      assert (a + b)[..|a + b| - 1] == a + b';
      assert (a + b)[|a + b| - 1] == last;
      assert Steps(b) == Steps(b') + StepsOf(last);
      assert Steps(a + b) == Steps(a + b') + StepsOf(last);
      StepsAppend(a, b');
    } else {
      assert a + b == a;
    }
  }

  lemma StepsPrefix(event: seq<SqsRecord>, i: nat)
    requires i < |event|
    ensures Steps(event[..i + 1]) == Steps(event[..i]) + StepsOf(event[i])
  {
    assert event[..i + 1][..i] == event[..i];
  }

  lemma StepsAround(event: seq<SqsRecord>, i: nat)
    requires i < |event|
    ensures Steps(event) == Steps(event[..i]) + StepsOf(event[i]) + Steps(event[i + 1..])
  {
    assert event == event[..i + 1] + event[i + 1..];
    StepsAppend(event[..i + 1], event[i + 1..]);
    StepsPrefix(event, i);
  }

  /** Where an unparseable outer record sits in the flattened steps. */
  lemma StepsAtUnreadable(event: seq<SqsRecord>, i: nat)
    requires i < |event| && event[i].body == Unparseable
    ensures Steps(event) == Steps(event[..i]) + [Unreadable] + Steps(event[i + 1..])
  {
    StepsAround(event, i);
  }

  lemma ChangesAround(records: seq<S3Record>, j: nat)
    requires j < |records|
    ensures Changes(records) == Changes(records[..j]) + [Change(records[j])] + Changes(records[j + 1..])
  {
  }

  /** Where the `j`-th inner record of the `i`-th outer record sits in the flattened steps. */
  lemma StepsAtChange(event: seq<SqsRecord>, i: nat, records: seq<S3Record>, j: nat)
    requires i < |event| && event[i].body == Notification(Some(records)) && j < |records|
    ensures Steps(event) ==
      (Steps(event[..i]) + Changes(records[..j])) + [Change(records[j])] + (Changes(records[j + 1..]) + Steps(event[i + 1..]))
  {
    StepsAround(event, i);
    assert StepsOf(event[i]) == Changes(records);
    ChangesAround(records, j);
    Regroup(Steps(event[..i]), Changes(records[..j]), [Change(records[j])], Changes(records[j + 1..]), Steps(event[i + 1..]));
  }

  lemma Regroup(a: seq<Step>, b: seq<Step>, c: seq<Step>, d: seq<Step>, e: seq<Step>)
    ensures a + (b + c + d) + e == (a + b) + c + (d + e)
  {
  }

  /** Inside the inner loop: one more storage-change record visited. */
  lemma ChangesPrefix(records: seq<S3Record>, j: nat)
    requires j < |records|
    ensures Changes(records[..j + 1]) == Changes(records[..j]) + [Change(records[j])]
  {
  }

  /** The inner loop finished: the outer record's steps are all visited. */
  lemma ChangesAll(r: SqsRecord, records: seq<S3Record>)
    requires r.body == Notification(Some(records))
    ensures StepsOf(r) == Changes(records[..|records|])
  {
    assert records[..|records|] == records;
  }
}
