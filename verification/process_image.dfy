/**
 * The catalog writer (lambdas/processImage.ts). For every storage-change
 * record of every SQS record, in order: a removal deletes the decoded key, a
 * creation of a `jpeg`/`png` key stores `{ImageName: key}`, any other
 * creation throws and the rest of the batch is not processed.
 */
module ProcessImage {
  import opened Wrappers
  import opened UriDecoding
  import opened FileType
  import opened Events
  import opened Catalog

  /** The table after a batch, and the fault that ended it early, if any. */
  datatype Run = Run(table: Table, error: Option<Fault>)

  /** The single-key change a record asks for: `Some(item)` stores the item, `None` deletes the key. */
  datatype Effect = NoEffect | SetKey(key: string, item: Option<Item>)

  /** The item a creation stores: nothing but its key. */
  function NewImage(key: string): (item: Item)
    ensures ImageName in item && item[ImageName] == key && item.Keys == {ImageName}
  {
    map[ImageName := key]
  }

  /**
   * One iteration of the inner loop, as a decision that does not depend on
   * the table. Only an undecodable key gives `BadKey`; a type fault needs a
   * creation that is not also a removal; a write stores `{ImageName: key}`
   * under a supported decoded key; a deletion needs a removal.
   */
  function RecordEffect(r: S3Record): (e: Result<Effect, Fault>)
    ensures e == Failure(BadKey) <==> NormaliseKey(r.rawKey).None?
    ensures e.Failure? && e.error != BadKey ==>
      Contains(r.eventName, "ObjectCreated") && !Contains(r.eventName, "ObjectRemoved")
    ensures e.Success? && e.value.SetKey? ==> NormaliseKey(r.rawKey) == Some(e.value.key)
    ensures e.Success? && e.value.SetKey? && e.value.item.Some? ==>
      ClassifyStrict(e.value.key) == Supported && e.value.item.value == NewImage(e.value.key)
    ensures e.Success? && e.value.SetKey? && e.value.item.None? ==> Contains(r.eventName, "ObjectRemoved")
  {
    match NormaliseKey(r.rawKey)
    case None => Failure(BadKey)
    case Some(key) =>
      if Contains(r.eventName, "ObjectRemoved") then Success(SetKey(key, None))
      else if Contains(r.eventName, "ObjectCreated") then
        match ClassifyStrict(key)
        case Undetermined => Failure(UndeterminedType)
        case Unsupported(imageType) => Failure(UnsupportedType(imageType))
        case Supported => Success(SetKey(key, Some(NewImage(key))))
      else Success(NoEffect)
  }

  function StepEffect(s: Step): Result<Effect, Fault> {
    match s
    case Unreadable => Failure(BadMessage)
    case Change(r) => RecordEffect(r)
  }

  function ApplyEffect(t: Table, e: Effect): Table {
    match e
    case NoEffect => t
    case SetKey(key, None) => DeleteItem(t, key)
    case SetKey(key, Some(item)) => t[key := item]
  }

  /**
   * One step on the table: whether it throws does not depend on the table;
   * it only ever adds `{ImageName: key}` under supported keys, and deletes
   * nothing but the step's decoded key.
   */
  function ApplyStep(t: Table, s: Step): (r: Result<Table, Fault>)
    ensures r.Failure? <==> StepEffect(s).Failure?
    ensures r.Failure? ==> r.error == StepEffect(s).error
    ensures r.Success? ==> OnlyNewImages(t, r.value)
    ensures r.Success? ==> forall k :: k in t && k !in r.value ==> s.Change? && NormaliseKey(s.record.rawKey) == Some(k)
  {
    match StepEffect(s)
    case Failure(f) => Failure(f)
    case Success(e) => Success(ApplyEffect(t, e))
  }

  /**
   * The handler's loops: steps in order, stopping at the first throw. The
   * fault is the first fault of the steps, whatever the table; every item
   * the batch adds or changes is `{ImageName: key}` under a supported key.
   */
  function Process(t: Table, steps: seq<Step>): (run: Run)
    ensures run.error == FirstFault(steps)
    ensures OnlyNewImages(t, run.table)
    decreases |steps|
  {
    if steps == [] then Run(t, None)
    else match ApplyStep(t, steps[0])
      case Failure(f) => Run(t, Some(f))
      case Success(t') =>
        var run := Process(t', steps[1..]);
        OnlyNewImagesTrans(t, t', run.table);
        run
  }

  /** Every item of `t'` that is new or different from `t` is `{ImageName: key}` under a supported key. */
  predicate OnlyNewImages(t: Table, t': Table) {
    forall k :: k in t' && (k !in t || t'[k] != t[k]) ==> ClassifyStrict(k) == Supported && t'[k] == NewImage(k)
  }

  lemma OnlyNewImagesTrans(t0: Table, t1: Table, t2: Table)
    requires OnlyNewImages(t0, t1) && OnlyNewImages(t1, t2)
    ensures OnlyNewImages(t0, t2)
  {
    forall k | k in t2 && (k !in t0 || t2[k] != t0[k])
      ensures ClassifyStrict(k) == Supported && t2[k] == NewImage(k)
    {
      if k in t1 && t2[k] == t1[k] {
        assert k !in t0 || t1[k] != t0[k];
      }
    }
  }

  // ---------------------------------------------------------------------
  // One record.

  /** A removal deletes the decoded key, even when the name also mentions a creation; nothing else changes. */
  lemma RemovalDeletes(t: Table, r: S3Record, key: string)
    requires NormaliseKey(r.rawKey) == Some(key) && Contains(r.eventName, "ObjectRemoved")
    ensures ApplyStep(t, Change(r)) == Success(DeleteItem(t, key))
  {
  }

  /** An event name mentioning neither kind of change leaves the table as it was. */
  lemma OtherEventsIgnored(t: Table, r: S3Record)
    requires NormaliseKey(r.rawKey).Some?
    requires !Contains(r.eventName, "ObjectRemoved") && !Contains(r.eventName, "ObjectCreated")
    ensures ApplyStep(t, Change(r)) == Success(t)
  {
  }

  /**
   * A creation either stores exactly `{ImageName: key}` over any previous
   * item, or throws without writing: "undetermined" for a key without a dot,
   * "unsupported" for any other suffix than `jpeg`/`png` in any case.
   */
  lemma CreationOutcome(t: Table, r: S3Record, key: string)
    requires NormaliseKey(r.rawKey) == Some(key)
    requires !Contains(r.eventName, "ObjectRemoved") && Contains(r.eventName, "ObjectCreated")
    ensures '.' !in key ==> ApplyStep(t, Change(r)) == Failure(UndeterminedType)
    ensures '.' in key && !MailerAccepts(key) ==> ApplyStep(t, Change(r)) == Failure(UnsupportedType(Lower(PoppedSuffix(key))))
    ensures '.' in key && MailerAccepts(key) ==> ApplyStep(t, Change(r)) == Success(PutItem(t, NewImage(key)))
  {
    SuffixVariantsAgree(key);
  }

  /** Undecodable keys and unreadable bodies throw before anything is written. */
  lemma MalformedInputThrows(t: Table, r: S3Record)
    requires NormaliseKey(r.rawKey).None?
    ensures ApplyStep(t, Change(r)) == Failure(BadKey)
    ensures ApplyStep(t, Unreadable) == Failure(BadMessage)
  {
  }

  /** Delivering the same record again changes nothing more. */
  lemma StepIdempotent(t: Table, s: Step)
    requires ApplyStep(t, s).Success?
    ensures ApplyStep(ApplyStep(t, s).value, s) == ApplyStep(t, s)
  {
    match StepEffect(s)
    case Success(SetKey(key, None)) =>
      assert DeleteItem(DeleteItem(t, key), key) == DeleteItem(t, key);
    case Success(SetKey(key, Some(item))) =>
      assert t[key := item][key := item] == t[key := item];
    case _ =>
  }

  // ---------------------------------------------------------------------
  // Batches.

  lemma {:induction false} ProcessAppend(t: Table, a: seq<Step>, b: seq<Step>)
    ensures Process(t, a + b) ==
      if Process(t, a).error.Some? then Process(t, a) else Process(Process(t, a).table, b)
    decreases |a|
  {
    if a != [] {
      assert (a + b)[1..] == a[1..] + b;
      match ApplyStep(t, a[0])
      case Failure(_) =>
      case Success(t') => ProcessAppend(t', a[1..], b);
    } else {
      assert a + b == b;
    }
  }

  /**
   * Partial batches: when a step throws, the steps before it have been
   * applied and the steps after it are not looked at.
   */
  lemma FailureStopsBatch(t: Table, before: seq<Step>, s: Step, after: seq<Step>)
    requires Process(t, before).error.None?
    requires ApplyStep(Process(t, before).table, s).Failure?
    ensures Process(t, before + [s] + after) ==
      Run(Process(t, before).table, Some(ApplyStep(Process(t, before).table, s).error))
  {
    ProcessAppend(t, before, [s] + after);
    assert before + [s] + after == before + ([s] + after);
  }

  lemma OneMoreStep(t: Table, before: seq<Step>, s: Step)
    requires Process(t, before).error.None?
    requires ApplyStep(Process(t, before).table, s).Success?
    ensures Process(t, before + [s]) == Run(ApplyStep(Process(t, before).table, s).value, None)
  {
    ProcessAppend(t, before, [s]);
  }

  /** What the steps write, key by key, up to the first throw; a later write to a key wins. */
  function Writes(steps: seq<Step>): map<string, Option<Item>>
    decreases |steps|
  {
    if steps == [] then map[]
    else match StepEffect(steps[0])
      case Failure(_) => map[]
      case Success(NoEffect) => Writes(steps[1..])
      case Success(SetKey(key, item)) => map[key := item] + Writes(steps[1..])
  }

  /** The first fault of the steps, independent of the table. */
  function FirstFault(steps: seq<Step>): Option<Fault>
    decreases |steps|
  {
    if steps == [] then None
    else match StepEffect(steps[0])
      case Failure(f) => Some(f)
      case Success(_) => FirstFault(steps[1..])
  }

  /** `t` with the writes `w` laid over it. */
  function Overlay(t: Table, w: map<string, Option<Item>>): Table {
    map k | k in t.Keys + w.Keys && (k in w ==> w[k].Some?) :: if k in w then w[k].value else t[k]
  }

  lemma OverlayTwice(t: Table, v: map<string, Option<Item>>, w: map<string, Option<Item>>)
    ensures Overlay(Overlay(t, v), w) == Overlay(t, v + w)
  {
  }

  lemma EffectIsOverlay(t: Table, key: string, item: Option<Item>)
    ensures ApplyEffect(t, SetKey(key, item)) == Overlay(t, map[key := item])
  {
  }

  /** A batch's result depends on the starting table only through the writes laid over it. */
  lemma {:induction false} ProcessIsOverlay(t: Table, steps: seq<Step>)
    ensures Process(t, steps) == Run(Overlay(t, Writes(steps)), FirstFault(steps))
    decreases |steps|
  {
    if steps == [] {
      assert Overlay(t, map[]) == t;
    } else {
      match StepEffect(steps[0])
      case Failure(_) =>
        assert Overlay(t, map[]) == t;
      case Success(NoEffect) =>
        ProcessIsOverlay(t, steps[1..]);
      case Success(SetKey(key, item)) =>
        ProcessIsOverlay(ApplyEffect(t, SetKey(key, item)), steps[1..]);
        EffectIsOverlay(t, key, item);
        OverlayTwice(t, map[key := item], Writes(steps[1..]));
    }
  }

  /**
   * Redelivery: processing a batch again on the table it produced, as after
   * a throw makes the transport deliver the whole batch once more, ends in
   * the same table and the same throw.
   */
  lemma BatchIdempotent(t: Table, steps: seq<Step>)
    ensures Process(Process(t, steps).table, steps) == Process(t, steps)
  {
    var w := Writes(steps);
    ProcessIsOverlay(t, steps);
    ProcessIsOverlay(Overlay(t, w), steps);
    OverlayTwice(t, w, w);
    assert w + w == w;
  }

  /** Only keys whose type passed validation are ever stored by the catalog writer. */
  predicate OnlySupported(t: Table) {
    forall k :: k in t ==> ClassifyStrict(k) == Supported
  }

  lemma {:induction false} ProcessKeepsInvariants(t: Table, steps: seq<Step>)
    requires WellFormed(t) && OnlySupported(t)
    ensures WellFormed(Process(t, steps).table) && OnlySupported(Process(t, steps).table)
    decreases |steps|
  {
    if steps != [] {
      match ApplyStep(t, steps[0])
      case Failure(_) =>
      case Success(t') => ProcessKeepsInvariants(t', steps[1..]);
    }
  }

  // ---------------------------------------------------------------------
  // The handler.

  /** `deleteImageFromDynamoDB`: a store failure would propagate; here the store does not fail. */
  method DeleteImageFromDynamoDB(db: ImagesTable, key: string)
    requires db.Valid()
    modifies db
    ensures db.Valid()
    ensures db.items == DeleteItem(old(db.items), key)
  {
    db.Delete(key);
  }

  /** One iteration of the inner loop: the key is decoded, then the event name and the file type decide. */
  method ProcessRecord(db: ImagesTable, record: S3Record) returns (error: Option<Fault>)
    requires db.Valid()
    modifies db
    ensures db.Valid()
    ensures error.None? ==> ApplyStep(old(db.items), Change(record)) == Success(db.items)
    ensures error.Some? ==> ApplyStep(old(db.items), Change(record)) == Failure(error.value) && db.items == old(db.items)
  {
    var decoded := NormaliseKey(record.rawKey);
    if decoded.None? {
      return Some(BadKey);
    }
    var srcKey := decoded.value;
    if Contains(record.eventName, "ObjectRemoved") {
      DeleteImageFromDynamoDB(db, srcKey);
    } else if Contains(record.eventName, "ObjectCreated") {
      var typeMatch := RegexSuffix(srcKey);
      if typeMatch.None? {
        return Some(UndeterminedType);
      }
      var imageType := Lower(typeMatch.value);
      if imageType != "jpeg" && imageType != "png" {
        return Some(UnsupportedType(imageType));
      }
      db.Put(NewImage(srcKey));
    }
    error := None;
  }

  /** The inner loop over the storage-change records of one SQS record, after the steps `before`. */
  method ProcessRecords(db: ImagesTable, ghost t0: Table, ghost before: seq<Step>, records: seq<S3Record>)
    returns (error: Option<Fault>)
    requires db.Valid()
    requires Process(t0, before) == Run(db.items, None)
    modifies db
    ensures db.Valid()
    ensures Process(t0, before + Changes(records)) == Run(db.items, error)
  {
    assert before + Changes(records[..0]) == before;
    for j := 0 to |records|
      invariant db.Valid()
      invariant Process(t0, before + Changes(records[..j])) == Run(db.items, None)
    {
      error := ProcessRecord(db, records[j]);
      if error.Some? {
        RecordStops(t0, before, records, j);
        return;
      }
      RecordExtends(t0, before, records, j);
    }
    assert records[..|records|] == records;
    error := None;
  }

  /** A record of the inner loop that goes through extends the run so far. */
  lemma RecordExtends(t0: Table, before: seq<Step>, records: seq<S3Record>, j: nat)
    requires j < |records|
    requires Process(t0, before + Changes(records[..j])).error.None?
    requires ApplyStep(Process(t0, before + Changes(records[..j])).table, Change(records[j])).Success?
    ensures Process(t0, before + Changes(records[..j + 1])) ==
      Run(ApplyStep(Process(t0, before + Changes(records[..j])).table, Change(records[j])).value, None)
  {
    var done := before + Changes(records[..j]);
    ChangesPrefix(records, j);
    assert done + [Change(records[j])] == before + Changes(records[..j + 1]);
    OneMoreStep(t0, done, Change(records[j]));
  }

  /** A record of the inner loop that throws ends the batch with the table as it was. */
  lemma RecordStops(t0: Table, before: seq<Step>, records: seq<S3Record>, j: nat)
    requires j < |records|
    requires Process(t0, before + Changes(records[..j])).error.None?
    requires ApplyStep(Process(t0, before + Changes(records[..j])).table, Change(records[j])).Failure?
    ensures Process(t0, before + Changes(records)) ==
      Run(Process(t0, before + Changes(records[..j])).table,
          Some(ApplyStep(Process(t0, before + Changes(records[..j])).table, Change(records[j])).error))
  {
    var done := before + Changes(records[..j]);
    ChangesAround(records, j);
    assert before + Changes(records) == done + [Change(records[j])] + Changes(records[j + 1..]);
    FailureStopsBatch(t0, done, Change(records[j]), Changes(records[j + 1..]));
  }

  /** `handler`: returns the fault it would throw, and leaves in `db` what it wrote before throwing. */
  method Handler(db: ImagesTable, event: seq<SqsRecord>) returns (error: Option<Fault>)
    requires db.Valid()
    modifies db
    ensures db.Valid()
    ensures Process(old(db.items), Steps(event)) == Run(db.items, error)
  {
    ghost var t0 := db.items;
    for i := 0 to |event|
      invariant db.Valid()
      invariant Process(t0, Steps(event[..i])) == Run(db.items, None)
    {
      StepsPrefix(event, i);
      match event[i].body
      case Unparseable =>
        StepsAtUnreadable(event, i);
        FailureStopsBatch(t0, Steps(event[..i]), Unreadable, Steps(event[i + 1..]));
        return Some(BadMessage);
      case Notification(None) =>
        assert Steps(event[..i]) + StepsOf(event[i]) == Steps(event[..i]);
      case Notification(Some(records)) =>
        error := ProcessRecords(db, t0, Steps(event[..i]), records);
        ChangesAll(event[i], records);
        assert records[..|records|] == records;
        if error.Some? {
          StepsAround(event, i);
          ProcessAppend(t0, Steps(event[..i]) + StepsOf(event[i]), Steps(event[i + 1..]));
          return;
        }
    }
    assert event[..|event|] == event;
    error := None;
  }
}
