/**
 * The metadata updater (lambdas/updateTable.ts): each SNS record names an
 * attribute in its `metadata_type` message attribute and carries `{id,
 * value}` in its JSON message; a whitelisted attribute with a non-empty id
 * and value is `SET` on the item keyed by the id, anything else is skipped.
 */
module UpdateTable {
  import opened Wrappers
  import opened FileType
  import opened Catalog

  /** `validMetadataTypes` */
  const ValidMetadataTypes: seq<string> := ["Caption", "Date", "Photographer"]

  /**
   * `JSON.parse(record.Sns.Message)`. `Unparseable`: the parse throws.
   * `JsonNull`: the message is the JSON literal `null`, which parses but
   * cannot be destructured. `Fields`: any other JSON value, read for its `id`
   * and `value` string fields (`None` when absent).
   */
  datatype MetadataMessage = Unparseable | JsonNull | Fields(id: Option<string>, value: Option<string>)

  /** `record.Sns.Message` and `record.Sns.MessageAttributes?.metadata_type?.Value`. */
  datatype SnsRecord = SnsRecord(message: MetadataMessage, metadataType: Option<string>)

  /** What the handler throws: a `SyntaxError` from the parse, a `TypeError` from destructuring `null`. */
  datatype UpdateFault = BadJson | NullMessage

  /** The table after a batch, and the fault that ended it early, if any. */
  datatype UpdateRun = UpdateRun(table: Table, error: Option<UpdateFault>)

  /** `metadataType && validMetadataTypes.includes(metadataType)`: present, non-empty and exactly one of the three names. */
  predicate IsValidMetadataType(tag: Option<string>): (ok: bool)
    ensures ok <==> tag == Some("Caption") || tag == Some("Date") || tag == Some("Photographer")
    ensures ok ==> tag.value != ImageName
  {
    tag.Some? && tag.value != "" && tag.value in ValidMetadataTypes
  }

  /** The truthiness of an optional string field. */
  predicate Present(v: Option<string>) {
    v.Some? && v.value != ""
  }

  /**
   * One iteration of the handler's loop. It throws on bad JSON whatever the
   * tag, and on `null` only once the tag is accepted; the table changes only
   * for an accepted tag with a non-empty id and value; no item is ever
   * removed, and every item keeps its own key.
   */
  function ApplyRecord(t: Table, r: SnsRecord): (res: Result<Table, UpdateFault>)
    ensures res.Failure? <==> r.message.Unparseable? || (r.message.JsonNull? && IsValidMetadataType(r.metadataType))
    ensures res.Failure? ==> res.error == if r.message.Unparseable? then BadJson else NullMessage
    ensures res.Success? && res.value != t ==>
      IsValidMetadataType(r.metadataType) && r.message.Fields? && Present(r.message.id) && Present(r.message.value)
    ensures res.Success? ==> t.Keys <= res.value.Keys
    ensures res.Success? && WellFormed(t) ==> WellFormed(res.value)
  {
    if r.message.Unparseable? then Failure(BadJson)
    else if !IsValidMetadataType(r.metadataType) then Success(t)
    else if r.message.JsonNull? then Failure(NullMessage)
    else if Present(r.message.id) && Present(r.message.value) then
      SetKeepsWellFormed(t, r.message.id.value, r.metadataType.value, r.message.value.value);
      Success(SetAttribute(t, r.message.id.value, r.metadataType.value, r.message.value.value))
    else Success(t)
  }

  /**
   * The handler's loop: records in order, stopping at the first throw. It runs
   * to the end exactly when no record throws, whatever the table; no item is
   * removed, and every item keeps its own key under `ImageName`, because no
   * whitelisted name is the key attribute.
   */
  function ApplyAll(t: Table, records: seq<SnsRecord>): (run: UpdateRun)
    ensures run.error.None? <==>
      forall r :: r in records ==> !r.message.Unparseable? && !(r.message.JsonNull? && IsValidMetadataType(r.metadataType))
    ensures t.Keys <= run.table.Keys
    ensures WellFormed(t) ==> WellFormed(run.table)
    decreases |records|
  {
    if records == [] then UpdateRun(t, None)
    else match ApplyRecord(t, records[0])
      case Failure(f) => UpdateRun(t, Some(f))
      case Success(t') => ApplyAll(t', records[1..])
  }

  // ---------------------------------------------------------------------
  // One record.

  /** An absent, empty or unlisted attribute name (matched case-sensitively) leaves the table unchanged. */
  lemma UnlistedTypeIgnored(t: Table, r: SnsRecord)
    requires !r.message.Unparseable? && !IsValidMetadataType(r.metadataType)
    ensures ApplyRecord(t, r) == Success(t)
  {
  }

  lemma CaseSensitive()
    ensures !IsValidMetadataType(Some("caption")) && !IsValidMetadataType(Some("DATE"))
    ensures IsValidMetadataType(Some("Photographer"))
  {
  }

  /** A missing or empty id or value leaves the table unchanged. */
  lemma IncompleteRequestIgnored(t: Table, r: SnsRecord)
    requires r.message.Fields? && !(Present(r.message.id) && Present(r.message.value))
    ensures ApplyRecord(t, r) == Success(t)
  {
  }

  /** The message is parsed before the whitelist is consulted, so bad JSON throws whatever the tag. */
  lemma ParseBeforeWhitelist(t: Table, r: SnsRecord)
    requires r.message.Unparseable?
    ensures ApplyRecord(t, r) == Failure(BadJson)
  {
  }

  /**
   * An accepted request changes the one cell `(id, metadataType)` and nothing
   * else, creating the item when the id is unknown.
   */
  lemma AcceptedRequestSetsCell(t: Table, r: SnsRecord, id: string, tag: string, value: string)
    requires r == SnsRecord(Fields(Some(id), Some(value)), Some(tag))
    requires IsValidMetadataType(Some(tag)) && id != "" && value != ""
    ensures ApplyRecord(t, r).Success?
    ensures var t' := ApplyRecord(t, r).value;
      && id in t' && tag in t'[id] && t'[id][tag] == value
      && (id in t ==> forall a :: a != tag ==> (a in t'[id] <==> a in t[id]))
      && (id in t ==> forall a :: a != tag && a in t[id] ==> t'[id][a] == t[id][a])
      && (id !in t ==> t'[id] == map[ImageName := id, tag := value])
      && (forall k :: k != id ==> (k in t' <==> k in t))
      && (forall k :: k != id && k in t ==> t'[k] == t[k])
  {
  }

  /** Delivering the same record again changes nothing more. */
  lemma RecordIdempotent(t: Table, r: SnsRecord)
    requires ApplyRecord(t, r).Success?
    ensures ApplyRecord(ApplyRecord(t, r).value, r) == ApplyRecord(t, r)
  {
    if IsValidMetadataType(r.metadataType) && r.message.Fields? && Present(r.message.id) && Present(r.message.value) {
      var id, tag, value := r.message.id.value, r.metadataType.value, r.message.value.value;
      var t' := SetAttribute(t, id, tag, value);
      assert t'[id][tag := value] == t'[id];
      assert t'[id := t'[id][tag := value]] == t';
    }
  }

  /** A metadata update can create an item for a key the catalog writer would never have stored. */
  lemma UpdateMayCreateUnvalidatedItem()
    ensures var t := ApplyRecord(map[], SnsRecord(Fields(Some("notes"), Some("x")), Some("Caption")));
      t.Success? && "notes" in t.value && ClassifyStrict("notes") == Undetermined
  {
    assert "Caption" in ValidMetadataTypes;
    SuffixVariantsAgree("notes");
  }

  // ---------------------------------------------------------------------
  // Batches.

  lemma {:induction false} ApplyAllAppend(t: Table, a: seq<SnsRecord>, b: seq<SnsRecord>)
    ensures ApplyAll(t, a + b) ==
      if ApplyAll(t, a).error.Some? then ApplyAll(t, a) else ApplyAll(ApplyAll(t, a).table, b)
    decreases |a|
  {
    if a != [] {
      assert (a + b)[1..] == a[1..] + b;
      match ApplyRecord(t, a[0])
      case Failure(_) =>
      case Success(t') => ApplyAllAppend(t', a[1..], b);
    } else {
      assert a + b == b;
    }
  }

  /** The same request delivered twice leaves the table as one delivery does. */
  lemma DuplicateDeliveryIdempotent(t: Table, r: SnsRecord)
    ensures ApplyAll(t, [r, r]) == ApplyAll(t, [r])
  {
    assert [r, r][1..] == [r];
    if ApplyRecord(t, r).Success? {
      RecordIdempotent(t, r);
    }
  }

  /** Records are applied in order: for the same id and attribute, the later accepted record's value is the one kept. */
  lemma LaterValueWins(t: Table, before: seq<SnsRecord>, r: SnsRecord, id: string, tag: string, value: string)
    requires ApplyAll(t, before).error.None?
    requires r == SnsRecord(Fields(Some(id), Some(value)), Some(tag))
    requires IsValidMetadataType(Some(tag)) && id != "" && value != ""
    ensures ApplyAll(t, before + [r]).error.None?
    ensures id in ApplyAll(t, before + [r]).table && tag in ApplyAll(t, before + [r]).table[id]
    ensures ApplyAll(t, before + [r]).table[id][tag] == value
  {
    ApplyAllAppend(t, before, [r]);
    AcceptedRequestSetsCell(ApplyAll(t, before).table, r, id, tag, value);
  }

  // ---------------------------------------------------------------------
  // The handler.

  /** `updateTable`: `SET #attr = :value` on the item keyed by `id`. */
  method UpdateTableItem(db: ImagesTable, id: string, metadataType: string, value: string)
    requires db.Valid() && metadataType in ValidMetadataTypes
    modifies db
    ensures db.Valid()
    ensures db.items == SetAttribute(old(db.items), id, metadataType, value)
  {
    db.Update(id, metadataType, value);
  }

  /** `handler`: returns the fault it would throw, and leaves in `db` what it wrote before throwing. */
  method Handler(db: ImagesTable, event: seq<SnsRecord>) returns (error: Option<UpdateFault>)
    requires db.Valid()
    modifies db
    ensures db.Valid()
    ensures ApplyAll(old(db.items), event) == UpdateRun(db.items, error)
  {
    ghost var t0 := db.items;
    for i := 0 to |event|
      invariant db.Valid()
      invariant ApplyAll(t0, event[..i]) == UpdateRun(db.items, None)
    {
      var record := event[i];
      ApplyAllAppend(t0, event[..i], [record]);
      ApplyAllAppend(t0, event[..i], event[i..]);
      assert event[..i + 1] == event[..i] + [record];
      assert event == event[..i] + event[i..];
      if record.message.Unparseable? {
        return Some(BadJson);
      }
      var metadataType := record.metadataType;
      if metadataType.None? || metadataType.value == "" || metadataType.value !in ValidMetadataTypes {
        continue;
      }
      if record.message.JsonNull? {
        return Some(NullMessage);
      }
      var id, value := record.message.id, record.message.value;
      if id.Some? && id.value != "" && value.Some? && value.value != "" {
        UpdateTableItem(db, id.value, metadataType.value, value.value);
      }
    }
    assert event[..|event|] == event;
    error := None;
  }
}
