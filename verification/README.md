# Image-ingestion pipeline handlers, modelled in Dafny

This project models the four Lambda handlers of a photo-album ingestion pipeline:

- **Catalog writer** (`lambdas/processImage.ts`). It reads S3 change notifications that arrive as SNS envelopes inside SQS records. It deletes the decoded object key from the `Images` table on `ObjectRemoved`. On `ObjectCreated` it stores `{ImageName: key}` when the file type is `jpeg` or `png`, and throws otherwise.
- **Notification mailer** (`lambdas/mailer.ts`). It sends one acceptance or rejection email per storage-change record.
- **Rejection mailer** (`lambdas/rejectionMailer.ts`). It sends an email only for records whose file type is rejected.
- **Metadata updater** (`lambdas/updateTable.ts`). It applies a whitelisted attribute `SET` (`Caption`, `Date`, `Photographer`) to the item keyed by `id`.

Modelling choices:

- The DynamoDB table is a class holding a `map<string, map<string, string>>` (`Catalog.ImagesTable`).
- The SES client is a class recording every send attempt and the deliveries that succeeded (`Mail.Outbox`). Whether a send succeeds is left open (`ok := *`).
- Each handler is a method whose nested loops follow the source. Each is proved equal to a pure fold over the flattened list of records:
  - `ProcessImage.Process` for the catalog writer;
  - `Mail.Dispatch` for both mailers;
  - `UpdateTable.ApplyAll` for the metadata updater.
- The lemmas are stated about these folds.
- A thrown exception is a `Failure`/`Some(fault)` result. The state written before the throw is kept, as in the source.

Files:

| file | module | contents |
|---|---|---|
| `wrappers.dfy` | `Wrappers` | `Option`, `Result` |
| `uri.dfy` | `UriDecoding` | `+`-to-space, `decodeURIComponent` with UTF-8, the inverse encoder, round trip |
| `filetype.dfy` | `FileType` | `split('.').pop()`, the `/\.([^.]*)$/` match, lower-casing, both classifiers |
| `events.dfy` | `Events` | S3/SQS record shapes, the flattened step list, thrown faults |
| `catalog.dfy` | `Catalog` | the `Images` table: put, delete, attribute `SET` |
| `process_image.dfy` | `ProcessImage` | catalog writer |
| `mail.dfy` | `Mail` | shared email template, outbox, batch dispatch loop |
| `mailer.dfy` | `Mailer` | notification mailer |
| `rejection_mailer.dfy` | `RejectionMailer` | rejection mailer |
| `update_table.dfy` | `UpdateTable` | metadata updater |

Behaviours of the code that the model keeps as written:

- The notification mailer never reads the event name, so a removal is notified too (`Mailer.RouteIgnoresEventName`).
- The mailers classify a key without a dot by its whole text, so a key `PNG` is accepted. The catalog writer throws "Could not determine the image type." for it (`FileType.DotlessKeyDiverges`).
- In the metadata updater, an unparseable message throws and ends the batch (`lambdas/updateTable.ts:8`), before the whitelist is consulted (`UpdateTable.ParseBeforeWhitelist`).
- An attribute `SET` on an unknown id creates the item, which is the store's default behaviour. So an item can exist whose key never passed type validation (`UpdateTable.UpdateMayCreateUnvalidatedItem`).

## Model

| member | source | states |
|---|---|---|
| `UriDecoding.PlusToSpace` | lambdas/processImage.ts:23 | every `+` of the raw key becomes a space and no `+` is left; a key without `+` is unchanged |
| `UriDecoding.NormaliseEncodedKey` | lambdas/processImage.ts:23 | for every key, `+`-to-space followed by percent/UTF-8 decoding recovers the key from `EncodeKey`, an encoding in the notification's convention (space as `+`, RFC 3986 unreserved characters kept, everything else as `%XY` UTF-8 octets) |
| `UriDecoding.Utf8RoundTrip` | lambdas/mailer.ts:34-35 | every Unicode scalar value's UTF-8 octets announce their own length in the lead octet and decode back to the same character |
| `UriDecoding.DecodeComponent` | lambdas/processImage.ts:23 | text without `%` decodes to itself; a successful decoding is never longer than its input (each `%XY` triplet or UTF-8 run of triplets shrinks to one character); when it throws is stated by `BadPercentFails` and `StrayLeadFails` |
| `UriDecoding.BadPercentFails` | lambdas/processImage.ts:23 | for every input, a `%` anywhere that is not followed by two hex digits makes the decoding a URIError |
| `UriDecoding.BadPercentKeyThrows` | lambdas/mailer.ts:35 | for every raw key, such a `%` makes the normalised key a URIError: the `+` replacement touches neither `%` nor hex digits |
| `UriDecoding.StrayLeadFails` | lambdas/rejectionMailer.ts:34 | after any `%`-free text, a triplet whose octet cannot start a UTF-8 sequence (0x80-0xBF, or 0xF8 and above) is a URIError |
| `UriDecoding.NormaliseKey` | lambdas/processImage.ts:23 | a raw key without `%` never throws and decodes to itself with every `+` read as a space; a decoded key is never longer than the raw key |
| `UriDecoding.PlusIsSpace` | lambdas/processImage.ts:23 | for any `p` and `q` free of `%` and `+`, `p+q` normalises to `p q` |
| `UriDecoding.EncodedPlusIsPlus` | lambdas/processImage.ts:23 | for any `p` and `q` free of `%` and `+`, `p%2Bq` normalises to `p+q`: `+` is replaced before decoding, so an encoded plus stays a plus |
| `UriDecoding.DecodePlainPrefix` | lambdas/processImage.ts:23 | text without `%` passes through decoding unchanged, in front of whatever the rest decodes to |
| `UriDecoding.BarePercentThrows` | lambdas/mailer.ts:35 | `50%.png`, with a `%` not followed by two hex digits, throws a URIError |
| `UriDecoding.OverlongFormThrows` | lambdas/mailer.ts:35 | `%C0%AF.png`, the overlong UTF-8 form of `/`, throws a URIError |
| `UriDecoding.TruncatedSequenceThrows` | lambdas/mailer.ts:35 | `%E2%82.png`, a three-octet sequence cut short, throws a URIError |
| `FileType.Split` | lambdas/mailer.ts:37 | `split` yields at least one piece and no piece contains the separator |
| `FileType.JoinSplit` | lambdas/mailer.ts:37 | joining the pieces of `split` with the separator gives the original string |
| `FileType.PoppedSuffix` | lambdas/mailer.ts:37 | `pop()` returns dot-free text: the whole key when it has no dot, otherwise text that the key ends with, right after a dot |
| `FileType.SearchFrom` | lambdas/processImage.ts:32 | scanning from `i`, the match fails exactly when no dot occurs at or after `i`, and otherwise captures dot-free text that the key ends with, right after a dot |
| `FileType.RegexSuffix` | lambdas/processImage.ts:32-33 | the regular expression fails exactly on keys with no dot, and otherwise captures the dot-free text after the last dot |
| `FileType.Lower` | lambdas/processImage.ts:37 | every ASCII capital becomes its lower-case letter and every other character is kept, position by position |
| `FileType.ClassifyStrict` | lambdas/processImage.ts:32-41 | the catalog writer finds the type undetermined iff the key has no dot, and accepts it iff it has a dot and the mailers accept it; a reported unsupported type is never `jpeg` or `png` |
| `FileType.MailerAccepts` | lambdas/mailer.ts:37-40 | the mailers accept a key with a dot iff the lower-cased regex capture is `jpeg` or `png`, and a key without one iff the lower-cased whole key is |
| `FileType.SuffixVariantsAgree` | lambdas/processImage.ts:32-37 | on a key with a dot the regex capture equals `split('.').pop()`; on a key without one the regex fails and `pop()` returns the whole key |
| `FileType.DotlessKeyDiverges` | lambdas/mailer.ts:37-40 | the key `PNG` is accepted by the mailers and undetermined for the catalog writer |
| `FileType.RegexSuffixOf` | lambdas/processImage.ts:32 | for any prefix, the capture of `p.x` with dot-free `x` is `x` |
| `FileType.PoppedSuffixOf` | lambdas/rejectionMailer.ts:35 | for any prefix, `pop()` of `p.x` with dot-free `x` is `x` |
| `FileType.SuffixCaseIgnored` | lambdas/processImage.ts:37-38 | `p.PNG` and `p.JpEg` are supported for any prefix `p`: the suffix is lower-cased before comparison |
| `FileType.JpgIsUnsupported` | lambdas/processImage.ts:38-41 | `jpg` is unsupported, reported as `jpg` |
| `FileType.TrailingDotIsUnsupported` | lambdas/processImage.ts:32-41 | a trailing dot gives the empty suffix, which is unsupported rather than undetermined |
| `FileType.LastDotCounts` | lambdas/processImage.ts:32-41 | `archive.png.pdf` is judged by `pdf` only |
| `Events.Contains` | lambdas/processImage.ts:28-30 | `includes` holds exactly when the text occurs at some position of the event name |
| `Events.Steps` | lambdas/processImage.ts:13-21 | the flattened batch has an unreadable step iff some SQS record's body does not parse, and every storage-change step comes from the `Records` of some SQS record |
| `Catalog.PutItem` | lambdas/processImage.ts:42-49 | the put item replaces whatever was stored under its key; every other key is unchanged |
| `Catalog.DeleteItem` | lambdas/processImage.ts:76-88 | the key is absent afterwards whether or not it existed; every other key is unchanged |
| `Catalog.SetAttribute` | lambdas/updateTable.ts:23-37 | the one cell `(key, attr)` holds the value; the item's other attributes and all other items are unchanged; a missing item is created as `{ImageName: key, attr: value}` |
| `Catalog.PutKeepsWellFormed` | lambdas/processImage.ts:42-49 | putting an item keyed by its own `ImageName` keeps every item's `ImageName` equal to its key |
| `Catalog.SetKeepsWellFormed` | lambdas/updateTable.ts:26-32 | a `SET` of any attribute other than the key keeps every item's `ImageName` equal to its key |
| `Catalog.ImagesTable.Put` | lambdas/processImage.ts:42-49 | the table afterwards is the old table with the item put |
| `Catalog.ImagesTable.Delete` | lambdas/processImage.ts:84-85 | the table afterwards is the old table without the key |
| `Catalog.ImagesTable.Update` | lambdas/updateTable.ts:37 | the table afterwards is the old table with the attribute set (upsert) |
| `ProcessImage.NewImage` | lambdas/processImage.ts:45-47 | a created item holds exactly one attribute, `ImageName`, equal to the key |
| `ProcessImage.RecordEffect` | lambdas/processImage.ts:22-49 | only an undecodable key throws a URIError; a type error needs a creation that is not a removal; a write stores `{ImageName: key}` under the decoded, supported key; a deletion needs `ObjectRemoved` |
| `ProcessImage.ApplyStep` | lambdas/processImage.ts:15-49 | whether a step throws, and what, does not depend on the table; it adds or changes only `{ImageName: key}` under supported keys and deletes nothing but its own decoded key |
| `ProcessImage.Process` | lambdas/processImage.ts:13-53 | a batch throws the first fault of its steps, whatever the table; every item it adds or changes is `{ImageName: key}` under a supported key |
| `ProcessImage.RemovalDeletes` | lambdas/processImage.ts:28-29 | an event name containing `ObjectRemoved` deletes the decoded key, even if it also contains `ObjectCreated` |
| `ProcessImage.OtherEventsIgnored` | lambdas/processImage.ts:28-30 | an event name containing neither substring leaves the table unchanged |
| `ProcessImage.CreationOutcome` | lambdas/processImage.ts:30-49 | a creation throws "undetermined" for a key without a dot and "unsupported: <lower-cased suffix>" for a suffix other than jpeg/png, writing nothing; otherwise it puts exactly `{ImageName: key}` |
| `ProcessImage.MalformedInputThrows` | lambdas/processImage.ts:15-23 | an unparseable body or an undecodable key throws before anything is written |
| `ProcessImage.StepIdempotent` | lambdas/processImage.ts:42-49 | applying the same record again to the table it produced gives the same table |
| `ProcessImage.ProcessAppend` | lambdas/processImage.ts:13-53 | processing `a + b` is processing `a`, then `b` on its table unless `a` threw |
| `ProcessImage.FailureStopsBatch` | lambdas/processImage.ts:13-41 | when a record throws, the records before it are applied and the records after it are untouched |
| `ProcessImage.ProcessIsOverlay` | lambdas/processImage.ts:13-53 | a batch's table is the starting table overlaid with the batch's per-key last writes up to the first throw; the throw does not depend on the table |
| `ProcessImage.BatchIdempotent` | lambdas/processImage.ts:13-53 | redelivering a whole batch on the table it produced gives the same table and the same throw |
| `ProcessImage.ProcessKeepsInvariants` | lambdas/processImage.ts:32-49 | if every stored key has a supported type and carries its own `ImageName`, that stays true after any batch |
| `ProcessImage.DeleteImageFromDynamoDB` | lambdas/processImage.ts:76-89 | the decoded key is deleted from the table |
| `ProcessImage.ProcessRecord` | lambdas/processImage.ts:22-49 | one storage-change record: a throw leaves the table untouched and is the fault `ApplyStep` names; otherwise the table becomes what `ApplyStep` gives |
| `ProcessImage.ProcessRecords` | lambdas/processImage.ts:21-52 | the inner loop extends the run so far exactly as `Process` over the records' steps says, stopping at the first throw |
| `ProcessImage.Handler` | lambdas/processImage.ts:11-58 | the nested loops leave the table and the thrown fault exactly as `Process` over the flattened records says |
| `Mail.HtmlContent` | lambdas/mailer.ts:102-115 | name, email and message are embedded verbatim, without escaping, at fixed offsets between the template's head and tail |
| `Mail.HtmlDistinguishesMessages` | lambdas/mailer.ts:102-115 | bodies for the same sender whose messages start with different characters differ |
| `Mail.Outbox.Send` | lambdas/mailer.ts:48 | every call is recorded as an attempt; it is delivered only if the provider accepts it |
| `Mail.Dispatch` | lambdas/mailer.ts:25-75 | every send attempt is one the route of some storage-change record asked for; a batch runs to the end iff every message parses and every route succeeds; a fault is an unreadable message's or some route's |
| `Mail.DispatchAppend` | lambdas/mailer.ts:25-75 | the sends of `a + b` are those of `a`, followed by those of `b` unless `a` threw |
| `Mail.DispatchStopsAt` | lambdas/mailer.ts:25-35 | a throwing record keeps the earlier sends and skips every later record |
| `Mail.SendAll` | lambdas/mailer.ts:41-54 | every email is attempted in order; a failed send does not stop the rest |
| `Mail.HandleRecords` | lambdas/mailer.ts:31-73 | the inner loop attempts exactly the emails `Dispatch` gives for the records and throws what it throws |
| `Mail.HandleBatch` | lambdas/mailer.ts:25-75 | the nested loops attempt exactly the emails of `Dispatch` over the flattened records, and throw its fault |
| `Mail.SendEmailParams` | lambdas/mailer.ts:79-99 | the email goes to `[SES_EMAIL_TO]` alone from `SES_EMAIL_FROM`, under the mailer's subject; the body opens with the template head and heading, and shows the contact's name, email and message verbatim at their places |
| `Mailer.AcceptanceEmail` | lambdas/mailer.ts:41-48 | the acceptance notice goes to `[SES_EMAIL_TO]` from `SES_EMAIL_FROM` with subject "New image Upload"; the body opens with the heading "Sent from: ", shows "The Photo Album" and `SES_EMAIL_FROM` as the contact, and carries `We received your Image. Its URL is s3://bucket/key` verbatim at the message's place |
| `Mailer.RejectionEmail` | lambdas/mailer.ts:58-65 | the rejection notice has the same addressing, subject, heading and contact ("The Photo Album", `SES_EMAIL_FROM`) and carries `Image key has been rejected because of an invalid file type` verbatim at the message's place |
| `Mailer.Route` | lambdas/mailer.ts:32-72 | a record throws exactly when its key does not decode, and otherwise yields exactly one send attempt |
| `Mailer.RouteChoice` | lambdas/mailer.ts:37-62 | a key accepted by `split/pop/lower` gets the acceptance email with `s3://bucket/key`, every other key gets the rejection email |
| `Mailer.RouteIgnoresEventName` | lambdas/mailer.ts:31-40 | the event name plays no part in what is sent |
| `Mailer.AcceptanceIsNotRejection` | lambdas/mailer.ts:45-62 | the acceptance and rejection emails for a key are different |
| `Mailer.OneAttemptPerRecord` | lambdas/mailer.ts:31-72 | a batch that does not throw makes exactly one send attempt per storage-change record |
| `Mailer.NoRecordsNoSend` | lambdas/mailer.ts:29 | an inner message without `Records` sends nothing and does not throw |
| `Mailer.AllEmailsAddressed` | lambdas/mailer.ts:79-99 | every email of a batch is addressed to `[SES_EMAIL_TO]` from `SES_EMAIL_FROM` with subject "New image Upload" |
| `Mailer.RouteAddressed` | lambdas/mailer.ts:41-65 | every email one record's route asks for is addressed to `[SES_EMAIL_TO]` from `SES_EMAIL_FROM` with subject "New image Upload" |
| `Mailer.VacationPhotoIsPng` | lambdas/mailer.ts:37-40 | `vacation photo.png` is accepted by the mailers |
| `Mailer.VacationPhotoAccepted` | lambdas/mailer.ts:35-45 | the raw key `vacation+photo.png` gets the acceptance email for the decoded key `vacation photo.png` |
| `Mailer.Handler` | lambdas/mailer.ts:23-76 | the handler attempts exactly the emails of `Dispatch` with `Route`, swallows send failures and throws only what `Dispatch` throws |
| `RejectionMailer.RejectionEmail` | lambdas/rejectionMailer.ts:36-42 | the notice goes to `[SES_EMAIL_TO]` from `SES_EMAIL_FROM` with subject "Regection Notification"; the body opens with the heading "Rejection Details:", shows "The Photo Album" and `SES_EMAIL_FROM` as the contact, and carries `Image key has been regected. It is an invalid file type` verbatim at the message's place |
| `RejectionMailer.Route` | lambdas/rejectionMailer.ts:31-46 | a record throws exactly when its key does not decode; otherwise it yields at most one email, one exactly when the type is not jpeg/png, and that email is the rejection notice for the decoded key |
| `RejectionMailer.RouteRejects` | lambdas/rejectionMailer.ts:34-42 | every email one record's route asks for is a rejection notice, addressed to `[SES_EMAIL_TO]` from `SES_EMAIL_FROM` with subject "Regection Notification" |
| `RejectionMailer.SendsWhereMailerRejects` | lambdas/rejectionMailer.ts:34-36 | both mailers throw on the same records, and this one sends exactly where the notification mailer sends its rejection email |
| `RejectionMailer.AllEmailsAreRejections` | lambdas/rejectionMailer.ts:36-42 | every email of a batch is a rejection notice addressed to `[SES_EMAIL_TO]` from `SES_EMAIL_FROM` with subject "Regection Notification" |
| `RejectionMailer.AtMostOneAttemptPerRecord` | lambdas/rejectionMailer.ts:30-46 | a batch makes at most one send attempt per storage-change record |
| `RejectionMailer.NoRecordsNoSend` | lambdas/rejectionMailer.ts:28 | an inner message without `Records` sends nothing and does not throw |
| `RejectionMailer.Handler` | lambdas/rejectionMailer.ts:19-50 | the handler attempts exactly the emails of `Dispatch` with `Route`, swallows send failures and throws only what `Dispatch` throws |
| `UpdateTable.IsValidMetadataType` | lambdas/updateTable.ts:5-12 | a tag passes exactly when it is `Caption`, `Date` or `Photographer`, matched case-sensitively; none of them is the key attribute `ImageName` |
| `UpdateTable.ApplyRecord` | lambdas/updateTable.ts:8-20 | a record throws on bad JSON whatever its tag, and on `null` only when its tag passes; the table changes only for a passing tag with non-empty `id` and `value`; no item is removed and every item keeps `ImageName` equal to its key |
| `UpdateTable.ApplyAll` | lambdas/updateTable.ts:7-21 | a batch runs to the end iff none of its records throws, whatever the table; no item is removed; every item keeps `ImageName` equal to its key after any batch |
| `UpdateTable.UnlistedTypeIgnored` | lambdas/updateTable.ts:10-14 | an absent, empty or unlisted attribute tag leaves the table unchanged |
| `UpdateTable.CaseSensitive` | lambdas/updateTable.ts:12 | `caption` and `DATE` are not whitelisted, `Photographer` is |
| `UpdateTable.IncompleteRequestIgnored` | lambdas/updateTable.ts:15-20 | a missing or empty `id` or `value` leaves the table unchanged |
| `UpdateTable.ParseBeforeWhitelist` | lambdas/updateTable.ts:8-14 | an unparseable message throws whatever its tag |
| `UpdateTable.AcceptedRequestSetsCell` | lambdas/updateTable.ts:18-37 | an accepted request sets only the cell `(id, tag)`; the item's other attributes and all other items are unchanged; an unknown id is created as `{ImageName: id, tag: value}` |
| `UpdateTable.RecordIdempotent` | lambdas/updateTable.ts:29-35 | applying the same record again to the table it produced gives the same table |
| `UpdateTable.DuplicateDeliveryIdempotent` | lambdas/updateTable.ts:7-21 | a batch of the same request twice ends like a batch of it once |
| `UpdateTable.UpdateMayCreateUnvalidatedItem` | lambdas/updateTable.ts:23-37 | an update for the dot-less id `notes` creates an item whose key the catalog writer would find undetermined |
| `UpdateTable.ApplyAllAppend` | lambdas/updateTable.ts:7-21 | processing `a + b` is processing `a`, then `b` on its table unless `a` threw |
| `UpdateTable.LaterValueWins` | lambdas/updateTable.ts:7-21 | after any prefix, an accepted record's value is the one the cell holds |
| `UpdateTable.UpdateTableItem` | lambdas/updateTable.ts:23-38 | the table afterwards is the old table with the attribute set on the keyed item (upsert) |
| `UpdateTable.Handler` | lambdas/updateTable.ts:6-22 | the loop, with its `continue` filtering, leaves the table and the thrown fault exactly as `ApplyAll` says |

## Left out

- JSON parsing: record bodies and SNS messages are taken as parsed datatypes. A parse failure is an explicit variant (`SqsBody.Unparseable`, `MetadataMessage.Unparseable`). A body that parses without a `Message` field falls under `Unparseable`, because `JSON.parse(undefined)` throws.
- A `Message` that parses to JSON `null`, or a `Records` value that cannot be iterated, has no variant of its own. Either throws a TypeError (lambdas/processImage.ts:20-23, lambdas/mailer.ts:29-32, lambdas/rejectionMailer.ts:28-31) before any record of that SQS record is handled, and the model expresses it as `SqsBody.Unparseable`, which throws at the same point.
- Missing `s3`, `bucket`, `object`, `key` or `eventName` fields, and their `TypeError`s: every storage-change record carries them as strings.
- Non-string JSON values for `id`, `value` or the `metadata_type` attribute: these are strings or absent. A truthy number, for example, is not modelled.
- AWS SDK calls: the DynamoDB table never fails, so the propagation of store errors (lambdas/processImage.ts:84-88) is not modelled. Whether an SES send succeeds is a nondeterministic choice.
- Client construction and marshalling options (lambdas/processImage.ts:63-75), the table name `Images`, the `UTF-8` charset fields of the email, region settings, the environment-variable guards and all console logging.
- async/await, batching windows, retries, redelivery, the dead-letter queue and the two competing consumers of the mailer queue. The model is sequential. Redelivery appears only as re-running a batch (`ProcessImage.BatchIdempotent`).
- lib/eda-app-stack.ts is not part of this model. In the deployed wiring only `OBJECT_CREATED` notifications reach the handlers, and `updateTable` is not subscribed. The handlers are modelled as written, removal branch included.
- `UriDecoding.DecodeComponent` produces Unicode scalar values (Dafny characters), not UTF-16 code units. A code point above U+FFFF is one character, not a surrogate pair. A lone surrogate in the input cannot be represented.
- `FileType.Lower` lower-cases ASCII letters only. No non-ASCII character lower-cases to a letter of `jpeg` or `png`, so acceptance is unaffected. Only the `imageType` text of the "Unsupported image type" error can differ from the source for non-ASCII suffixes.
- `Mail.HandleBatch` states which emails were delivered only as a growth of the delivered list whose new entries are among the attempts. It does not state the exact subsequence that the provider accepted. The same holds for `Mailer.Handler` and `RejectionMailer.Handler`.
