/**
 * `BigSqsClient`: a queue client that moves payloads over a size threshold to
 * the blob store and sends a pointer record in their place, resolves pointer
 * records on receipt, and deletes the stored payload when the message that
 * pointed to it is deleted.
 */
module BigSqs {
  import opened Wrappers
  import Utf8
  import Json
  import Loops
  import opened Services

  /** `MAX_SQS_MESSAGE_SIZE`, the default size threshold in bytes. */
  const MaxSqsMessageSize: int := 262144

  /** The Java package of the extended client library whose pointer format this client shares. */
  const JavaPackage: string := "com.amazon.sqs.javamessaging"

  /** The fully qualified Java class name that marks a body as a pointer record. */
  const PointerTag: string := JavaPackage + "." + "MessageS3Pointer"
  const BucketField: string := "s3BucketName"
  const KeyField: string := "s3Key"

  /** What the client sees go wrong while resolving a pointer. */
  datatype Error =
    | NoSuchKey(at: Location)  // get_object on a missing object
    | InvalidParameter         // a bucket or key in a pointer that is not a string
    | InvalidUtf8              // stored bytes that are not UTF-8
    | IntegerTooLong           // the ValueError json.loads raises past the integer digit limit

  /** The settings fixed at construction. */
  datatype Config = Config(queueUrl: string, bucketName: string, sizeThreshold: int)

  // ---------------------------------------------------------------------------
  // The pointer record

  /** The body `json.dumps` writes for the pointer to `key` in `bucket`. */
  function PointerBody(bucket: string, key: string): string {
    Json.DumpsList([
      Json.DumpsString(PointerTag),
      Json.DumpsDict([(BucketField, Json.DumpsString(bucket)), (KeyField, Json.DumpsString(key))])])
  }

  /** The value that body stands for. */
  function PointerRecord(bucket: string, key: string): Json.Json {
    Json.Arr([Json.Str(PointerTag), Json.Obj(map[BucketField := Json.Str(bucket), KeyField := Json.Str(key)])])
  }

  /** Parsing a sent pointer body gives back the pointer record. */
  lemma PointerRoundTrip(bucket: string, key: string)
    ensures Json.Loads(PointerBody(bucket, key)) == Json.Decoded(PointerRecord(bucket, key))
  {
    Json.LoadsStringAndDict(PointerTag, BucketField, bucket, KeyField, key);
  }

  // ---------------------------------------------------------------------------
  // is_s3_pointer

  /** A two-element list: the tag, then a dict holding both pointer fields. */
  predicate IsPointerShape(v: Json.Json) {
    && v.Arr? && |v.items| == 2
    && v.items[0] == Json.Str(PointerTag)
    && v.items[1].Obj? && BucketField in v.items[1].fields && KeyField in v.items[1].fields
  }

  /**
   * `is_s3_pointer` as written: it handles only the decode error, so the
   * ValueError for an over-long integer escapes to the caller.
   */
  function IsS3PointerAsWritten(body: string): (r: Result<bool, Error>)
    ensures r.Failure? <==> Json.Loads(body) == Json.IntDigitsError
    ensures r == Success(true) ==> Json.Loads(body).Decoded? && IsPointerShape(Json.Loads(body).value)
  {
    match Json.Loads(body)
    case Decoded(v) => Success(IsPointerShape(v))
    case DecodeError => Success(false)
    case IntDigitsError => Failure(IntegerTooLong)
  }

  /**
   * `is_s3_pointer` as intended: every failure to parse means "not a pointer".
   * It agrees with the code as written wherever that returns at all.
   */
  function IsS3Pointer(body: string): (r: bool)
    ensures r <==> IsS3PointerAsWritten(body) == Success(true)
    ensures IsS3PointerAsWritten(body).Success? ==> IsS3PointerAsWritten(body).value == r
  {
    match Json.Loads(body)
    case Decoded(v) => IsPointerShape(v)
    case _ => false
  }

  /** A sent pointer body is recognised as a pointer. */
  lemma PointerDetected(bucket: string, key: string)
    ensures IsS3Pointer(PointerBody(bucket, key))
  {
    PointerLocation(bucket, key);
  }

  /** Whitespace before a body does not change whether it is a pointer. */
  lemma PointerIgnoresLeadingWhitespace(w: string, body: string)
    requires forall i | 0 <= i < |w| :: Json.IsWs(w[i])
    ensures IsS3Pointer(w + body) == IsS3Pointer(body)
  {
    Json.LoadsSkipsLeadingWhitespace(w, body);
  }

  /** Plain text that is no JSON at all is not a pointer. */
  lemma PlainTextIsNoPointer()
    ensures !IsS3Pointer("just some text")
  {
    var s := "just some text";
    assert s[0] == 'j';
    Json.LoadsNoValue(s);
  }

  /** A JSON string, valid but of the wrong shape, is not a pointer. */
  lemma JsonStringIsNoPointer()
    ensures !IsS3Pointer(Json.DumpsString("just some text"))
  {
    Json.LoadsString("just some text");
  }

  /** The tag followed by something other than a dict is not a pointer. */
  lemma TagWithoutDictIsNoPointer()
    ensures !IsS3Pointer(Json.DumpsList([Json.DumpsString(PointerTag), Json.DumpsString("not-a-dict")]))
  {
    Json.LoadsStringList(PointerTag, "not-a-dict");
  }

  /** A long enough run of digits makes the code as written raise, where the intended check says "no". */
  lemma LongIntegerBody(n: nat)
    requires n > Json.MaxIntDigits
    ensures IsS3PointerAsWritten(seq(n, _ => '1')) == Failure(IntegerTooLong)
    ensures !IsS3Pointer(seq(n, _ => '1'))
  {
    Json.LongIntegerRejected(seq(n, _ => '1'));
  }

  /** The binding recorded for a pointer message: the two field values, whatever JSON they are. */
  datatype Binding = Binding(bucket: Json.Json, key: Json.Json)

  /** The bucket and key a pointer body carries. */
  function PointerBinding(body: string): (b: Binding)
    requires IsS3Pointer(body)
    ensures Json.Loads(body).value.items[1].fields[BucketField] == b.bucket
    ensures Json.Loads(body).value.items[1].fields[KeyField] == b.key
  {
    var fields := Json.Loads(body).value.items[1].fields;
    Binding(fields[BucketField], fields[KeyField])
  }

  /** The object a binding names; None when a field is not a string, which boto3 refuses. */
  function LocationOf(b: Binding): (r: Option<Location>)
    ensures r.Some? <==> b.bucket.Str? && b.key.Str?
    ensures r.Some? ==> Json.Str(r.value.bucket) == b.bucket && Json.Str(r.value.key) == b.key
  {
    if b.bucket.Str? && b.key.Str? then Some(Location(b.bucket.s, b.key.s)) else None
  }

  /** A sent pointer binds the bucket and key it was written with. */
  lemma PointerLocation(bucket: string, key: string)
    ensures IsS3Pointer(PointerBody(bucket, key))
    ensures LocationOf(PointerBinding(PointerBody(bucket, key))) == Some(Location(bucket, key))
  {
    PointerRoundTrip(bucket, key);
    RecordLocation(PointerBody(bucket, key), bucket, key);
  }

  /** Any body that decodes to the pointer record binds its bucket and key. */
  lemma RecordLocation(body: string, bucket: string, key: string)
    requires Json.Loads(body) == Json.Decoded(PointerRecord(bucket, key))
    ensures IsS3Pointer(body)
    ensures LocationOf(PointerBinding(body)) == Some(Location(bucket, key))
  {
    var fields := map[BucketField := Json.Str(bucket), KeyField := Json.Str(key)];
    assert KeyField in fields && BucketField in fields;
    assert fields[KeyField] == Json.Str(key);
    assert fields[BucketField] == Json.Str(bucket);
  }

  // ---------------------------------------------------------------------------
  // send_message and send_messages, as functions of the inputs

  /** The arguments of one `send_message`: the payload, attributes and group id (None when not given). */
  datatype Outgoing = Outgoing(message: string, attributes: Option<Attributes>, groupId: Option<string>)

  /** The ids `uuid4` supplies for one send: the payload id, and the group id used when none is given. */
  datatype FreshIds = FreshIds(payloadId: string, groupId: string)

  predicate Oversize(config: Config, message: string) {
    Utf8.Utf8Len(message) > config.sizeThreshold
  }

  /** The body put on the queue. */
  function OutgoingBody(config: Config, message: string, payloadId: string): string {
    if Oversize(config, message) then PointerBody(config.bucketName, payloadId) else message
  }

  /** The request one `send_message` makes of the queue. */
  function SendRequestFor(config: Config, item: Outgoing, ids: FreshIds): SendRequest {
    SendRequest(
      config.queueUrl,
      ids.payloadId,
      item.groupId.GetOr(ids.groupId),
      item.attributes.GetOr(map[]),
      OutgoingBody(config, item.message, ids.payloadId))
  }

  /** The blob store after one `send_message`. */
  function StoreAfterSend(objects: map<Location, StoredObject>, config: Config, message: string, payloadId: string)
    : map<Location, StoredObject>
  {
    if Oversize(config, message)
    then objects[Location(config.bucketName, payloadId) := StoredObject(Utf8.Encode(message), "text/plain")]
    else objects
  }

  /** At or under the threshold the payload is the body, verbatim, and nothing is stored. */
  lemma InlineSend(config: Config, item: Outgoing, ids: FreshIds, objects: map<Location, StoredObject>)
    requires Utf8.Utf8Len(item.message) <= config.sizeThreshold
    ensures SendRequestFor(config, item, ids).body == item.message
    ensures StoreAfterSend(objects, config, item.message, ids.payloadId) == objects
  {
  }

  /**
   * Over the threshold exactly one object is written, under the payload id in
   * the configured bucket, holding the payload's bytes; the body is the
   * pointer to it, and reads as a pointer to that very object.
   */
  lemma OversizeSend(config: Config, item: Outgoing, ids: FreshIds, objects: map<Location, StoredObject>)
    requires Utf8.Utf8Len(item.message) > config.sizeThreshold
    ensures var at := Location(config.bucketName, ids.payloadId);
      && StoreAfterSend(objects, config, item.message, ids.payloadId)
         == objects[at := StoredObject(Utf8.Encode(item.message), "text/plain")]
      && Utf8.Decode(StoreAfterSend(objects, config, item.message, ids.payloadId)[at].content) == Some(item.message)
      && SendRequestFor(config, item, ids).body == PointerBody(config.bucketName, ids.payloadId)
      && IsS3Pointer(SendRequestFor(config, item, ids).body)
      && LocationOf(PointerBinding(SendRequestFor(config, item, ids).body)) == Some(at)
  {
    OversizeStore(config, item.message, ids.payloadId, objects);
    OversizeBody(config, item, ids);
    PointerLocation(config.bucketName, ids.payloadId);
  }

  lemma OversizeStore(config: Config, message: string, payloadId: string, objects: map<Location, StoredObject>)
    requires Utf8.Utf8Len(message) > config.sizeThreshold
    ensures var at := Location(config.bucketName, payloadId);
      && StoreAfterSend(objects, config, message, payloadId)
         == objects[at := StoredObject(Utf8.Encode(message), "text/plain")]
      && Utf8.Decode(StoreAfterSend(objects, config, message, payloadId)[at].content) == Some(message)
  {
    Utf8.DecodeEncode(message);
  }

  lemma OversizeBody(config: Config, item: Outgoing, ids: FreshIds)
    requires Utf8.Utf8Len(item.message) > config.sizeThreshold
    ensures SendRequestFor(config, item, ids).body == PointerBody(config.bucketName, ids.payloadId)
  {
  }

  /** The payload id is the deduplication id; the group id and attributes take their defaults only when not given. */
  lemma SendIds(config: Config, item: Outgoing, ids: FreshIds)
    ensures SendRequestFor(config, item, ids).queueUrl == config.queueUrl
    ensures SendRequestFor(config, item, ids).deduplicationId == ids.payloadId
    ensures item.groupId.Some? ==> SendRequestFor(config, item, ids).groupId == item.groupId.value
    ensures item.groupId.None? ==> SendRequestFor(config, item, ids).groupId == ids.groupId
    ensures item.attributes.Some? ==> SendRequestFor(config, item, ids).attributes == item.attributes.value
    ensures item.attributes.None? ==> SendRequestFor(config, item, ids).attributes == map[]
  {
  }

  /** The requests of a batch, one per item and in order. */
  function BatchRequests(config: Config, items: seq<Outgoing>, ids: seq<FreshIds>): seq<SendRequest>
    requires |items| == |ids|
  {
    seq(|items|, i requires 0 <= i < |items| => SendRequestFor(config, items[i], ids[i]))
  }

  /** The blob store after the sends of a batch, one after the other. */
  function BatchStore(objects: map<Location, StoredObject>, config: Config, items: seq<Outgoing>, ids: seq<FreshIds>)
    : map<Location, StoredObject>
    requires |items| == |ids|
  {
    if |items| == 0 then objects
    else StoreAfterSend(
      BatchStore(objects, config, items[..|items| - 1], ids[..|ids| - 1]),
      config, items[|items| - 1].message, ids[|ids| - 1].payloadId)
  }

  /** One more item adds its request at the end. */
  lemma BatchRequestsSnoc(config: Config, items: seq<Outgoing>, ids: seq<FreshIds>, i: nat)
    requires |items| == |ids| && i < |items|
    ensures BatchRequests(config, items[..i + 1], ids[..i + 1])
         == BatchRequests(config, items[..i], ids[..i]) + [SendRequestFor(config, items[i], ids[i])]
  {
    var longer := BatchRequests(config, items[..i + 1], ids[..i + 1]);
    var shorter := BatchRequests(config, items[..i], ids[..i]);
    var last := SendRequestFor(config, items[i], ids[i]);
    forall j | 0 <= j <= i
      ensures longer[j] == (shorter + [last])[j]
    {
      if j < i {
        assert items[..i + 1][j] == items[..i][j] && ids[..i + 1][j] == ids[..i][j];
      }
    }
    assert longer == shorter + [last];
  }

  /** One more item applies its send to the store left by the others. */
  lemma BatchStoreSnoc(objects: map<Location, StoredObject>, config: Config, items: seq<Outgoing>, ids: seq<FreshIds>, i: nat)
    requires |items| == |ids| && i < |items|
    ensures BatchStore(objects, config, items[..i + 1], ids[..i + 1])
         == StoreAfterSend(BatchStore(objects, config, items[..i], ids[..i]), config, items[i].message, ids[i].payloadId)
  {
    assert items[..i + 1][..i] == items[..i] && ids[..i + 1][..i] == ids[..i];
  }

  /** The queue log after one more send of a batch. */
  lemma SentStep(log: seq<SendRequest>, before: seq<SendRequest>, after: seq<SendRequest>,
                 config: Config, items: seq<Outgoing>, ids: seq<FreshIds>, i: nat)
    requires |items| == |ids| && i < |items|
    requires before == log + BatchRequests(config, items[..i], ids[..i])
    requires after == before + [SendRequestFor(config, items[i], ids[i])]
    ensures after == log + BatchRequests(config, items[..i + 1], ids[..i + 1])
  {
    BatchRequestsSnoc(config, items, ids, i);
  }

  /** The blob store after one more send of a batch. */
  lemma StoreStep(objects: map<Location, StoredObject>, before: map<Location, StoredObject>,
                  after: map<Location, StoredObject>, config: Config, items: seq<Outgoing>, ids: seq<FreshIds>, i: nat)
    requires |items| == |ids| && i < |items|
    requires before == BatchStore(objects, config, items[..i], ids[..i])
    requires after == StoreAfterSend(before, config, items[i].message, ids[i].payloadId)
    ensures after == BatchStore(objects, config, items[..i + 1], ids[..i + 1])
  {
    BatchStoreSnoc(objects, config, items, ids, i);
  }

  /** Where a batch puts the payload of item `i`. */
  function PayloadLocation(config: Config, ids: seq<FreshIds>, i: nat): Location
    requires i < |ids|
  {
    Location(config.bucketName, ids[i].payloadId)
  }

  /** The payload of item `i` of a batch sits in `store`, as its bytes. */
  ghost predicate PayloadStored(store: map<Location, StoredObject>, config: Config, items: seq<Outgoing>, ids: seq<FreshIds>, i: nat)
    requires i < |items| == |ids|
  {
    && PayloadLocation(config, ids, i) in store
    && store[PayloadLocation(config, ids, i)] == StoredObject(Utf8.Encode(items[i].message), "text/plain")
  }

  /** No oversize item of a batch writes its payload at `at`. */
  ghost predicate NotWritten(at: Location, config: Config, items: seq<Outgoing>, ids: seq<FreshIds>)
    requires |items| == |ids|
  {
    forall i | 0 <= i < |items| && Oversize(config, items[i].message) :: at != PayloadLocation(config, ids, i)
  }

  /** With distinct payload ids, every oversize item of a batch finds its payload stored. */
  lemma {:induction false} BatchStorePayloads(
    objects: map<Location, StoredObject>, config: Config, items: seq<Outgoing>, ids: seq<FreshIds>)
    requires |items| == |ids|
    requires forall i, j | 0 <= i < j < |ids| :: ids[i].payloadId != ids[j].payloadId
    ensures forall i | 0 <= i < |items| && Oversize(config, items[i].message) ::
      PayloadStored(BatchStore(objects, config, items, ids), config, items, ids, i)
    decreases |items|
  {
    if |items| > 0 {
      var n := |items| - 1;
      BatchStorePayloads(objects, config, items[..n], ids[..n]);
      PayloadsStep(BatchStore(objects, config, items[..n], ids[..n]), config, items, ids);
    }
  }

  lemma PayloadsStep(before: map<Location, StoredObject>, config: Config, items: seq<Outgoing>, ids: seq<FreshIds>)
    requires |items| == |ids| > 0
    requires forall i, j | 0 <= i < j < |ids| :: ids[i].payloadId != ids[j].payloadId
    requires var n := |items| - 1;
      forall i | 0 <= i < n && Oversize(config, items[..n][i].message) :: PayloadStored(before, config, items[..n], ids[..n], i)
    ensures var n := |items| - 1;
      forall i | 0 <= i < |items| && Oversize(config, items[i].message) ::
        PayloadStored(StoreAfterSend(before, config, items[n].message, ids[n].payloadId), config, items, ids, i)
  {
    var n := |items| - 1;
    forall i | 0 <= i < |items| && Oversize(config, items[i].message)
      ensures PayloadStored(StoreAfterSend(before, config, items[n].message, ids[n].payloadId), config, items, ids, i)
    {
      if i < n {
        assert items[..n][i] == items[i] && ids[..n][i] == ids[i];
        assert PayloadStored(before, config, items[..n], ids[..n], i);
        assert ids[i].payloadId != ids[n].payloadId;
        StoreAfterSendElsewhere(before, config, items[n].message, ids[n].payloadId, PayloadLocation(config, ids, i));
      }
    }
  }

  /** A send stores nothing outside its own payload's location. */
  lemma StoreAfterSendElsewhere(before: map<Location, StoredObject>, config: Config, message: string, payloadId: string,
                                at: Location)
    requires at != Location(config.bucketName, payloadId)
    ensures var after := StoreAfterSend(before, config, message, payloadId);
      (at in after <==> at in before) && (at in before ==> after[at] == before[at])
  {
  }

  /** Every object no oversize item of a batch was written over is left as it was. */
  lemma {:induction false} BatchStoreKeeps(
    objects: map<Location, StoredObject>, config: Config, items: seq<Outgoing>, ids: seq<FreshIds>)
    requires |items| == |ids|
    ensures forall at | at in objects && NotWritten(at, config, items, ids) ::
      at in BatchStore(objects, config, items, ids) && BatchStore(objects, config, items, ids)[at] == objects[at]
    decreases |items|
  {
    if |items| > 0 {
      var n := |items| - 1;
      BatchStoreKeeps(objects, config, items[..n], ids[..n]);
      KeepsStep(objects, BatchStore(objects, config, items[..n], ids[..n]), config, items, ids);
    }
  }

  lemma KeepsStep(objects: map<Location, StoredObject>, before: map<Location, StoredObject>,
                  config: Config, items: seq<Outgoing>, ids: seq<FreshIds>)
    requires |items| == |ids| > 0
    requires var n := |items| - 1;
      forall at | at in objects && NotWritten(at, config, items[..n], ids[..n]) :: at in before && before[at] == objects[at]
    ensures var n := |items| - 1;
      var after := StoreAfterSend(before, config, items[n].message, ids[n].payloadId);
      forall at | at in objects && NotWritten(at, config, items, ids) :: at in after && after[at] == objects[at]
  {
    var n := |items| - 1;
    forall at | at in objects && NotWritten(at, config, items, ids)
      ensures NotWritten(at, config, items[..n], ids[..n])
    {
      forall i | 0 <= i < n && Oversize(config, items[..n][i].message)
        ensures at != PayloadLocation(config, ids[..n], i)
      {
        assert items[..n][i] == items[i] && ids[..n][i] == ids[i];
      }
    }
  }

  // ---------------------------------------------------------------------------
  // receive_messages, as functions of the received messages

  /**
   * The message after resolution: a pointer message gets the stored text as
   * its body and the digest of the stored bytes as its MD5; any other
   * message is left alone.
   */
  function Resolve(objects: map<Location, StoredObject>, m: Message, digest: seq<Utf8.byte> -> string)
    : (r: Result<Message, Error>)
    ensures !IsS3Pointer(m.body) ==> r == Success(m)
    ensures r.Failure? ==> IsS3Pointer(m.body)
    ensures r.Success? ==>
      r.value.messageId == m.messageId && r.value.receiptHandle == m.receiptHandle && r.value.attributes == m.attributes
    ensures r.Success? && IsS3Pointer(m.body) ==>
      && LocationOf(PointerBinding(m.body)).Some?
      && var at := LocationOf(PointerBinding(m.body)).value;
      && at in objects
      && Utf8.Encode(r.value.body) == objects[at].content
      && r.value.md5OfBody == digest(objects[at].content)
  {
    if !IsS3Pointer(m.body) then Success(m)
    else match LocationOf(PointerBinding(m.body))
      case None => Failure(InvalidParameter)
      case Some(at) =>
        if at !in objects then Failure(NoSuchKey(at))
        else
          var content := objects[at].content;
          match Utf8.Decode(content)
          case None => Failure(InvalidUtf8)
          case Some(text) =>
            Utf8.EncodeDecode(content);
            Success(m.(body := text, md5OfBody := digest(content)))
  }

  /** A pointer message whose object exists and holds UTF-8 resolves to that text and its digest. */
  lemma ResolvedPointer(objects: map<Location, StoredObject>, m: Message, digest: seq<Utf8.byte> -> string,
                        at: Location, text: string)
    requires IsS3Pointer(m.body) && LocationOf(PointerBinding(m.body)) == Some(at)
    requires at in objects && Utf8.Decode(objects[at].content) == Some(text)
    ensures Resolve(objects, m, digest) == Success(m.(body := text, md5OfBody := digest(objects[at].content)))
  {
  }

  /** Resolution against a fixed store, as a function of the message alone. */
  function Resolver(objects: map<Location, StoredObject>, digest: seq<Utf8.byte> -> string)
    : Message -> Result<Message, Error>
  {
    m => Resolve(objects, m, digest)
  }

  /** The index of the first message that fails to resolve, or the number of messages when none does. */
  function FirstFailure(objects: map<Location, StoredObject>, ms: seq<Message>, digest: seq<Utf8.byte> -> string)
    : (k: nat)
    ensures k <= |ms|
    ensures forall j | 0 <= j < k :: Resolve(objects, ms[j], digest).Success?
    ensures k < |ms| ==> Resolve(objects, ms[k], digest).Failure?
  {
    Loops.FirstFailure(Resolver(objects, digest), ms)
  }

  /** What the client records for a message: its handle and binding, for a pointer message only. */
  function PointerUpdate(m: Message): (u: Option<(string, Binding)>)
    ensures u.Some? <==> IsS3Pointer(m.body)
    ensures u.Some? ==> u.value == (m.receiptHandle, PointerBinding(m.body))
  {
    if IsS3Pointer(m.body) then Some((m.receiptHandle, PointerBinding(m.body))) else None
  }

  /** The handle table after the binding of one message is recorded. */
  function Record(lookup: map<string, Binding>, m: Message): map<string, Binding> {
    Loops.Update(lookup, PointerUpdate(m))
  }

  /** The handle table after recording the binding of every pointer message in `ms`, in order. */
  function Bind(lookup: map<string, Binding>, ms: seq<Message>): map<string, Binding> {
    Loops.UpdateAll(lookup, ms, PointerUpdate)
  }

  /** A handle no pointer message carries keeps whatever binding it had, or stays unbound. */
  lemma BindUntouched(lookup: map<string, Binding>, ms: seq<Message>, handle: string)
    requires forall j | 0 <= j < |ms| :: ms[j].receiptHandle == handle ==> !IsS3Pointer(ms[j].body)
    ensures handle in Bind(lookup, ms) <==> handle in lookup
    ensures handle in lookup ==> Bind(lookup, ms)[handle] == lookup[handle]
  {
    Loops.UpdateAllUntouched(lookup, ms, PointerUpdate, handle);
  }

  /** A handle is bound to what the last pointer message carrying it points at. */
  lemma BindLatest(lookup: map<string, Binding>, ms: seq<Message>, j: nat)
    requires j < |ms| && IsS3Pointer(ms[j].body)
    requires forall i | j < i < |ms| :: ms[i].receiptHandle == ms[j].receiptHandle ==> !IsS3Pointer(ms[i].body)
    ensures ms[j].receiptHandle in Bind(lookup, ms)
    ensures Bind(lookup, ms)[ms[j].receiptHandle] == PointerBinding(ms[j].body)
  {
    Loops.UpdateAllLatest(lookup, ms, PointerUpdate, j);
  }

  // ---------------------------------------------------------------------------
  // receive_messages, as one function of the reply

  /** What `receive_messages` leaves: its outcome, the messages after resolution, and the handle table. */
  type Received = Loops.Ran<Message, Error, string, Binding>

  /**
   * The loop of `receive_messages` over `ms`: record the binding, resolve,
   * and stop at the first failure with the rest of the messages untouched.
   */
  function Receive(objects: map<Location, StoredObject>, lookup: map<string, Binding>, ms: seq<Message>,
                   digest: seq<Utf8.byte> -> string): (r: Received)
    ensures |r.items| == |ms|
  {
    Loops.Run(Resolver(objects, digest), PointerUpdate, lookup, ms)
  }

  /** One turn of the loop, as the method performs it, advances the loop's result by one message. */
  lemma ReceiveTurn(
    objects: map<Location, StoredObject>, digest: seq<Utf8.byte> -> string, original: seq<Message>,
    before: seq<Message>, after: seq<Message>, table: map<string, Binding>, lookup: map<string, Binding>,
    i: nat, failure: Option<Error>, target: Received)
    requires i < |original| == |before| && before[i..] == original[i..]
    requires lookup == Record(table, original[i])
    requires failure.None? <==> Resolve(objects, original[i], digest).Success?
    requires failure.Some? ==> Resolve(objects, original[i], digest) == Failure(failure.value)
    requires after == if failure.None? then before[i := Resolve(objects, original[i], digest).value] else before
    requires Loops.Prepend(before[..i], Receive(objects, table, original[i..], digest)) == target
    ensures failure.Some? ==> Loops.Ran(Fail(failure.value), after, lookup) == target
    ensures failure.None? ==>
      && after[i + 1..] == original[i + 1..]
      && Loops.Prepend(after[..i + 1], Receive(objects, lookup, original[i + 1..], digest)) == target
  {
    Loops.RunTurn(Resolver(objects, digest), PointerUpdate, original, before, after, table, lookup, i, failure, target);
  }

  /** The loop stops with the error of the first message that fails, and passes when none does. */
  lemma ReceiveOutcome(
    objects: map<Location, StoredObject>, lookup: map<string, Binding>, ms: seq<Message>, digest: seq<Utf8.byte> -> string)
    ensures var k := FirstFailure(objects, ms, digest);
      Receive(objects, lookup, ms, digest).outcome == if k == |ms| then Pass else Fail(Resolve(objects, ms[k], digest).error)
  {
    Loops.RunResult(Resolver(objects, digest), PointerUpdate, lookup, ms);
  }

  /**
   * Every message before the first failure is resolved; the failing message
   * and those after it are left as received.
   */
  lemma ReceiveItems(
    objects: map<Location, StoredObject>, lookup: map<string, Binding>, ms: seq<Message>, digest: seq<Utf8.byte> -> string)
    ensures var r, k := Receive(objects, lookup, ms, digest), FirstFailure(objects, ms, digest);
      forall j | 0 <= j < |ms| :: r.items[j] == if j < k then Resolve(objects, ms[j], digest).value else ms[j]
  {
    Loops.RunResult(Resolver(objects, digest), PointerUpdate, lookup, ms);
  }

  /** Exactly the messages up to and including the first failing one have their bindings recorded. */
  lemma ReceiveTable(
    objects: map<Location, StoredObject>, lookup: map<string, Binding>, ms: seq<Message>, digest: seq<Utf8.byte> -> string)
    ensures var k := FirstFailure(objects, ms, digest);
      Receive(objects, lookup, ms, digest).table == Bind(lookup, ms[..if k == |ms| then k else k + 1])
  {
    Loops.RunResult(Resolver(objects, digest), PointerUpdate, lookup, ms);
  }

  // receive_messages as written: the ValueError of is_s3_pointer escapes

  /**
   * One message as the code as written handles it: when `is_s3_pointer`
   * raises, the error leaves the loop before any binding is recorded or any
   * object fetched; otherwise the message is resolved as `Resolve` does.
   */
  function ResolveAsWritten(objects: map<Location, StoredObject>, m: Message, digest: seq<Utf8.byte> -> string)
    : (r: Result<Message, Error>)
    ensures r == Failure(IntegerTooLong) <==> IsS3PointerAsWritten(m.body).Failure?
    ensures IsS3PointerAsWritten(m.body).Success? ==> r == Resolve(objects, m, digest)
  {
    if IsS3PointerAsWritten(m.body).Failure? then Failure(IntegerTooLong) else Resolve(objects, m, digest)
  }

  function ResolverAsWritten(objects: map<Location, StoredObject>, digest: seq<Utf8.byte> -> string)
    : Message -> Result<Message, Error>
  {
    m => ResolveAsWritten(objects, m, digest)
  }

  /** The loop of `receive_messages` with `is_s3_pointer` as written. */
  function ReceiveAsWritten(objects: map<Location, StoredObject>, lookup: map<string, Binding>, ms: seq<Message>,
                            digest: seq<Utf8.byte> -> string): (r: Received)
    ensures |r.items| == |ms|
  {
    Loops.Run(ResolverAsWritten(objects, digest), PointerUpdate, lookup, ms)
  }

  /**
   * A message on which `is_s3_pointer` raises ends the loop as written with
   * that error: it and the messages after it stay as received, and it adds
   * no binding to the table.
   */
  lemma ReceiveAsWrittenRaises(
    objects: map<Location, StoredObject>, lookup: map<string, Binding>, ms: seq<Message>,
    digest: seq<Utf8.byte> -> string, j: nat)
    requires j < |ms| && IsS3PointerAsWritten(ms[j].body).Failure?
    requires forall i | 0 <= i < j :: ResolveAsWritten(objects, ms[i], digest).Success?
    ensures var r := ReceiveAsWritten(objects, lookup, ms, digest);
      && r.outcome == Fail(IntegerTooLong)
      && (forall i | j <= i < |ms| :: r.items[i] == ms[i])
      && r.table == Bind(lookup, ms[..j + 1])
      && PointerUpdate(ms[j]).None?
  {
    assert ResolveAsWritten(objects, ms[j], digest) == Failure(IntegerTooLong);
    Loops.RunStopsAt(ResolverAsWritten(objects, digest), PointerUpdate, lookup, ms, j);
  }

  /**
   * A reply holding one message of more than 4300 digits: the code as
   * written raises out of the loop, while the intended loop passes and
   * delivers the message unchanged.
   */
  lemma LongIntegerReply(
    objects: map<Location, StoredObject>, lookup: map<string, Binding>, m: Message,
    digest: seq<Utf8.byte> -> string, n: nat)
    requires n > Json.MaxIntDigits && m.body == seq(n, _ => '1')
    ensures ReceiveAsWritten(objects, lookup, [m], digest).outcome == Fail(IntegerTooLong)
    ensures Receive(objects, lookup, [m], digest) == Loops.Ran(Pass, [m], lookup)
  {
    LongIntegerBody(n);
    Loops.RunStep(ResolverAsWritten(objects, digest), PointerUpdate, lookup, [m]);
    Loops.RunStep(Resolver(objects, digest), PointerUpdate, lookup, [m]);
    assert [m][1..] == [];
  }

  /**
   * Round trip: a message whose body is what an oversize send put on the
   * queue resolves, against the store that send left, to the original
   * payload, with the digest of its UTF-8 bytes as MD5.
   */
  lemma SendThenResolve(
    objects: map<Location, StoredObject>, config: Config, item: Outgoing, ids: FreshIds,
    m: Message, digest: seq<Utf8.byte> -> string)
    requires Oversize(config, item.message)
    requires m.body == SendRequestFor(config, item, ids).body
    ensures Resolve(StoreAfterSend(objects, config, item.message, ids.payloadId), m, digest)
         == Success(m.(body := item.message, md5OfBody := digest(Utf8.Encode(item.message))))
  {
    OversizeSend(config, item, ids, objects);
  }

  /** An inline payload that does not itself look like a pointer is delivered unchanged. */
  lemma InlineThenResolve(
    objects: map<Location, StoredObject>, config: Config, item: Outgoing, ids: FreshIds,
    m: Message, digest: seq<Utf8.byte> -> string)
    requires !Oversize(config, item.message) && !IsS3Pointer(item.message)
    requires m.body == SendRequestFor(config, item, ids).body
    ensures m.body == item.message
    ensures Resolve(StoreAfterSend(objects, config, item.message, ids.payloadId), m, digest) == Success(m)
  {
  }

  /**
   * An inline payload that happens to have the pointer's shape is taken for
   * a pointer on receipt: the design has no way to tell the two apart.
   */
  lemma InlinePointerShapedPayload(config: Config, bucket: string, key: string, groupId: string)
    requires Utf8.Utf8Len(PointerBody(bucket, key)) <= config.sizeThreshold
    ensures var item := Outgoing(PointerBody(bucket, key), None, Some(groupId));
      var body := SendRequestFor(config, item, FreshIds(key, groupId)).body;
      body == item.message && IsS3Pointer(body)
  {
    PointerDetected(bucket, key);
  }

  // ---------------------------------------------------------------------------
  // The client

  class BigSqsClient {
    const sqs: QueueService
    const s3: BlobStore
    const config: Config
    /** `_receipt_handle_lookup`: receipt handle to the pointer it resolved. */
    var lookup: map<string, Binding>

    constructor (sqs: QueueService, s3: BlobStore, queueUrl: string, bucketName: string,
                 sizeThreshold: int := MaxSqsMessageSize)
      ensures this.sqs == sqs && this.s3 == s3
      ensures config == Config(queueUrl, bucketName, sizeThreshold)
      ensures lookup == map[]
    {
      this.sqs := sqs;
      this.s3 := s3;
      config := Config(queueUrl, bucketName, sizeThreshold);
      lookup := map[];
    }

    /** `send_message`: stores an oversize payload, then sends the body. */
    method SendMessage(message: string, attributes: Option<Attributes>, groupId: Option<string>, ids: FreshIds)
      returns (response: SendResponse)
      modifies sqs, s3
      ensures s3.objects == StoreAfterSend(old(s3.objects), config, message, ids.payloadId)
      ensures sqs.sent == old(sqs.sent) + [SendRequestFor(config, Outgoing(message, attributes, groupId), ids)]
      ensures sqs.received == old(sqs.received) && sqs.deleted == old(sqs.deleted)
      ensures response == SendResponse(|old(sqs.sent)|)
    {
      var payload := message;
      if Utf8.Utf8Len(message) > config.sizeThreshold {
        s3.PutObject(Location(config.bucketName, ids.payloadId), Utf8.Encode(message), "text/plain");
        payload := PointerBody(config.bucketName, ids.payloadId);
      }
      var group := if groupId.Some? then groupId.value else ids.groupId;
      var attrs := if attributes.Some? then attributes.value else map[];
      response := sqs.SendMessage(SendRequest(config.queueUrl, ids.payloadId, group, attrs, payload));
    }

    /** `send_messages`: one `send_message` per item, in order, one response each. */
    method SendMessages(items: seq<Outgoing>, ids: seq<FreshIds>) returns (responses: seq<SendResponse>)
      requires |ids| == |items|
      modifies sqs, s3
      ensures |responses| == |items|
      ensures forall i | 0 <= i < |items| :: responses[i] == SendResponse(|old(sqs.sent)| + i)
      ensures sqs.sent == old(sqs.sent) + BatchRequests(config, items, ids)
      ensures s3.objects == BatchStore(old(s3.objects), config, items, ids)
      ensures sqs.received == old(sqs.received) && sqs.deleted == old(sqs.deleted)
    {
      responses := [];
      for i := 0 to |items|
        invariant |responses| == i
        invariant forall j | 0 <= j < i :: responses[j] == SendResponse(|old(sqs.sent)| + j)
        invariant sqs.sent == old(sqs.sent) + BatchRequests(config, items[..i], ids[..i])
        invariant s3.objects == BatchStore(old(s3.objects), config, items[..i], ids[..i])
        invariant sqs.received == old(sqs.received) && sqs.deleted == old(sqs.deleted)
      {
        ghost var before, stored := sqs.sent, s3.objects;
        var response := SendMessage(items[i].message, items[i].attributes, items[i].groupId, ids[i]);
        SentStep(old(sqs.sent), before, sqs.sent, config, items, ids, i);
        StoreStep(old(s3.objects), stored, s3.objects, config, items, ids, i);
        responses := responses + [response];
      }
      assert items[..|items|] == items && ids[..|ids|] == ids;
    }

    /**
     * `receive_messages`. `reply` holds the messages the queue answered the
     * request with (empty when the answer has none) and is resolved in place;
     * `digest` is the MD5 hex digest. Resolution stops at the first message
     * that fails, whose binding is nonetheless already recorded.
     */
    method ReceiveMessages(
      maxNumberOfMessages: int, attributeNames: Option<seq<string>>,
      reply: array<Message>, digest: seq<Utf8.byte> -> string)
      returns (outcome: Outcome<Error>)
      modifies this, sqs, reply
      ensures sqs.received
           == old(sqs.received) + [ReceiveRequest(config.queueUrl, maxNumberOfMessages, attributeNames.GetOr(["All"]), 20)]
      ensures sqs.sent == old(sqs.sent) && sqs.deleted == old(sqs.deleted)
      ensures Loops.Ran(outcome, reply[..], lookup) == Receive(s3.objects, old(lookup), old(reply[..]), digest)
    {
      sqs.ReceiveMessage(ReceiveRequest(config.queueUrl, maxNumberOfMessages, attributeNames.GetOr(["All"]), 20));
      outcome := ResolveAll(reply, digest);
    }

    /** The loop of `receive_messages` over the messages of the reply. */
    method ResolveAll(reply: array<Message>, digest: seq<Utf8.byte> -> string) returns (outcome: Outcome<Error>)
      modifies this, reply
      ensures Loops.Ran(outcome, reply[..], lookup) == Receive(s3.objects, old(lookup), old(reply[..]), digest)
    {
      ghost var original := reply[..];
      ghost var target := Receive(s3.objects, lookup, original, digest);
      var i := 0;
      while i < reply.Length
        invariant 0 <= i <= reply.Length
        invariant reply[i..] == original[i..]
        invariant Loops.Prepend(reply[..i], Receive(s3.objects, lookup, original[i..], digest)) == target
      {
        ghost var before, table := reply[..], lookup;
        var failure := ResolveMessage(reply, i, digest);
        ReceiveTurn(s3.objects, digest, original, before, reply[..], table, lookup, i, failure, target);
        if failure.Some? {
          return Fail(failure.value);
        }
        i := i + 1;
      }
      assert reply[..i] == reply[..];
      return Pass;
    }

    /**
     * One turn of the `receive_messages` loop: records the binding of a
     * pointer message, then fetches and decodes its payload into `reply[i]`.
     * The failure, if any, is the error the turn raises.
     */
    method ResolveMessage(reply: array<Message>, i: nat, digest: seq<Utf8.byte> -> string)
      returns (failure: Option<Error>)
      requires i < reply.Length
      modifies this, reply
      ensures lookup == Record(old(lookup), old(reply[i]))
      ensures failure.None? <==> Resolve(s3.objects, old(reply[i]), digest).Success?
      ensures failure.Some? ==> Resolve(s3.objects, old(reply[i]), digest) == Failure(failure.value)
      ensures reply[..] == if failure.None? then old(reply[..])[i := Resolve(s3.objects, old(reply[i]), digest).value]
                           else old(reply[..])
    {
      var m := reply[i];
      if IsS3Pointer(m.body) {
        var binding := PointerBinding(m.body);
        lookup := lookup[m.receiptHandle := binding];
        var at := LocationOf(binding);
        if at.None? {
          return Some(InvalidParameter);
        }
        var content := s3.GetObject(at.value);
        if content.None? {
          return Some(NoSuchKey(at.value));
        }
        var text := Utf8.Decode(content.value);
        if text.None? {
          return Some(InvalidUtf8);
        }
        ResolvedPointer(s3.objects, m, digest, at.value, text.value);
        reply[i] := m.(body := text.value, md5OfBody := digest(content.value));
      }
      return None;
    }

    /**
     * `delete_message`: always deletes the queue entry, then the stored
     * payload the handle is bound to, if any. The binding itself stays.
     */
    method DeleteMessage(receiptHandle: string) returns (r: Result<DeleteResponse, Error>)
      modifies sqs, s3
      ensures sqs.deleted == old(sqs.deleted) + [DeleteRequest(config.queueUrl, receiptHandle)]
      ensures sqs.sent == old(sqs.sent) && sqs.received == old(sqs.received)
      ensures lookup == old(lookup)
      ensures receiptHandle !in lookup ==>
        s3.objects == old(s3.objects) && r == Success(DeleteResponse(|old(sqs.deleted)|))
      ensures receiptHandle in lookup && LocationOf(lookup[receiptHandle]).Some? ==>
        s3.objects == old(s3.objects) - {LocationOf(lookup[receiptHandle]).value}
        && r == Success(DeleteResponse(|old(sqs.deleted)|))
      ensures receiptHandle in lookup && LocationOf(lookup[receiptHandle]).None? ==>
        s3.objects == old(s3.objects) && r == Failure(InvalidParameter)
    {
      var response := sqs.DeleteMessage(DeleteRequest(config.queueUrl, receiptHandle));
      if receiptHandle in lookup {
        var at := LocationOf(lookup[receiptHandle]);
        if at.None? {
          return Failure(InvalidParameter);
        }
        s3.DeleteObject(at.value);
      }
      return Success(response);
    }
  }
}
