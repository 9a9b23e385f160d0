# BigSqsClient, modelled in Dafny

`BigSqsClient` (`big_sqs/big_sqs_client.py`) is a client for an Amazon SQS queue that can carry payloads larger
than a queue message may be. A payload whose UTF-8 encoding is longer than the size threshold is uploaded to an
S3 bucket under a fresh id. The queue message then carries a small JSON pointer record in its place, in the format
of the Java extended client library:
`["com.amazon.sqs.javamessaging.MessageS3Pointer", {"s3BucketName": ..., "s3Key": ...}]`.
On receipt, every message whose body is such a pointer gets its body replaced by the stored text and its MD5
replaced by the digest of the stored bytes. The client also remembers which receipt handle pointed to which
object. Deleting a message by its receipt handle deletes the queue entry, and then the stored object if that
handle is bound.

The project has six modules:

- `Wrappers` (`wrappers.dfy`): `Option`, `Result` and `Outcome`.
- `Utf8` (`utf8.dfy`): `str.encode('utf-8')` and the strict `bytes.decode('utf-8')`, after RFC 3629. It proves
  that decoding inverts encoding, and that the strict decoder accepts only encodings.
- `Json` (`json.dfy`): the part of Python's `json` module the client relies on. `Loads` follows CPython's
  decoder, including its refusal of integer literals with more than 4300 digits. `DumpsString`, `DumpsList` and
  `DumpsDict` follow `json.dumps` with its defaults. The module proves that `Loads` reads back what the dumps
  functions write.
- `Services` (`services.dfy`): the queue and the blob store as in-memory state. `QueueService` keeps three logs:
  the send, receive and delete requests it accepted. `BlobStore` maps (bucket, key) to stored objects. Each
  boto3 call the client makes is a method on one of these classes.
- `Loops` (`loops.dfy`): the two loop shapes of the client, over any item type. One is a table that each item may
  update, with the update that the last item writes winning. The other is a loop that resolves items in place
  and stops at the first failure.
- `BigSqs` (`big_sqs_client.dfy`): the pointer record, `is_s3_pointer`, and the `BigSqsClient` class. The class
  has the queue, the store and the configuration as fields, and `lookup` as the `_receipt_handle_lookup` table.
  Specification functions state what each operation does to the logs, the store and the table. Lemmas state the
  properties the client promises.

Three things the client takes from outside arrive as parameters:

- `uuid4()` values arrive as `FreshIds`.
- The MD5 hex digest is a function `digest` of the stored bytes.
- The messages the queue answers `receive_message` with are an array `reply`, which the method resolves in place.

`delete_message` (lines 221-227) never removes the handle's binding, and nothing else in the client does: the
table only ever gains entries (line 184). `DeleteMessage` leaves `lookup` unchanged, so a binding stays for the
client's lifetime.

## Model

| member | source | states |
|---|---|---|
| BigSqs.BigSqsClient.constructor | big_sqs/big_sqs_client.py:27-48 | keeps the two services, records queue URL, bucket and threshold (default 262144), and starts with an empty handle table |
| Utf8.Utf8Len | big_sqs/big_sqs_client.py:52-60 | the byte length of the UTF-8 encoding: at least the number of code points and at most four times that number |
| Utf8.AsciiUtf8Len | big_sqs/big_sqs_client.py:52-60 | an ASCII string takes exactly one byte per character |
| Utf8.DecodeEncode | big_sqs/big_sqs_client.py:86-91 | decoding the UTF-8 bytes of any string gives that string back |
| Utf8.EncodeDecode | big_sqs/big_sqs_client.py:191-192 | whatever the strict decoder accepts re-encodes to the very same bytes |
| BigSqs.BigSqsClient.SendMessage | big_sqs/big_sqs_client.py:63-107 | stores the payload's bytes under (bucket, payload id) exactly when it is oversize, sends one request, and changes nothing else |
| BigSqs.InlineSend | big_sqs/big_sqs_client.py:80-107 | at or under the threshold the body is the message verbatim and the store is unchanged |
| BigSqs.OversizeSend | big_sqs/big_sqs_client.py:83-98 | over the threshold exactly one object is written, under (bucket, payload id), holding the message; the body is the pointer record for that bucket and key, `is_s3_pointer` holds of it, and it binds that very location |
| BigSqs.SendIds | big_sqs/big_sqs_client.py:101-107 | the deduplication id is the payload id; the group id is the caller's when given, else the fresh one; the attributes default to the empty map |
| BigSqs.PointerRoundTrip | big_sqs/big_sqs_client.py:92-98 | `json.loads` of the dumped pointer body gives the pointer record with the same bucket and key |
| BigSqs.BigSqsClient.SendMessages | big_sqs/big_sqs_client.py:110-120 | one response per item, in input order; the queue log grows by the requests of the items in order, and the store is the result of the sends one after another |
| BigSqs.BatchRequestsSnoc | big_sqs/big_sqs_client.py:120 | the requests of a batch one item longer are the shorter batch's requests followed by that item's request |
| BigSqs.BatchStorePayloads | big_sqs/big_sqs_client.py:110-120 | with distinct payload ids, every oversize item of a batch finds its own payload stored after the batch |
| BigSqs.BatchStoreKeeps | big_sqs/big_sqs_client.py:110-120 | an object no oversize item of the batch writes over is left as it was |
| BigSqs.IsS3PointerAsWritten | big_sqs/big_sqs_client.py:134-148 | fails exactly when `json.loads` raises the integer-digit `ValueError`; true only when the body decodes to the two-element list of tag and dict with both fields |
| BigSqs.IsS3Pointer | big_sqs/big_sqs_client.py:134-148 | true exactly when the check as written returns true, and equal to it wherever that returns at all; every parse failure means false |
| BigSqs.PointerDetected | big_sqs/big_sqs_client.py:138-144 | the body sent for an oversize payload is recognised as a pointer |
| BigSqs.PointerIgnoresLeadingWhitespace | big_sqs/big_sqs_client.py:138 | whitespace in front of a body never changes whether it is a pointer |
| BigSqs.PlainTextIsNoPointer | big_sqs/big_sqs_client.py:145-148 | text that is not JSON is not a pointer, and no error escapes |
| BigSqs.JsonStringIsNoPointer | big_sqs/big_sqs_client.py:141-144 | a valid JSON value of the wrong type (a string) is not a pointer |
| BigSqs.TagWithoutDictIsNoPointer | big_sqs/big_sqs_client.py:141-144 | the tag followed by something other than a dict is not a pointer |
| BigSqs.LongIntegerBody | big_sqs/big_sqs_client.py:135-148 | a body of more than 4300 digits makes the code as written fail, where the intended check says false |
| BigSqs.PointerBinding | big_sqs/big_sqs_client.py:179-181 | the binding holds the values of the `s3BucketName` and `s3Key` fields of the parsed body |
| BigSqs.LocationOf | big_sqs/big_sqs_client.py:190 | a binding names an object exactly when both its fields are strings, and then names those strings |
| BigSqs.PointerLocation | big_sqs/big_sqs_client.py:179-187 | a sent pointer body is a pointer and binds exactly the bucket and key it was written with |
| BigSqs.RecordLocation | big_sqs/big_sqs_client.py:179-181 | any body that parses to the pointer record is a pointer binding that record's bucket and key |
| BigSqs.Resolve | big_sqs/big_sqs_client.py:176-193 | a non-pointer message is left alone; a pointer message that resolves keeps its id, handle and attributes, and gets as body the text whose encoding is the stored bytes and as MD5 the digest of those bytes; it fails only for a pointer |
| BigSqs.ResolvedPointer | big_sqs/big_sqs_client.py:190-193 | a pointer whose object exists and holds UTF-8 resolves to the decoded text and the digest of the bytes |
| BigSqs.PointerUpdate | big_sqs/big_sqs_client.py:176-187 | a message adds a table entry exactly when it is a pointer, and then binds its own receipt handle to its pointer's fields |
| BigSqs.FirstFailure | big_sqs/big_sqs_client.py:173-193 | every message before the index resolves, and the message at the index fails |
| BigSqs.BindUntouched | big_sqs/big_sqs_client.py:173-187 | a handle that no pointer message carries keeps its binding, or stays unbound |
| BigSqs.BindLatest | big_sqs/big_sqs_client.py:184-187 | a handle is bound to the fields of the last pointer message that carries it |
| BigSqs.ReceiveOutcome | big_sqs/big_sqs_client.py:173-193 | the loop raises the error of the first message that fails to resolve, and passes when none fails |
| BigSqs.ReceiveItems | big_sqs/big_sqs_client.py:173-193 | the messages before the first failure are resolved; the failing message and those after it are left as received |
| BigSqs.ReceiveTable | big_sqs/big_sqs_client.py:173-187 | the table holds the bindings of exactly the messages up to and including the first failing one |
| BigSqs.ReceiveTurn | big_sqs/big_sqs_client.py:176-193 | one turn of the loop, as the method performs it, advances the loop's result by one message |
| BigSqs.SendThenResolve | big_sqs/big_sqs_client.py:176-193 | an oversize message, sent and then received, comes back with the original message as body and the digest of its bytes as MD5 |
| BigSqs.InlineThenResolve | big_sqs/big_sqs_client.py:176 | an inline message that is not pointer-shaped comes back unchanged |
| BigSqs.InlinePointerShapedPayload | big_sqs/big_sqs_client.py:83 | an inline payload that happens to be pointer-shaped is sent verbatim and taken for a pointer on receipt |
| BigSqs.BigSqsClient.ReceiveMessages | big_sqs/big_sqs_client.py:151-202 | logs one receive request (attribute names default to `["All"]`, wait time 20), and leaves the outcome, the resolved messages and the table that the loop function gives |
| BigSqs.BigSqsClient.ResolveAll | big_sqs/big_sqs_client.py:173-193 | the loop over the reply, in place: its outcome, the array and the table are those of the loop function |
| BigSqs.BigSqsClient.ResolveMessage | big_sqs/big_sqs_client.py:176-193 | records the binding of a pointer message before fetching, then resolves it in place; fails exactly when resolution fails, leaving the message as it was |
| BigSqs.BigSqsClient.DeleteMessage | big_sqs/big_sqs_client.py:205-227 | always logs the queue delete; deletes exactly the bound object when the handle is bound, nothing otherwise; never changes the table |
| Services.QueueService.SendMessage | big_sqs/big_sqs_client.py:101-107 | the send request is appended to the queue's log and the response names it |
| Services.QueueService.ReceiveMessage | big_sqs/big_sqs_client.py:165-170 | the receive request is appended to the queue's log |
| Services.QueueService.DeleteMessage | big_sqs/big_sqs_client.py:215-218 | the delete request is appended to the queue's log and the response names it |
| Services.BlobStore.PutObject | big_sqs/big_sqs_client.py:86-91 | writes or overwrites exactly one object |
| Services.BlobStore.GetObject | big_sqs/big_sqs_client.py:190-191 | yields the stored bytes when the object exists, and the missing-key error otherwise |
| Services.BlobStore.DeleteObject | big_sqs/big_sqs_client.py:223-226 | removes exactly that object, whether or not it existed |
| Json.LoadsStringAndDict | big_sqs/big_sqs_client.py:92-98 | `json.loads` reads a dumped list of a string and a two-field dict back as those values |
| Json.LoadsSkipsLeadingWhitespace | big_sqs/big_sqs_client.py:138 | leading whitespace never changes what `json.loads` decodes |
| Json.LongIntegerRejected | big_sqs/big_sqs_client.py:138 | a bare integer with more than 4300 digits makes `json.loads` raise the conversion `ValueError`, not a decode error |
| Loops.RunResult | big_sqs/big_sqs_client.py:173-193 | the resolve loop item by item: resolved before the first failure, untouched from it on, that failure's error as outcome, and the table updated through the failing item |
| Loops.UpdateAllLatest | big_sqs/big_sqs_client.py:184-187 | a key ends with the value of the last item that writes it |
| Loops.UpdateAllKeeps | big_sqs/big_sqs_client.py:184 | recording bindings never removes an entry from the table |
| Loops.RunStopsAt | big_sqs/big_sqs_client.py:173-193 | a failing item after items that all resolve ends the loop with its error, leaves it and the rest alone, and the table holds the updates through it |
| BigSqs.ResolveAsWritten | big_sqs/big_sqs_client.py:138-145 | one message with `is_s3_pointer` as written: it fails with the over-long-integer error exactly when that check raises, and otherwise resolves as the intended check does |
| BigSqs.ReceiveAsWrittenRaises | big_sqs/big_sqs_client.py:173-176 | with the check as written, a message on which it raises ends `receive_messages` with that error, after the earlier messages resolve; it and the later messages stay as received, and it adds no binding |
| BigSqs.LongIntegerReply | big_sqs/big_sqs_client.py:138-145 | a reply whose one message is more than 4300 digits: the loop as written ends with the over-long-integer error, while the intended loop passes with the message unchanged and the table as it was |

## Left out

- `from_aws_creds` and `from_default_aws_creds` (lines 230-284) only build boto3 clients from credentials.
- The content-length correction (lines 196-199) depends on the serialisation of the whole boto3 response and its
  HTTP headers. It is not modelled, and neither is the rest of the response dict: `ReceiveMessages` returns the
  outcome and resolves the array of messages in place.
- `uuid4()` is not modelled. Its values are parameters, and their freshness appears only as a hypothesis of
  `BigSqs.BatchStorePayloads`.
- MD5 is not modelled. `hexdigest` is the parameter `digest`, a function of the stored bytes.
- Errors of the services are left out: network failures, throttling, missing buckets, missing queues, and every
  error of `put_object`, `send_message`, `receive_message` and `delete_object`. A batch that fails part way through
  is therefore not modelled either. The errors the client methods keep are the ones the client's own data can
  cause: a missing object on `get_object`, a pointer field that is not a string, and stored bytes that are not
  UTF-8. The over-long integer error is modelled on the functions only, as explained in the next three lines.
- BigSqs.Resolve: tests the corrected `IsS3Pointer`, so a body of more than 4300 digits is delivered unchanged,
  where the code as written raises `ValueError` at line 138. `BigSqs.ResolveAsWritten`, `BigSqs.ReceiveAsWritten`
  and `BigSqs.ReceiveAsWrittenRaises` model that escape.
- BigSqs.BigSqsClient.ResolveMessage: follows `BigSqs.Resolve`, and so cannot raise the over-long-integer error
  that line 176 raises in the code as written.
- BigSqs.BigSqsClient.ReceiveMessages: its loop follows the corrected check. On a reply holding a body of more
  than 4300 digits it goes on past that message, where `receive_messages` as written stops with the `ValueError`.
- boto3's parameter validation is modelled only as the string check on the bucket and key taken from a pointer.
- `BigSqs.LocationOf` treats any string as a valid bucket and key, because bucket naming rules are not modelled.
- `Json.LoadsFrom` has no nesting limit, so the `RecursionError` that CPython raises for very deeply nested JSON
  is not modelled.
- A Dafny `string` holds Unicode scalar values, so Python strings with lone surrogates are not modelled. Two
  consequences follow. `json.loads` of an escaped lone surrogate counts as a decode error here, where Python
  returns a string holding the surrogate. `str.encode` raising on a lone surrogate is not modelled.
- `json.dumps` is modelled only for strings, lists and dicts of strings, the values the pointer record holds.
- Concurrent use of one client, and the table as shared state, are not modelled: the code is synchronous.
- The exact characters of the pointer body are not stated as a lemma. What is proved is that `json.loads` reads
  the body back as the pointer record.

## Findings

| source | as written | input that shows it | evidently intended | confidence | as-written member | corrected member |
|---|---|---|---|---|---|---|
| big_sqs/big_sqs_client.py:145 | `is_s3_pointer` catches only `json.JSONDecodeError`. For an integer literal with more than 4300 digits, CPython since 3.11 (and the 2022 security releases of 3.7 to 3.10) makes `json.loads` raise a plain `ValueError`, which escapes from `is_s3_pointer` and from `receive_messages`. | a message whose body is 4301 `1` characters | every body that does not parse is "not a pointer", and the message is delivered unchanged | not executed | BigSqs.IsS3PointerAsWritten, BigSqs.LongIntegerBody, BigSqs.ReceiveAsWrittenRaises, BigSqs.LongIntegerReply | BigSqs.IsS3Pointer |
