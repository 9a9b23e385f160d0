/**
 * The two services the client talks to, as the in-memory state the client
 * can observe: the queue as logs of the requests it accepted, the blob store
 * as a map from (bucket, key) to stored objects. Neither service fails here;
 * the requests carry exactly the parameters the client passes.
 */
module Services {
  import opened Wrappers
  import Utf8

  /** A message attribute value, passed through untouched. */
  datatype AttributeValue = AttributeValue(dataType: string, value: string)

  type Attributes = map<string, AttributeValue>

  /** The keyword arguments of one `send_message` call on the queue. */
  datatype SendRequest = SendRequest(
    queueUrl: string,
    deduplicationId: string,
    groupId: string,
    attributes: Attributes,
    body: string)

  /** The keyword arguments of one `receive_message` call on the queue. */
  datatype ReceiveRequest = ReceiveRequest(
    queueUrl: string,
    maxNumberOfMessages: int,
    attributeNames: seq<string>,
    waitTimeSeconds: int)

  /** The keyword arguments of one `delete_message` call on the queue. */
  datatype DeleteRequest = DeleteRequest(queueUrl: string, receiptHandle: string)

  /** The queue's acknowledgement of a send: which accepted request it answers. */
  datatype SendResponse = SendResponse(position: nat)

  /** The queue's acknowledgement of a delete. */
  datatype DeleteResponse = DeleteResponse(position: nat)

  /** A message as the queue delivers it. */
  datatype Message = Message(
    messageId: string,
    receiptHandle: string,
    md5OfBody: string,
    body: string,
    attributes: Attributes)

  class QueueService {
    var sent: seq<SendRequest>
    var received: seq<ReceiveRequest>
    var deleted: seq<DeleteRequest>

    constructor ()
      ensures sent == [] && received == [] && deleted == []
    {
      sent := [];
      received := [];
      deleted := [];
    }

    method SendMessage(request: SendRequest) returns (response: SendResponse)
      modifies this
      ensures sent == old(sent) + [request]
      ensures received == old(received) && deleted == old(deleted)
      ensures response == SendResponse(|old(sent)|) && sent[response.position] == request
    {
      response := SendResponse(|sent|);
      sent := sent + [request];
    }

    method ReceiveMessage(request: ReceiveRequest)
      modifies this
      ensures received == old(received) + [request]
      ensures sent == old(sent) && deleted == old(deleted)
    {
      received := received + [request];
    }

    method DeleteMessage(request: DeleteRequest) returns (response: DeleteResponse)
      modifies this
      ensures deleted == old(deleted) + [request]
      ensures sent == old(sent) && received == old(received)
      ensures response == DeleteResponse(|old(deleted)|) && deleted[response.position] == request
    {
      response := DeleteResponse(|deleted|);
      deleted := deleted + [request];
    }
  }

  datatype Location = Location(bucket: string, key: string)

  datatype StoredObject = StoredObject(content: seq<Utf8.byte>, contentType: string)

  class BlobStore {
    var objects: map<Location, StoredObject>

    constructor (initial: map<Location, StoredObject>)
      ensures objects == initial
    {
      objects := initial;
    }

    /** `put_object` writes (or overwrites) exactly one object. */
    method PutObject(at: Location, content: seq<Utf8.byte>, contentType: string)
      modifies this
      ensures objects == old(objects)[at := StoredObject(content, contentType)]
    {
      objects := objects[at := StoredObject(content, contentType)];
    }

    /** `get_object` yields the stored bytes; None stands for the NoSuchKey error. */
    method GetObject(at: Location) returns (content: Option<seq<Utf8.byte>>)
      ensures content.Some? <==> at in objects
      ensures content.Some? ==> content.value == objects[at].content
    {
      if at in objects {
        content := Some(objects[at].content);
      } else {
        content := None;
      }
    }

    /** `delete_object` removes the object, and succeeds also when there is none. */
    method DeleteObject(at: Location)
      modifies this
      ensures objects == old(objects) - {at}
      ensures at !in objects
    {
      objects := objects - {at};
    }
  }
}
