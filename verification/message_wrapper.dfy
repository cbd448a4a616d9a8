/** The envelope every message travels in (MessageWrapper) and the codec it is (de)serialised with. */
module Envelopes {
  import opened Types
  import opened MessageTypes

  datatype MessageWrapper = MessageWrapper(
    id: Guid,
    content: ByteArray,
    contentType: TypeTag,
    messageType: MessageType,
    responseTo: Guid)

  /** What a MessagePack Deserialize call gives back: a value, null, or an exception. */
  datatype Decoded<+T> = Value(value: T) | Null | Threw(e: Exception)

  /**
   * The MessagePack serialiser, left uninterpreted: a payload codec keyed by type, and the
   * codec for whole envelopes. Serialisation never fails.
   */
  datatype Codec = Codec(
    serialize: (TypeTag, Obj) -> ByteArray,
    deserialize: (TypeTag, ByteArray) -> Decoded<Obj>,
    serializeWrapper: MessageWrapper -> ByteArray,
    deserializeWrapper: ByteArray -> Decoded<MessageWrapper>)

  /** The envelope codec gives back every envelope it wrote. */
  ghost predicate WrapperRoundTrips(codec: Codec)
  {
    forall w :: codec.deserializeWrapper(codec.serializeWrapper(w)) == Value(w)
  }

  /**
   * The envelope codec reports an empty buffer as the end of the stream: MessagePack throws a
   * MessagePackSerializationException whose inner exception is an EndOfStreamException.
   */
  ghost predicate EmptyBodyEndsStream(codec: Codec)
  {
    var d := codec.deserializeWrapper([]);
    d.Threw? && d.e.Serialization? && d.e.endOfStream
  }

  /** The payload codec gives back, for type t, every value of runtime type t it wrote. */
  ghost predicate PayloadRoundTrips(codec: Codec)
  {
    forall t: TypeTag, v: Obj | v.runtimeType == t :: codec.deserialize(t, codec.serialize(t, v)) == Value(v)
  }

  /** w is a reply to the request with id requestId. */
  predicate AnswersTo(w: MessageWrapper, requestId: Guid)
  {
    w.messageType == Response && w.responseTo == requestId
  }

  /** w carries the value v, serialised under the type t. */
  predicate Carries(w: MessageWrapper, codec: Codec, t: TypeTag, v: Obj)
  {
    w.contentType == t && w.content == codec.serialize(t, v)
  }

  /**
   * The serialisation constructor: it takes the four fields as they are. The id it is given
   * is the fresh Guid the constructor draws.
   */
  function FromFields(id: Guid, contentType: TypeTag, content: ByteArray,
                      messageType: MessageType, responseTo: Guid): (w: MessageWrapper)
    ensures w.id == id && w.contentType == contentType && w.content == content
    ensures w.messageType == messageType && w.responseTo == responseTo
  {
    MessageWrapper(id, content, contentType, messageType, responseTo)
  }

  /** `new MessageWrapper(contentType, content, messageType)`: ResponseTo keeps its default. */
  function Create(id: Guid, codec: Codec, contentType: TypeTag, content: Obj,
                  messageType: MessageType): (w: MessageWrapper)
    ensures w.id == id && w.messageType == messageType
    ensures Carries(w, codec, contentType, content)
    ensures w.responseTo == EmptyGuid
  {
    MessageWrapper(id, codec.serialize(contentType, content), contentType, messageType, EmptyGuid)
  }

  /** `new MessageWrapper(contentType, content, responseTo)`: a Response to the given request. */
  function CreateResponse(id: Guid, codec: Codec, contentType: TypeTag, content: Obj,
                          responseTo: Guid): (w: MessageWrapper)
    ensures w.id == id && Carries(w, codec, contentType, content)
    ensures AnswersTo(w, responseTo)
    ensures w == Create(id, codec, contentType, content, Response).(responseTo := responseTo)
  {
    Create(id, codec, contentType, content, Response).(responseTo := responseTo)
  }

  /**
   * Only the Response constructor makes replies: an envelope from the three-argument
   * constructor answers no request, whatever kind it is given, since request ids are never
   * Guid.Empty.
   */
  lemma CreateAnswersNothing(id: Guid, codec: Codec, t: TypeTag, v: Obj, kind: MessageType,
                             requestId: Guid)
    requires requestId != EmptyGuid
    ensures !AnswersTo(Create(id, codec, t, v, kind), requestId)
  {
  }

  /** A reply answers exactly one request id. */
  lemma ResponseAnswersOnlyItsRequest(id: Guid, codec: Codec, t: TypeTag, v: Obj,
                                      requestId: Guid, other: Guid)
    ensures AnswersTo(CreateResponse(id, codec, t, v, requestId), other) <==> other == requestId
  {
  }

  /** Builds an envelope with a fresh id, as the three-argument constructor does. */
  method NewWrapper(ids: GuidSource, codec: Codec, contentType: TypeTag, content: Obj,
                    messageType: MessageType) returns (w: MessageWrapper)
    modifies ids
    ensures w == Create(w.id, codec, contentType, content, messageType)
    ensures w.id != EmptyGuid && !old(ids.Issued(w.id))
    ensures forall h :: ids.Issued(h) <==> old(ids.Issued(h)) || h == w.id
    ensures old(ids.next) <= w.id < ids.next
  {
    var id := ids.NewGuid();
    w := Create(id, codec, contentType, content, messageType);
  }

  /** Builds a reply with a fresh id, as the Response constructor does. */
  method NewResponse(ids: GuidSource, codec: Codec, contentType: TypeTag, content: Obj,
                     responseTo: Guid) returns (w: MessageWrapper)
    modifies ids
    ensures w == CreateResponse(w.id, codec, contentType, content, responseTo)
    ensures w.id != EmptyGuid && !old(ids.Issued(w.id))
    ensures forall h :: ids.Issued(h) <==> old(ids.Issued(h)) || h == w.id
    ensures old(ids.next) <= w.id < ids.next
  {
    var id := ids.NewGuid();
    w := CreateResponse(id, codec, contentType, content, responseTo);
  }
}
