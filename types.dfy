/** Values exchanged between the delivery hub, the HTTP handlers and the
    persistence gateway. User, message and conversation ids are compared and
    copied but never computed with, so they are modelled as `int`. */
module ChatTypes {

  datatype Option<+T> = None | Some(value: T)

  /** A live websocket connection: the user id it was opened for and an
      opaque token standing for its transport handle, so that two
      connections of the same user are different clients. */
  datatype Client = Client(id: int, conn: nat)

  /** The chat frame pushed to recipients (the `Message` struct). */
  datatype Message = Message(
    id: int,
    conversationId: int,
    senderId: int,
    content: string,
    messageType: string,
    recipientIds: seq<int>,
    createdAt: string)

  /** The presence frame `{type, user_id, new_status}`. */
  datatype StatusUpdate = StatusUpdate(kind: string, userId: int, newStatus: string)

  /** One row of the participants query: a member of the conversation and
      the presence column stored for that user. */
  datatype ParticipantRow = ParticipantRow(userId: int, presence: string)

  datatype DeliveryStatus = Sent | Delivered

  /** One `message_status` row. */
  datatype StatusRow = StatusRow(messageId: int, userId: int, status: DeliveryStatus)

  /** What persisting an inbound message yields to the hub: either nothing
      (the message is dropped) or the new id and the recipient list. */
  datatype SaveOutcome = SaveFailed | Saved(msgId: int, recipients: seq<int>)

  predicate NoDuplicates<T(==)>(s: seq<T>) {
    forall i, j :: 0 <= i < j < |s| ==> s[i] != s[j]
  }
}
