/** Persisting a message and classifying its per-recipient delivery status
    (`saveMessage`, and the same rule in `sendMessageHandler`). The database
    is not modelled: each query's outcome is an input. */
module Persistence {
  import opened ChatTypes

  /** The presence-to-status rule: "delivered" for a participant whose
      stored status is "online", "sent" for any other value. */
  function StatusFor(presence: string): (r: DeliveryStatus)
    ensures r == Delivered <==> presence == "online"
  {
    if presence == "online" then Delivered else Sent
  }

  /** The user ids of the participant rows, in row order. */
  function ParticipantIds(rows: seq<ParticipantRow>): (r: seq<int>)
    ensures |r| == |rows|
    ensures forall i :: 0 <= i < |rows| ==> r[i] == rows[i].userId
  {
    seq(|rows|, i requires 0 <= i < |rows| => rows[i].userId)
  }

  /** The outcome `saveMessage` reports, given the outcome of the message
      insert (the new id, or None when it fails) and of the participants
      query (the rows, or None when it fails). */
  function SaveOutcomeOf(insert: Option<int>, participants: Option<seq<ParticipantRow>>): (r: SaveOutcome)
    ensures r.Saved? <==> insert.Some? && participants.Some?
    ensures r.Saved? ==> r.msgId == insert.value && r.recipients == ParticipantIds(participants.value)
  {
    match insert
    case None => SaveFailed
    case Some(id) =>
      match participants
      case None => SaveFailed
      case Some(rows) => Saved(id, ParticipantIds(rows))
  }

  /** The participant loop: collects the recipient ids and emits one status
      row per participant, the sender included. */
  method RecordStatuses(msgId: int, rows: seq<ParticipantRow>)
    returns (recipients: seq<int>, statuses: seq<StatusRow>)
    ensures recipients == ParticipantIds(rows)
    ensures |recipients| == |rows| && |statuses| == |rows|
    ensures forall i :: 0 <= i < |rows| ==> recipients[i] == rows[i].userId
    ensures forall i :: 0 <= i < |rows| ==>
      statuses[i].messageId == msgId && statuses[i].userId == rows[i].userId
    ensures forall i :: 0 <= i < |rows| ==>
      (statuses[i].status == Delivered <==> rows[i].presence == "online")
    ensures forall i :: 0 <= i < |rows| ==> statuses[i].status == StatusFor(rows[i].presence)
  {
    recipients, statuses := [], [];
    var i := 0;
    while i < |rows|
      invariant 0 <= i <= |rows|
      invariant |recipients| == i && |statuses| == i
      invariant forall j :: 0 <= j < i ==> recipients[j] == rows[j].userId
      invariant forall j :: 0 <= j < i ==>
        statuses[j] == StatusRow(msgId, rows[j].userId, StatusFor(rows[j].presence))
    {
      var row := rows[i];
      recipients := recipients + [row.userId];
      statuses := statuses + [StatusRow(msgId, row.userId, StatusFor(row.presence))];
      i := i + 1;
    }
  }

  /** `saveMessage`: if the insert or the participants query fails, no
      recipient and no status row; otherwise the new id, the participant ids
      in row order, and one status row per participant. */
  method SaveMessage(insert: Option<int>, participants: Option<seq<ParticipantRow>>)
    returns (outcome: SaveOutcome, statuses: seq<StatusRow>)
    ensures outcome == SaveOutcomeOf(insert, participants)
    ensures outcome.Saved? <==> insert.Some? && participants.Some?
    ensures outcome.SaveFailed? ==> statuses == []
    ensures outcome.Saved? ==>
      var rows := participants.value;
      && outcome.msgId == insert.value
      && |outcome.recipients| == |rows| && |statuses| == |rows|
      && (forall i :: 0 <= i < |rows| ==> outcome.recipients[i] == rows[i].userId)
      && (forall i :: 0 <= i < |rows| ==>
            statuses[i].messageId == insert.value && statuses[i].userId == rows[i].userId)
      && (forall i :: 0 <= i < |rows| ==>
            (statuses[i].status == Delivered <==> rows[i].presence == "online"))
      && (forall i :: 0 <= i < |rows| ==> statuses[i].status == StatusFor(rows[i].presence))
  {
    if insert.None? {
      return SaveFailed, [];
    }
    var msgId := insert.value;
    if participants.None? {
      return SaveFailed, [];
    }
    var recipients;
    recipients, statuses := RecordStatuses(msgId, participants.value);
    outcome := Saved(msgId, recipients);
  }

  /** The body of a `POST /api/messages` request. */
  datatype SendRequest = SendRequest(conversationId: int, senderId: int, content: string, messageType: string)

  /** The handler's answer: a database error, the created message, or a
      panic after the message was inserted (net/http then drops the
      connection without a reply). */
  datatype SendResponse =
    | SendDbError
    | SendCreated(id: int, conversationId: int, senderId: int, content: string, messageType: string, createdAt: string)
    | SendPanicked(insertedId: int)

  /** `sendMessageHandler` as written: inserts the message and records one
      status row per participant with the same rule, without any live
      delivery. `rows` is None when the participants query fails; its error
      is discarded, and iterating the nil result panics. */
  method SendMessageHandler(req: SendRequest, insert: Option<int>, rows: Option<seq<ParticipantRow>>, now: string)
    returns (resp: SendResponse, statuses: seq<StatusRow>)
    ensures insert.None? ==> resp == SendDbError && statuses == []
    ensures insert.Some? && rows.None? ==> resp == SendPanicked(insert.value) && statuses == []
    ensures insert.Some? && rows.Some? ==>
      && resp == SendCreated(insert.value, req.conversationId, req.senderId, req.content, req.messageType, now)
      && |statuses| == |rows.value|
      && (forall i :: 0 <= i < |rows.value| ==>
            statuses[i].messageId == insert.value && statuses[i].userId == rows.value[i].userId)
      && (forall i :: 0 <= i < |rows.value| ==>
            (statuses[i].status == Delivered <==> rows.value[i].presence == "online"))
  {
    if insert.None? {
      return SendDbError, [];
    }
    var msgId := insert.value;
    if rows.None? {
      return SendPanicked(msgId), [];
    }
    var recipients;
    recipients, statuses := RecordStatuses(msgId, rows.value);
    resp := SendCreated(msgId, req.conversationId, req.senderId, req.content, req.messageType, now);
  }

  /** `sendMessageHandler` with the participants query's error checked, as
      `saveMessage` does: a failed query is a database error, and the
      handler never panics. */
  method SendMessageHandlerChecked(req: SendRequest, insert: Option<int>, rows: Option<seq<ParticipantRow>>, now: string)
    returns (resp: SendResponse, statuses: seq<StatusRow>)
    ensures !resp.SendPanicked?
    ensures resp == SendDbError <==> insert.None? || rows.None?
    ensures resp == SendDbError ==> statuses == []
    ensures resp.SendCreated? ==>
      && resp == SendCreated(insert.value, req.conversationId, req.senderId, req.content, req.messageType, now)
      && |statuses| == |rows.value|
      && (forall i :: 0 <= i < |rows.value| ==>
            statuses[i].messageId == insert.value && statuses[i].userId == rows.value[i].userId)
      && (forall i :: 0 <= i < |rows.value| ==>
            (statuses[i].status == Delivered <==> rows.value[i].presence == "online"))
  {
    if insert.None? || rows.None? {
      return SendDbError, [];
    }
    var recipients;
    recipients, statuses := RecordStatuses(insert.value, rows.value);
    resp := SendCreated(insert.value, req.conversationId, req.senderId, req.content, req.messageType, now);
  }
}
