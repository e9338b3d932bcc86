/** The backend message handlers. Edit, delete and mark-as-read load one record, check that the
    actor is its sender (edit, delete) or its receiver (read), and change it; send and reply create
    a new record. After a change, one socket event goes to the counterpart if they are online (for
    mark-as-read, only on the first read).

    The document store is the map `store`; the socket layer is an online-user set passed to each
    handler and the append-only event log `log`. Image upload is the parameter `upload` (the URL the
    media service returned, or None when the upload failed); `new Date()` is the parameter `at`. */
module MessageController {
  import opened MessageModel

  /** The error responses of the handlers. */
  datatype Error = NotFound | Forbidden | ServerError {
    function Status(): int {
      match this
      case NotFound => 404
      case Forbidden => 403
      case ServerError => 500
    }
  }

  datatype Result<T> = Ok(value: T) | Err(error: Error)

  /** The body of a successful delete response. */
  const DeleteConfirmation: string := "Message deleted successfully"

  datatype Payload =
    | NewMessage(message: Message)
    | MessageEdited(message: Message)
    | MessageDeleted(messageId: MessageId)
    | MessageRead(messageId: MessageId, readBy: seq<Receipt>)
  {
    function Name(): string {
      match this
      case NewMessage(_) => "newMessage"
      case MessageEdited(_) => "messageEdited"
      case MessageDeleted(_) => "messageDeleted"
      case MessageRead(_, _) => "messageRead"
    }
  }

  /** A socket event pushed to the live connection of `recipient`. */
  datatype Event = Event(recipient: UserId, payload: Payload)

  /** The events a push to `to` produces: one when `to` has a live connection, none otherwise. */
  function Emit(online: set<UserId>, to: UserId, p: Payload): (events: seq<Event>)
    ensures |events| <= 1
    ensures events != [] <==> to in online
    ensures forall e :: e in events ==> e.recipient == to && e.payload == p
  {
    if to in online then [Event(to, p)] else []
  }

  /** `m` belongs to the conversation between `me` and `peer`, in either direction. */
  predicate InConversation(m: Message, me: UserId, peer: UserId) {
    (m.senderId == me && m.receiverId == peer) || (m.senderId == peer && m.receiverId == me)
  }

  /** The conversation between `me` and `peer` among the stored messages with id below `n`,
      in id order. */
  function Conversation(store: map<MessageId, Message>, me: UserId, peer: UserId, n: nat): (r: seq<Message>)
    requires forall k :: k in store ==> store[k].id == k
    ensures forall i :: 0 <= i < |r| ==>
      r[i].id < n && r[i].id in store && store[r[i].id] == r[i] && InConversation(r[i], me, peer)
    ensures forall k :: k in store && k < n && InConversation(store[k], me, peer) ==> store[k] in r
    ensures forall i, j :: 0 <= i < j < |r| ==> r[i].id < r[j].id
  {
    if n == 0 then []
    else
      var earlier := Conversation(store, me, peer, n - 1);
      if n - 1 in store && InConversation(store[n - 1], me, peer) then earlier + [store[n - 1]]
      else earlier
  }

  /** A record as a send or a reply creates it: the handler's fields and the defaults for the rest. */
  function Created(id: MessageId, senderId: UserId, receiverId: UserId, text: Option<string>,
                   imageUrl: Option<string>, replyTo: Option<MessageId>): Message
  {
    Message(id, senderId, receiverId, text, imageUrl, false, [], replyTo, [], false)
  }

  /** The image URL a new message gets: the uploaded URL when an image was supplied. */
  function ImageUrl(image: Option<string>, upload: Option<string>): Option<string> {
    if Truthy(image) then upload else None
  }

  /** What an accepted edit does to a record. */
  function Edited(m: Message, text: Option<string>, at: Time): Message {
    m.(editHistory := m.editHistory + [EditEntry(m.text, at)], text := text, isEdited := true)
  }

  /** What an accepted delete does to a record. */
  function Tombstoned(m: Message): Message {
    m.(isDeleted := true, text := Some(Tombstone), image := None)
  }

  /** `reader` already has a receipt on `m`. */
  predicate HasRead(m: Message, reader: UserId) {
    exists i :: 0 <= i < |m.readBy| && m.readBy[i].userId == reader
  }

  /** What an accepted mark-as-read does to a record: a receipt is added on first read only. */
  function Acknowledged(m: Message, reader: UserId, at: Time): Message {
    if HasRead(m, reader) then m else m.(readBy := m.readBy + [Receipt(reader, at)])
  }

  class Controller {
    var store: map<MessageId, Message>
    var log: seq<Event>
    var nextId: MessageId

    ghost predicate Valid()
      reads this
    {
      WellFormed(store, nextId)
    }

    constructor ()
      ensures Valid() && store == map[] && log == [] && nextId == 0
    {
      store, log, nextId := map[], [], 0;
    }

    /** The messages between `me` and `peer`: exactly the stored ones sent in either direction.
        The query sets no order; the model lists them by increasing id, that is in creation order. */
    function GetMessages(me: UserId, peer: UserId): (r: seq<Message>)
      reads this
      requires Valid()
      ensures forall m :: m in r <==> m in store.Values && InConversation(m, me, peer)
      ensures forall i, j :: 0 <= i < j < |r| ==> r[i].id < r[j].id
    {
      var r := Conversation(store, me, peer, nextId);
      assert forall m :: m in store.Values ==> m.id in store && store[m.id] == m;
      r
    }

    method SendMessage(actor: UserId, receiverId: UserId, text: Option<string>, image: Option<string>,
                       upload: Option<string>, online: set<UserId>)
      returns (r: Result<Message>)
      requires Valid()
      modifies this
      ensures Valid()
      ensures r.Err? <==> Truthy(image) && upload.None?
      ensures r.Err? ==> r.error == ServerError && unchanged(this)
      ensures r.Ok? ==>
        var m := r.value;
        && m.id == old(nextId) && m.id !in old(store)
        && m.senderId == actor && m.receiverId == receiverId && m.text == text
        && (m.image.Some? <==> Truthy(image)) && (m.image.Some? ==> m.image == upload)
        && m.replyTo.None? && HasDefaults(m)
        && store == old(store)[m.id := m] && nextId == old(nextId) + 1
        && log == old(log) + Emit(online, receiverId, NewMessage(m))
    {
      if Truthy(image) && upload.None? {
        return Err(ServerError);
      }
      var m := Created(nextId, actor, receiverId, text, ImageUrl(image, upload), None);
      PutKeepsWellFormed(store, nextId + 1, m) by { BumpKeepsWellFormed(store, nextId); }
      store := store[nextId := m];
      nextId := nextId + 1;
      log := log + Emit(online, receiverId, NewMessage(m));
      r := Ok(m);
    }

    method EditMessage(actor: UserId, id: MessageId, text: Option<string>, at: Time, online: set<UserId>)
      returns (r: Result<Message>)
      requires Valid()
      modifies this
      ensures Valid()
      ensures id !in old(store) ==> r == Err(NotFound) && unchanged(this)
      ensures id in old(store) && old(store)[id].senderId != actor ==> r == Err(Forbidden) && unchanged(this)
      ensures id in old(store) && old(store)[id].senderId == actor ==>
        var before := old(store)[id];
        && r == Ok(Edited(before, text, at))
        && r.value.editHistory == before.editHistory + [EditEntry(before.text, at)]
        && r.value.text == text && r.value.isEdited
        && r.value.senderId == before.senderId && r.value.receiverId == before.receiverId
        && r.value.readBy == before.readBy && r.value.isDeleted == before.isDeleted
        && r.value.image == before.image && r.value.replyTo == before.replyTo
        && store == old(store)[id := r.value] && nextId == old(nextId)
        && log == old(log) + Emit(online, before.receiverId, MessageEdited(r.value))
    {
      if id !in store {
        return Err(NotFound);
      }
      var message := store[id];
      if message.senderId != actor {
        return Err(Forbidden);
      }
      message := message.(editHistory := message.editHistory + [EditEntry(message.text, at)]);
      message := message.(text := text);
      message := message.(isEdited := true);
      PutKeepsWellFormed(store, nextId, message);
      store := store[id := message];
      log := log + Emit(online, message.receiverId, MessageEdited(message));
      r := Ok(message);
    }

    method DeleteMessage(actor: UserId, id: MessageId, online: set<UserId>) returns (r: Result<string>)
      requires Valid()
      modifies this
      ensures Valid()
      ensures id !in old(store) ==> r == Err(NotFound) && unchanged(this)
      ensures id in old(store) && old(store)[id].senderId != actor ==> r == Err(Forbidden) && unchanged(this)
      ensures id in old(store) && old(store)[id].senderId == actor ==>
        var before := old(store)[id];
        && r == Ok(DeleteConfirmation)
        && store == old(store)[id := Tombstoned(before)] && nextId == old(nextId)
        && store[id].isDeleted && store[id].text == Some(Tombstone) && store[id].image.None?
        && store[id].senderId == before.senderId && store[id].receiverId == before.receiverId
        && store[id].editHistory == before.editHistory && store[id].readBy == before.readBy
        && store[id].replyTo == before.replyTo && store[id].isEdited == before.isEdited
        && log == old(log) + Emit(online, before.receiverId, MessageDeleted(id))
    {
      if id !in store {
        return Err(NotFound);
      }
      var message := store[id];
      if message.senderId != actor {
        return Err(Forbidden);
      }
      message := message.(isDeleted := true);
      message := message.(text := Some(Tombstone));
      message := message.(image := None);
      PutKeepsWellFormed(store, nextId, message);
      store := store[id := message];
      log := log + Emit(online, message.receiverId, MessageDeleted(id));
      r := Ok(DeleteConfirmation);
    }

    method ReplyToMessage(actor: UserId, originalId: MessageId, text: Option<string>, image: Option<string>,
                          upload: Option<string>, online: set<UserId>)
      returns (r: Result<Message>)
      requires Valid()
      modifies this
      ensures Valid()
      ensures originalId !in old(store) ==> r == Err(NotFound) && unchanged(this)
      ensures originalId in old(store) && Truthy(image) && upload.None? ==> r == Err(ServerError) && unchanged(this)
      ensures r.Ok? <==> originalId in old(store) && !(Truthy(image) && upload.None?)
      ensures r.Ok? ==>
        var m := r.value;
        var original := old(store)[originalId];
        && m.id == old(nextId) && m.id !in old(store)
        && m.senderId == actor && m.receiverId == original.senderId && m.replyTo == Some(originalId)
        && m.text == text && (m.image.Some? <==> Truthy(image)) && (m.image.Some? ==> m.image == upload)
        && HasDefaults(m)
        && store == old(store)[m.id := m] && store[originalId] == original && nextId == old(nextId) + 1
        && log == old(log) + Emit(online, original.senderId, NewMessage(m))
    {
      if originalId !in store {
        return Err(NotFound);
      }
      var original := store[originalId];
      if Truthy(image) && upload.None? {
        return Err(ServerError);
      }
      var m := Created(nextId, actor, original.senderId, text, ImageUrl(image, upload), Some(originalId));
      BumpKeepsWellFormed(store, nextId);
      PutKeepsWellFormed(store, nextId + 1, m);
      store := store[nextId := m];
      nextId := nextId + 1;
      log := log + Emit(online, original.senderId, NewMessage(m));
      r := Ok(m);
    }

    method MarkMessageAsRead(actor: UserId, id: MessageId, at: Time, online: set<UserId>)
      returns (r: Result<Message>)
      requires Valid()
      modifies this
      ensures Valid()
      ensures id !in old(store) ==> r == Err(NotFound) && unchanged(this)
      ensures id in old(store) && old(store)[id].receiverId != actor ==> r == Err(Forbidden) && unchanged(this)
      ensures id in old(store) && old(store)[id].receiverId == actor && HasRead(old(store)[id], actor) ==>
        r == Ok(old(store)[id]) && unchanged(this)
      ensures id in old(store) && old(store)[id].receiverId == actor && !HasRead(old(store)[id], actor) ==>
        var before := old(store)[id];
        && r == Ok(Acknowledged(before, actor, at))
        && r.value.readBy == before.readBy + [Receipt(actor, at)]
        && r.value == before.(readBy := r.value.readBy)
        && store == old(store)[id := r.value] && nextId == old(nextId)
        && log == old(log) + Emit(online, before.senderId, MessageRead(id, r.value.readBy))
    {
      if id !in store {
        return Err(NotFound);
      }
      var message := store[id];
      if message.receiverId != actor {
        return Err(Forbidden);
      }
      var alreadyRead := HasRead(message, actor);
      if !alreadyRead {
        message := message.(readBy := message.readBy + [Receipt(actor, at)]);
        AcknowledgeKeepsInvariant(store[id], actor, at);
        PutKeepsWellFormed(store, nextId, message);
        store := store[id := message];
        log := log + Emit(online, message.senderId, MessageRead(id, message.readBy));
      }
      r := Ok(message);
    }
  }

  /** Marking read never gives a user a second receipt: `readBy` stays unique by user. */
  lemma {:induction false} AcknowledgeKeepsUnique(m: Message, reader: UserId, at: Time)
    requires ReceiptsUnique(m.readBy)
    ensures ReceiptsUnique(Acknowledged(m, reader, at).readBy)
  {
    if !HasRead(m, reader) {
      var rs := Acknowledged(m, reader, at).readBy;
      forall i, j | 0 <= i < j < |rs| ensures rs[i].userId != rs[j].userId {
        if j == |m.readBy| {
          assert rs[i] == m.readBy[i];
        } else {
          assert rs[i] == m.readBy[i] && rs[j] == m.readBy[j];
        }
      }
    }
  }

  /** A mark-as-read by the receiver keeps the record's invariant. */
  lemma AcknowledgeKeepsInvariant(m: Message, reader: UserId, at: Time)
    requires RecordInvariant(m) && reader == m.receiverId
    ensures RecordInvariant(Acknowledged(m, reader, at))
  {
    AcknowledgeKeepsUnique(m, reader, at);
  }

  /** One accepted edit: the new text and when it was submitted. */
  datatype EditStep = EditStep(text: Option<string>, at: Time)

  /** A record after a series of accepted edits, applied in order. */
  function EditSeries(m: Message, steps: seq<EditStep>): Message
    decreases |steps|
  {
    if steps == [] then m else EditSeries(Edited(m, steps[0].text, steps[0].at), steps[1..])
  }

  /** The text in effect just before the `k`-th edit of a series. */
  function TextBefore(m: Message, steps: seq<EditStep>, k: nat): Option<string>
    requires k < |steps|
  {
    if k == 0 then m.text else steps[k - 1].text
  }

  /** After N accepted edits the history has grown by exactly N entries, in commit order, entry k
      holding the text that was in effect just before edit k; the earlier history is kept, the text
      is the last one submitted and nothing but text, history and the edited flag has changed. */
  lemma {:induction false} EditSeriesHistory(m: Message, steps: seq<EditStep>)
    ensures var r := EditSeries(m, steps);
      && |r.editHistory| == |m.editHistory| + |steps|
      && r.editHistory[..|m.editHistory|] == m.editHistory
      && (forall k :: 0 <= k < |steps| ==>
            r.editHistory[|m.editHistory| + k] == EditEntry(TextBefore(m, steps, k), steps[k].at))
      && (steps != [] ==> r.text == steps[|steps| - 1].text && r.isEdited)
      && (steps == [] ==> r == m)
      && r.id == m.id && r.senderId == m.senderId && r.receiverId == m.receiverId
      && r.image == m.image && r.replyTo == m.replyTo && r.readBy == m.readBy && r.isDeleted == m.isDeleted
    decreases |steps|
  {
    if steps != [] {
      var m1 := Edited(m, steps[0].text, steps[0].at);
      var tail := steps[1..];
      EditSeriesHistory(m1, tail);
      var r := EditSeries(m, steps);
      assert r == EditSeries(m1, tail);
      var h := |m.editHistory|;
      assert |m1.editHistory| == h + 1;
      assert r.editHistory[..h] == m.editHistory by {
        assert r.editHistory[..h] == r.editHistory[..h + 1][..h];
      }
      forall k | 0 <= k < |steps|
        ensures r.editHistory[h + k] == EditEntry(TextBefore(m, steps, k), steps[k].at)
      {
        if k == 0 {
          assert r.editHistory[h] == r.editHistory[..h + 1][h];
        } else {
          assert r.editHistory[h + k] == r.editHistory[|m1.editHistory| + (k - 1)];
          assert tail[k - 1] == steps[k];
          assert TextBefore(m1, tail, k - 1) == TextBefore(m, steps, k);
        }
      }
      if tail != [] {
        assert tail[|tail| - 1] == steps[|steps| - 1];
      }
    }
  }

  /** Deleting is idempotent: a second delete leaves the record as the first one did. */
  lemma DeleteIdempotent(m: Message)
    ensures Tombstoned(Tombstoned(m)) == Tombstoned(m)
  {
  }

  /** The first receipt is final: marking read again, at any later time, changes nothing, so the
      first `readAt` is never overwritten. */
  lemma {:induction false} ReadAgainChangesNothing(m: Message, reader: UserId, first: Time, later: Time)
    ensures var once := Acknowledged(m, reader, first);
      && HasRead(once, reader)
      && Acknowledged(once, reader, later) == once
      && (!HasRead(m, reader) ==> once.readBy[|m.readBy|] == Receipt(reader, first))
  {
    if !HasRead(m, reader) {
      var once := Acknowledged(m, reader, first);
      assert once.readBy[|m.readBy|].userId == reader;
    }
  }

  /** An edit is accepted on a deleted message too: it keeps the tombstone flag, records the
      tombstone text in the history and shows the new text again. */
  lemma EditAfterDelete(m: Message, text: Option<string>, at: Time)
    ensures var r := Edited(Tombstoned(m), text, at);
      && r.isDeleted && r.text == text && r.image.None?
      && r.editHistory[|r.editHistory| - 1].text == Some(Tombstone)
  {
  }
}
