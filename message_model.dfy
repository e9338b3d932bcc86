/** The message record of the chat backend and the invariant of the stored collection.

    The schema file declares `senderId`, `receiverId`, `text` and `image`; the handlers and the
    migration script also use `isEdited`, `editHistory`, `replyTo`, `readBy` and `isDeleted`, so the
    record here carries all nine (plus its id). */
module MessageModel {

  type UserId = string

  /** Message ids are handed out in creation order; the model uses that order wherever it lists
      messages. */
  type MessageId = nat

  /** An abstract timestamp, standing for the value of `new Date()` at the moment of a call. */
  type Time = int

  datatype Option<T> = None | Some(value: T)

  /** One entry of `editHistory`: the text that an edit replaced, and when. */
  datatype EditEntry = EditEntry(text: Option<string>, editedAt: Time)

  /** One entry of `readBy`. */
  datatype Receipt = Receipt(userId: UserId, readAt: Time)

  datatype Message = Message(
    id: MessageId,
    senderId: UserId,
    receiverId: UserId,
    text: Option<string>,
    image: Option<string>,
    isEdited: bool,
    editHistory: seq<EditEntry>,
    replyTo: Option<MessageId>,
    readBy: seq<Receipt>,
    isDeleted: bool)

  /** The text a deleted message shows instead of its content. */
  const Tombstone: string := "This message has been deleted"

  /** A JavaScript string value (possibly `undefined`) is truthy unless it is missing or empty. */
  predicate Truthy(s: Option<string>) {
    s.Some? && s.value != ""
  }

  /** The defaults the migration writes and a freshly created message starts with. */
  predicate HasDefaults(m: Message) {
    !m.isEdited && m.editHistory == [] && m.readBy == [] && !m.isDeleted
  }

  /** `readBy` holds at most one receipt per user. */
  predicate ReceiptsUnique(readBy: seq<Receipt>) {
    forall i, j :: 0 <= i < j < |readBy| ==> readBy[i].userId != readBy[j].userId
  }

  /** What every stored record satisfies on its own. */
  predicate RecordInvariant(m: Message) {
    && (m.isEdited <==> m.editHistory != [])
    && (m.isDeleted ==> m.image.None?)
    && (forall r :: r in m.readBy ==> r.userId == m.receiverId)
    && ReceiptsUnique(m.readBy)
  }

  /** The invariant of the whole collection: ids match keys and lie below the next id to hand out,
      every record keeps its own invariant, and a reply points at an earlier stored message. */
  predicate WellFormed(store: map<MessageId, Message>, nextId: MessageId) {
    forall k :: k in store ==>
      && k < nextId
      && store[k].id == k
      && RecordInvariant(store[k])
      && (store[k].replyTo.Some? ==> store[k].replyTo.value in store && store[k].replyTo.value < k)
  }

  /** Receipts all from one user and unique by user: there is at most one of them. */
  lemma {:induction false} SingleReader(readBy: seq<Receipt>, u: UserId)
    requires ReceiptsUnique(readBy)
    requires forall r :: r in readBy ==> r.userId == u
    ensures |readBy| <= 1
  {
    ReceiptsIndexed(readBy, u);
  }

  /** The first two receipts, when there are two, are both from `u`; with uniqueness these two
      positions are all `SingleReader` needs. */
  lemma ReceiptsIndexed(readBy: seq<Receipt>, u: UserId)
    requires forall r :: r in readBy ==> r.userId == u
    ensures |readBy| > 1 ==> readBy[0].userId == u && readBy[1].userId == u
  {
    if |readBy| > 1 {
      assert readBy[0] in readBy && readBy[1] in readBy;
    }
  }

  /** Every stored message has been read by at most one user, its receiver. */
  lemma StoredReceiptsAtMostOne(store: map<MessageId, Message>, nextId: MessageId, k: MessageId)
    requires WellFormed(store, nextId) && k in store
    ensures |store[k].readBy| <= 1
  {
    SingleReader(store[k].readBy, store[k].receiverId);
  }

  /** Putting a record at a key keeps the collection well formed, if the record's own invariant,
      its id and its reply link are right. */
  lemma {:induction false} PutKeepsWellFormed(store: map<MessageId, Message>, nextId: MessageId, m: Message)
    requires WellFormed(store, nextId)
    requires m.id < nextId && RecordInvariant(m)
    requires m.id in store ==> m.replyTo == store[m.id].replyTo
    requires m.replyTo.Some? ==> m.replyTo.value in store && m.replyTo.value < m.id
    ensures WellFormed(store[m.id := m], nextId)
  {
    var s' := store[m.id := m];
    forall k | k in s'
      ensures && k < nextId && s'[k].id == k && RecordInvariant(s'[k])
              && (s'[k].replyTo.Some? ==> s'[k].replyTo.value in s' && s'[k].replyTo.value < k)
    {
      if k != m.id {
        assert s'[k] == store[k];
      }
    }
  }

  /** The collection stays well formed when the id counter moves on. */
  lemma {:induction false} BumpKeepsWellFormed(store: map<MessageId, Message>, nextId: MessageId)
    requires WellFormed(store, nextId)
    ensures WellFormed(store, nextId + 1)
  {
    forall k | k in store
      ensures && k < nextId + 1 && store[k].id == k && RecordInvariant(store[k])
              && (store[k].replyTo.Some? ==> store[k].replyTo.value in store && store[k].replyTo.value < k)
    {
    }
  }
}
