/** The one-off migration script: a bulk update that writes the default values of the five fields
    the mutation handlers rely on into every stored message. */
module MessageMigration {
  import opened MessageModel

  /** The `$set` of the update, applied to one record. */
  function Reset(m: Message): Message {
    m.(isEdited := false, editHistory := [], replyTo := None, readBy := [], isDeleted := false)
  }

  /** Every stored message after the update: the same keys, every record with the defaults and
      with its id, participants, text and image as before. */
  function Migrated(store: map<MessageId, Message>): (r: map<MessageId, Message>)
    ensures r.Keys == store.Keys
    ensures forall k :: k in r ==>
      && HasDefaults(r[k]) && r[k].replyTo.None?
      && r[k].id == store[k].id && r[k].senderId == store[k].senderId
      && r[k].receiverId == store[k].receiverId
      && r[k].text == store[k].text && r[k].image == store[k].image
  {
    map k | k in store :: Reset(store[k])
  }

  /** The update run over the whole collection, one document at a time. */
  method Migrate(store: map<MessageId, Message>) returns (migrated: map<MessageId, Message>)
    ensures migrated == Migrated(store)
  {
    migrated := store;
    var pending := store.Keys;
    while pending != {}
      invariant pending <= store.Keys && migrated.Keys == store.Keys
      invariant forall k :: k in store && k !in pending ==> migrated[k] == Reset(store[k])
      invariant forall k :: k in pending ==> migrated[k] == store[k]
      decreases pending
    {
      var k :| k in pending;
      migrated := migrated[k := Reset(migrated[k])];
      pending := pending - {k};
    }
  }

  /** Running the migration twice gives the same collection as running it once. */
  lemma {:induction false} MigrationIdempotent(store: map<MessageId, Message>)
    ensures Migrated(Migrated(store)) == Migrated(store)
  {
    var once := Migrated(store);
    var twice := Migrated(once);
    assert twice.Keys == once.Keys;
    forall k | k in once ensures twice[k] == once[k] {
      assert Reset(Reset(store[k])) == Reset(store[k]);
    }
  }

  /** A deleted message comes out of the migration with the flag cleared and the tombstone text
      still in place, showing as an ordinary message. */
  lemma MigrationKeepsTombstoneText(store: map<MessageId, Message>, k: MessageId)
    requires k in store && store[k].isDeleted && store[k].text == Some(Tombstone)
    ensures !Migrated(store)[k].isDeleted && Migrated(store)[k].text == Some(Tombstone)
  {
  }

  /** The migration keeps a well-formed collection well formed with the same id counter: it
      clears every reply link, every receipt and every history, and these clear together with
      their flags. */
  lemma {:induction false} MigrationKeepsWellFormed(store: map<MessageId, Message>, nextId: MessageId)
    requires WellFormed(store, nextId)
    ensures WellFormed(Migrated(store), nextId)
  {
    var r := Migrated(store);
    forall k | k in r
      ensures && k < nextId && r[k].id == k && RecordInvariant(r[k])
              && (r[k].replyTo.Some? ==> r[k].replyTo.value in r && r[k].replyTo.value < k)
    {
      assert r[k] == Reset(store[k]);
    }
  }
}
