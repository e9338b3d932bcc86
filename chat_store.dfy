/** The client-side chat store: the message list of the open conversation, the selected user, the
    last error and the loading flags, changed by the store's actions one `set` at a time.

    Each network call is replaced by its response, passed in as a parameter; the socket handler
    for `newMessage` is a method that receives the pushed message. */
module ChatClient {
  import opened MessageModel

  /** A user object as the client holds it; only its `_id` matters to the store. */
  datatype User = User(id: UserId)

  /** The body a caller hands to `sendMessage`. */
  datatype MessageData = MessageData(text: Option<string>, image: Option<string>)

  /** The outcome of `GET /messages/:id`: the list, or a failure with the server's message if any. */
  datatype FetchResponse = Fetched(data: seq<Message>) | FetchFailed(serverMessage: Option<string>)

  /** The outcome of `POST /messages/send/:id`: the created message, or a failure. */
  datatype SendResponse = Sent(message: Message) | SendFailed(serverMessage: Option<string>)

  const FetchFallback: string := "Failed to fetch messages"
  const SendFallback: string := "Failed to send message"

  /** The error text the store records: the server's message when it sent a non-empty one,
      otherwise the action's fallback text. */
  function ErrorText(serverMessage: Option<string>, fallback: string): (e: string)
    ensures Truthy(serverMessage) ==> e == serverMessage.value
    ensures !Truthy(serverMessage) ==> e == fallback
    ensures fallback != "" ==> e != ""
  {
    if Truthy(serverMessage) then serverMessage.value else fallback
  }

  class ChatStore {
    var messages: seq<Message>
    var selectedUser: Option<User>
    var error: Option<string>
    var isUsersLoading: bool
    var isMessagesLoading: bool

    /** Between actions no request is in flight, so both loading flags are down. */
    ghost predicate Valid()
      reads this
    {
      !isUsersLoading && !isMessagesLoading
    }

    constructor ()
      ensures Valid()
      ensures messages == [] && selectedUser.None? && error.None?
    {
      messages := [];
      selectedUser := None;
      error := None;
      isUsersLoading := false;
      isMessagesLoading := false;
    }

    method SetError(e: string)
      modifies this
      ensures error == Some(e)
      ensures messages == old(messages) && selectedUser == old(selectedUser)
      ensures isUsersLoading == old(isUsersLoading) && isMessagesLoading == old(isMessagesLoading)
    {
      error := Some(e);
    }

    method ClearError()
      modifies this
      ensures error.None?
      ensures messages == old(messages) && selectedUser == old(selectedUser)
      ensures isUsersLoading == old(isUsersLoading) && isMessagesLoading == old(isMessagesLoading)
    {
      error := None;
    }

    /** Loads the conversation with `userId`. Nothing happens for a missing or empty id. On success
        the list is replaced by the fetched one; on failure the list is kept and the error set.
        Either way the loading flag ends down. Returns the fetched list, the empty list on failure,
        and nothing on the early return. */
    method GetMessages(userId: Option<UserId>, response: FetchResponse) returns (result: Option<seq<Message>>)
      requires Valid()
      modifies this
      ensures Valid()
      ensures !Truthy(userId) ==> result.None? && unchanged(this)
      ensures Truthy(userId) ==> selectedUser == old(selectedUser)
      ensures Truthy(userId) && response.Fetched? ==>
        messages == response.data && error.None? && result == Some(response.data)
      ensures Truthy(userId) && response.FetchFailed? ==>
        messages == old(messages) && error == Some(ErrorText(response.serverMessage, FetchFallback))
        && result == Some([])
    {
      if !Truthy(userId) {
        return None;
      }
      isMessagesLoading := true;
      error := None;
      match response {
        case Fetched(data) =>
          messages := data;
          result := Some(data);
        case FetchFailed(serverMessage) =>
          error := Some(ErrorText(serverMessage, FetchFallback));
          result := Some([]);
      }
      isMessagesLoading := false;
    }

    /** Sends a message to the selected user. Nothing happens without a selected user with an id or
        without data. On success the response is appended to the list as it was when the action
        started; on failure the list is kept and the error set. */
    method SendMessage(data: Option<MessageData>, response: SendResponse) returns (sent: Option<Message>)
      requires Valid()
      modifies this
      ensures Valid()
      ensures selectedUser == old(selectedUser)
      ensures selectedUser.None? || selectedUser.value.id == "" || data.None? ==>
        sent.None? && unchanged(this)
      ensures selectedUser.Some? && selectedUser.value.id != "" && data.Some? && response.Sent? ==>
        messages == old(messages) + [response.message] && error.None? && sent == Some(response.message)
      ensures selectedUser.Some? && selectedUser.value.id != "" && data.Some? && response.SendFailed? ==>
        messages == old(messages) && error == Some(ErrorText(response.serverMessage, SendFallback))
        && sent.None?
    {
      var snapshot := messages;
      if selectedUser.None? || selectedUser.value.id == "" || data.None? {
        return None;
      }
      error := None;
      match response {
        case Sent(m) =>
          var updated := snapshot + [m];
          messages := updated;
          sent := Some(m);
        case SendFailed(serverMessage) =>
          error := Some(ErrorText(serverMessage, SendFallback));
          sent := None;
      }
    }

    /** The `newMessage` socket handler. `subscribedPeer` is the selected user captured when the
        handler was registered; a message from anyone else is ignored. */
    method OnNewMessage(subscribedPeer: User, m: Message)
      modifies this
      ensures m.senderId == subscribedPeer.id ==> messages == old(messages) + [m]
      ensures m.senderId != subscribedPeer.id ==> messages == old(messages)
      ensures selectedUser == old(selectedUser) && error == old(error)
      ensures isUsersLoading == old(isUsersLoading) && isMessagesLoading == old(isMessagesLoading)
    {
      if m.senderId != subscribedPeer.id {
        return;
      }
      messages := messages + [m];
    }

    /** Selects a user (or none) and, for a user, loads that conversation. */
    method SetSelectedUser(user: Option<User>, response: FetchResponse)
      requires Valid()
      modifies this
      ensures Valid()
      ensures selectedUser == user
      ensures user.None? || user.value.id == "" ==>
        messages == old(messages) && error == old(error)
      ensures user.Some? && user.value.id != "" && response.Fetched? ==>
        messages == response.data && error.None?
      ensures user.Some? && user.value.id != "" && response.FetchFailed? ==>
        messages == old(messages) && error == Some(ErrorText(response.serverMessage, FetchFallback))
    {
      selectedUser := user;
      if user.Some? {
        var _ := GetMessages(Some(user.value.id), response);
      }
    }

    /** Forgets the open conversation. */
    method Cleanup()
      modifies this
      ensures messages == [] && selectedUser.None? && error.None?
      ensures isUsersLoading == old(isUsersLoading) && isMessagesLoading == old(isMessagesLoading)
    {
      messages := [];
      selectedUser := None;
      error := None;
    }
  }
}
