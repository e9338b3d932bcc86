/** The message bubble component: the edit box with its `isEditing` / `editedText` state, the rule
    that decides whether a submitted draft becomes an edit request, and which actions it offers. */
module MessageContent {
  import opened MessageModel

  /** The characters JavaScript's `String.prototype.trim` strips: white space and line terminators. */
  predicate IsWhitespace(c: char) {
    var n := c as int;
    || 0x09 <= n <= 0x0D || n == 0x20 || n == 0xA0 || n == 0x1680 || 0x2000 <= n <= 0x200A
    || n == 0x2028 || n == 0x2029 || n == 0x202F || n == 0x205F || n == 0x3000 || n == 0xFEFF
  }

  predicate AllWhitespace(s: string) {
    forall i :: 0 <= i < |s| ==> IsWhitespace(s[i])
  }

  /** `s` without its leading white space. */
  function TrimStart(s: string): (r: string)
    ensures |r| <= |s| && r == s[|s| - |r|..]
    ensures forall i :: 0 <= i < |s| - |r| ==> IsWhitespace(s[i])
    ensures r != [] ==> !IsWhitespace(r[0])
  {
    if s != [] && IsWhitespace(s[0]) then
      var r := TrimStart(s[1..]);
      assert s[1..][|s| - 1 - |r|..] == s[|s| - |r|..];
      r
    else s
  }

  /** `s` without its trailing white space. */
  function TrimEnd(s: string): (r: string)
    ensures |r| <= |s| && r == s[..|r|]
    ensures forall i :: |r| <= i < |s| ==> IsWhitespace(s[i])
    ensures r != [] ==> !IsWhitespace(r[|r| - 1])
  {
    if s != [] && IsWhitespace(s[|s| - 1]) then
      var r := TrimEnd(s[..|s| - 1]);
      assert s[..|s| - 1][..|r|] == s[..|r|];
      r
    else s
  }

  /** `s` without leading and trailing white space. */
  function Trim(s: string): string {
    TrimEnd(TrimStart(s))
  }

  /** The trimmed text sits in the original right after the leading white space. */
  lemma TrimIsSlice(s: string)
    ensures var i := |s| - |TrimStart(s)|; i + |Trim(s)| <= |s| && Trim(s) == s[i..i + |Trim(s)|]
  {
    var a := TrimStart(s);
    var t := TrimEnd(a);
    assert s[|s| - |a|..][..|t|] == s[|s| - |a|..|s| - |a| + |t|];
  }

  /** White space cut from the end of a suffix of `s` is white space of `s`. */
  lemma CutFromSuffix(s: string, a: string, t: string)
    requires |a| <= |s| && a == s[|s| - |a|..] && |t| <= |a|
    requires forall k :: |t| <= k < |a| ==> IsWhitespace(a[k])
    ensures forall k :: |s| - |a| + |t| <= k < |s| ==> IsWhitespace(s[k])
  {
    forall k | |s| - |a| + |t| <= k < |s| ensures IsWhitespace(s[k]) {
      assert s[k] == a[k - (|s| - |a|)];
    }
  }

  /** What `TrimEnd` cuts from the already left-trimmed text is white space of the original. */
  lemma {:induction false} TrimCutIsWhitespace(s: string)
    ensures forall k :: |s| - |TrimStart(s)| + |Trim(s)| <= k < |s| ==> IsWhitespace(s[k])
  {
    var a := TrimStart(s);
    var t := TrimEnd(a);
    assert Trim(s) == t;
    CutFromSuffix(s, a, t);
  }

  /** The trimmed text is a piece of the original with only white space cut away on either side,
      and it neither starts nor ends with white space. */
  lemma {:induction false} TrimIsInnerPart(s: string)
    ensures var i := |s| - |TrimStart(s)|;
      && 0 <= i <= i + |Trim(s)| <= |s| && Trim(s) == s[i..i + |Trim(s)|]
      && (forall k :: 0 <= k < i ==> IsWhitespace(s[k]))
      && (forall k :: i + |Trim(s)| <= k < |s| ==> IsWhitespace(s[k]))
    ensures Trim(s) != [] ==> !IsWhitespace(Trim(s)[0]) && !IsWhitespace(Trim(s)[|Trim(s)| - 1])
  {
    TrimIsSlice(s);
    TrimCutIsWhitespace(s);
    var a := TrimStart(s);
    assert Trim(s) != [] ==> Trim(s)[0] == a[0];
  }

  /** A draft trims to nothing exactly when it is all white space. */
  lemma TrimEmptyIffBlank(s: string)
    ensures Trim(s) == "" <==> AllWhitespace(s)
  {
    var a := TrimStart(s);
    assert a != [] ==> a[0] == s[|s| - |a|];
    assert a == [] ==> AllWhitespace(s);
  }

  /** Trimming twice is trimming once. */
  lemma TrimIdempotent(s: string)
    ensures Trim(Trim(s)) == Trim(s)
  {
    var t := Trim(s);
    TrimIsInnerPart(s);
    assert TrimStart(t) == t;
    assert TrimEnd(t) == t;
  }

  /** What `handleEdit` does with the draft `draft` for a message whose text is `current`. */
  datatype EditDecision =
    | Throws          // the draft is undefined, so trimming it throws
    | Close           // the trimmed draft is the current text: leave the box, send nothing
    | Keep            // the draft is blank: stay in the box, send nothing
    | Submit(text: string)  // send the untrimmed draft as the new text

  function DecideEdit(draft: Option<string>, current: Option<string>): (d: EditDecision)
    ensures d == Throws <==> draft.None?
    ensures d == Close <==> draft.Some? && current == Some(Trim(draft.value))
    ensures d == Keep <==> draft.Some? && Trim(draft.value) == "" && current != Some("")
    ensures d.Submit? ==> (draft.Some? && d.text == draft.value
                           && Trim(draft.value) != "" && current != Some(Trim(draft.value)))
  {
    match draft
    case None => Throws
    case Some(s) =>
      if current == Some(Trim(s)) then Close
      else if Trim(s) != "" then Submit(s)
      else Keep
  }

  /** The box stays open without sending exactly when the draft is all white space (and the text
      is not empty); whatever is submitted has a character that is not white space. */
  lemma {:induction false} BlankDraftIsKept(draft: string, current: Option<string>)
    ensures DecideEdit(Some(draft), current) == Keep <==> AllWhitespace(draft) && current != Some("")
    ensures DecideEdit(Some(draft), current).Submit? ==> !AllWhitespace(draft)
  {
    TrimEmptyIffBlank(draft);
  }

  /** The trimmed draft is compared with the untrimmed text, so an unchanged text that ends in a
      space is sent again as an edit instead of closing the box. */
  lemma PaddedDraftIsResent(t: string)
    requires Trim(t) != t && Trim(t) != ""
    ensures DecideEdit(Some(t), Some(t)) == Submit(t)
  {
  }

  /** One such text: "hi " trims to "hi". */
  lemma PaddedTextIsResent()
    ensures DecideEdit(Some("hi "), Some("hi ")) == Submit("hi ")
  {
    var padded, bare := "hi ", "hi";
    assert !IsWhitespace(padded[0]) && !IsWhitespace(bare[1]) && IsWhitespace(padded[2]);
    assert TrimStart(padded) == padded;
    assert padded[..2] == bare && TrimEnd(bare) == bare;
    assert Trim(padded) == bare;
  }

  /** An edit request handed to the store's `editMessage`. */
  datatype EditRequest = EditRequest(messageId: MessageId, text: string)

  /** Whether an awaited call returned normally or threw. */
  datatype CallOutcome = Completes | Fails

  /** A key event in the edit box. */
  datatype Key = Enter | Escape | OtherKey

  /** The rendered bubble: a deleted message shows only its text; a live one shows the image when
      there is one, the editor or the text with the edited mark, and its action buttons. */
  datatype View =
    | DeletedView(text: Option<string>)
    | LiveView(showsImage: bool, editor: bool, editedMark: bool, ownerActions: bool, replyAction: bool)

  predicate IsOwnMessage(m: Message, authUserId: UserId) {
    m.senderId == authUserId
  }

  /** The bubble as the component renders it; which actions a user is offered is stated on its own
      in `ActionGate`. */
  function Render(m: Message, authUserId: UserId, isEditing: bool): (v: View)
    ensures v.LiveView? ==> !(v.editor && v.ownerActions) && !(v.editor && v.editedMark)
    ensures v.LiveView? && v.ownerActions ==> m.senderId == authUserId
    ensures v.LiveView? && v.editedMark ==> m.isEdited
  {
    if m.isDeleted then DeletedView(m.text)
    else
      var own := IsOwnMessage(m, authUserId);
      LiveView(Truthy(m.image), isEditing, !isEditing && m.isEdited, own && !isEditing, true)
  }

  /** The edit and delete buttons are shown for the sender's own live message when the box is
      closed, and never on a deleted message. */
  predicate OffersOwnerActions(m: Message, authUserId: UserId, isEditing: bool) {
    Render(m, authUserId, isEditing).LiveView? && Render(m, authUserId, isEditing).ownerActions
  }

  /** Edit and delete are offered only to the sender, only while not editing, and a deleted message
      offers no action at all. */
  lemma ActionGate(m: Message, authUserId: UserId, isEditing: bool)
    ensures OffersOwnerActions(m, authUserId, isEditing) <==>
      m.senderId == authUserId && !isEditing && !m.isDeleted
    ensures m.isDeleted ==> Render(m, authUserId, isEditing) == DeletedView(m.text)
  {
  }

  /** One rendered bubble's component state. */
  class MessageBox {
    const message: Message
    const authUserId: UserId
    var isEditing: bool
    var editedText: Option<string>

    /** Only the sender's own live message can be in editing mode. */
    ghost predicate Valid()
      reads this
    {
      isEditing ==> IsOwnMessage(message, authUserId) && !message.isDeleted
    }

    constructor (message: Message, authUserId: UserId)
      ensures Valid()
      ensures this.message == message && this.authUserId == authUserId
      ensures !isEditing && editedText == message.text
    {
      this.message := message;
      this.authUserId := authUserId;
      isEditing := false;
      editedText := message.text;
    }

    /** The pencil button, shown only when the owner actions are offered. */
    method StartEditing()
      requires Valid() && OffersOwnerActions(message, authUserId, isEditing)
      modifies this
      ensures Valid()
      ensures isEditing && editedText == old(editedText)
    {
      isEditing := true;
    }

    /** The trash button, shown only when the owner actions are offered: asks to delete this
        message, which is then the user's own and live, as `ActionGate` shows. */
    method DeleteClicked() returns (messageId: MessageId)
      requires OffersOwnerActions(message, authUserId, isEditing)
      ensures messageId == message.id && message.senderId == authUserId && !message.isDeleted
    {
      messageId := message.id;
    }

    /** Typing in the text area. */
    method ChangeDraft(value: string)
      requires Valid() && isEditing
      modifies this
      ensures Valid()
      ensures editedText == Some(value) && isEditing
    {
      editedText := Some(value);
    }

    /** The check button, or Enter: `editCall` says whether the awaited `editMessage` call returns
        normally. The draft is kept as it is. */
    method HandleEdit(editCall: CallOutcome) returns (issued: Option<EditRequest>)
      requires Valid() && isEditing
      modifies this
      ensures Valid()
      ensures editedText == old(editedText)
      ensures var d := DecideEdit(old(editedText), message.text);
        && (issued.Some? <==> d.Submit?)
        && (issued.Some? ==> issued.value == EditRequest(message.id, d.text))
        && (isEditing <==> !(d == Close || (d.Submit? && editCall == Completes)))
      ensures issued.Some? ==> message.senderId == authUserId
    {
      issued := None;
      match DecideEdit(editedText, message.text) {
        case Throws =>
        case Close =>
          isEditing := false;
        case Keep =>
        case Submit(text) =>
          issued := Some(EditRequest(message.id, text));
          if editCall == Completes {
            isEditing := false;
          }
      }
    }

    /** The cancel button: leave the box and put the message's text back into the draft. */
    method Cancel()
      requires Valid() && isEditing
      modifies this
      ensures Valid()
      ensures !isEditing && editedText == message.text
    {
      isEditing := false;
      editedText := message.text;
    }

    /** A key press in the text area: Enter without Shift submits, Escape cancels. */
    method HandleKeyPress(key: Key, shiftKey: bool, editCall: CallOutcome) returns (issued: Option<EditRequest>)
      requires Valid() && isEditing
      modifies this
      ensures Valid()
      ensures key == Escape ==> issued.None? && !isEditing && editedText == message.text
      ensures key == OtherKey || (key == Enter && shiftKey) ==>
        issued.None? && isEditing && editedText == old(editedText)
      ensures key == Enter && !shiftKey ==>
        var d := DecideEdit(old(editedText), message.text);
        && editedText == old(editedText)
        && (issued.Some? <==> d.Submit?)
        && (issued.Some? ==> issued.value == EditRequest(message.id, d.text))
        && (isEditing <==> !(d == Close || (d.Submit? && editCall == Completes)))
    {
      issued := None;
      if key == Enter && !shiftKey {
        issued := HandleEdit(editCall);
      }
      if key == Escape {
        isEditing := false;
        editedText := message.text;
      }
    }
  }
}
