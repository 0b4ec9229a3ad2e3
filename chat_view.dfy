/**
 * The chat screen (ui/chat_view.c): a history of at most 50 messages kept in
 * a fixed array, a scroll position over it, five visible rows, the scroll
 * arrows and the key handling. Drawing, the GUI's view and its locking, and
 * the text-input callback's own work are not modelled; the tick counter that
 * stamps a message is a parameter.
 */
module ChatView {
  import opened Bytes
  import opened CString

  const MaxMessages: nat := 50
  const DisplayLines: nat := 5
  /** The characters the sender and content arrays keep (32 and 128 bytes with the terminator). */
  const SenderCapacity: nat := 31
  const ContentCapacity: nat := 127
  const NicknameCapacity: nat := 31
  /** "You", the nickname a new view shows. */
  const InitialNickname: seq<Byte> := ['Y' as Byte, 'o' as Byte, 'u' as Byte]

  /** One history entry: the C strings of its arrays, whether it is the user's own, its tick stamp. */
  datatype ChatMessage = ChatMessage(sender: seq<Byte>, content: seq<Byte>, isOwn: bool, timestamp: U32)

  predicate Fits(m: ChatMessage)
  {
    |m.sender| <= SenderCapacity && |m.content| <= ContentCapacity && NulFree(m.sender) && NulFree(m.content)
  }

  /** The entry chat_view_add_message stores: both strings cut by strncpy to what their arrays hold. */
  function Entry(sender: seq<Byte>, content: seq<Byte>, isOwn: bool, tick: U32): (m: ChatMessage)
    requires NulFree(sender) && NulFree(content)
    ensures Fits(m)
    ensures |m.sender| <= |sender| && m.sender == sender[..|m.sender|]
    ensures |m.content| <= |content| && m.content == content[..|m.content|]
    ensures |sender| <= SenderCapacity ==> m.sender == sender
    ensures |content| <= ContentCapacity ==> m.content == content
  {
    ChatMessage(StrNCopy(sender, SenderCapacity), StrNCopy(content, ContentCapacity), isOwn, tick)
  }

  /** The highest scroll position the screen keeps: the last five messages on screen. */
  function MaxScroll(count: nat): nat
  {
    if count > DisplayLines then count - DisplayLines else 0
  }

  /**
   * The end of the drawn rows. `end - start` is an unsigned difference: were
   * the scroll position past the end it would wrap to a large value and also
   * take the five-row branch.
   */
  function WindowEnd(start: nat, count: nat): (r: nat)
    ensures start <= r <= start + DisplayLines
    ensures start <= count ==> r <= count
  {
    if count < start || count - start > DisplayLines then start + DisplayLines else count
  }

  /** The "^" arrow: drawn when the view is scrolled down at all. */
  predicate ShowsUp(scroll: nat)
  {
    scroll > 0
  }

  /** The "v" arrow: drawn when messages lie below the last drawn row. */
  predicate ShowsDown(scroll: nat, count: nat): (r: bool)
    ensures r <==> scroll + DisplayLines < count
  {
    WindowEnd(scroll, count) < count
  }

  /** The Up key scrolls (and is consumed) exactly when the view is not at the top. */
  predicate CanScrollUp(scroll: nat)
  {
    scroll > 0
  }

  /** The Down key scrolls (and is consumed) exactly when five rows from the scroll position do not reach the end. */
  predicate CanScrollDown(scroll: nat, count: nat): (r: bool)
    ensures r ==> scroll + 1 <= MaxScroll(count)
  {
    scroll + DisplayLines < count
  }

  /** In a reachable state the drawn rows are the messages from the scroll position on, at most five of them. */
  lemma WindowRows(scroll: nat, count: nat)
    requires scroll <= MaxScroll(count)
    ensures scroll <= WindowEnd(scroll, count) <= count
    ensures WindowEnd(scroll, count) - scroll == if count - scroll < DisplayLines then count - scroll else DisplayLines
  {
  }

  /** With messages on screen, each arrow is drawn exactly when its key would scroll. */
  lemma ArrowsMatchKeys(scroll: nat, count: nat)
    requires count > 0 && scroll <= MaxScroll(count)
    ensures ShowsUp(scroll) <==> CanScrollUp(scroll)
    ensures ShowsDown(scroll, count) <==> CanScrollDown(scroll, count)
  {
  }

  /** The history after one more message: appended, the oldest dropped once 50 are held. */
  function Pushed(list: seq<ChatMessage>, m: ChatMessage): (r: seq<ChatMessage>)
    requires |list| <= MaxMessages
    ensures |r| <= MaxMessages && |r| > 0 && r[|r| - 1] == m
  {
    if |list| < MaxMessages then list + [m] else list[1..] + [m]
  }

  /** The last 50 of a sequence of messages. */
  function Latest(s: seq<ChatMessage>): (r: seq<ChatMessage>)
    ensures |r| <= MaxMessages
  {
    if |s| <= MaxMessages then s else s[|s| - MaxMessages..]
  }

  /** The history after a run of messages, one chat_view_add_message each. */
  function AfterAll(list: seq<ChatMessage>, ms: seq<ChatMessage>): (r: seq<ChatMessage>)
    requires |list| <= MaxMessages
    decreases |ms|
  {
    if ms == [] then list else AfterAll(Pushed(list, ms[0]), ms[1..])
  }

  /** One push keeps the last 50 of the old history and the new message. */
  lemma PushedIsLatest(list: seq<ChatMessage>, m: ChatMessage)
    requires |list| <= MaxMessages
    ensures Pushed(list, m) == Latest(list + [m])
  {
    if |list| == MaxMessages {
      assert (list + [m])[1..] == list[1..] + [m];
    }
  }

  lemma LatestOfLatest(x: seq<ChatMessage>, y: seq<ChatMessage>)
    ensures Latest(Latest(x) + y) == Latest(x + y)
  {
    if |x| > MaxMessages {
      var k := |x| - MaxMessages;
      assert Latest(x) + y == (x + y)[k..];
      assert (x + y)[k..][|y|..] == (x + y)[k + |y|..];
    }
  }

  /**
   * Whatever messages arrive, the screen holds the 50 most recent of them in
   * arrival order: the history is the last 50 of everything added since it was
   * last empty.
   */
  lemma {:induction false} HistoryKeepsLatest(list: seq<ChatMessage>, ms: seq<ChatMessage>)
    requires |list| <= MaxMessages
    ensures AfterAll(list, ms) == Latest(list + ms)
    decreases |ms|
  {
    if ms != [] {
      var m := ms[0];
      PushedIsLatest(list, m);
      HistoryKeepsLatest(Pushed(list, m), ms[1..]);
      LatestOfLatest(list + [m], ms[1..]);
      assert list + [m] + ms[1..] == list + ms;
    }
  }

  /** The view's model: the message array, its fill count, the scroll position and the status fields. */
  class ChatView {
    const messages: array<ChatMessage>
    var messageCount: nat
    var scrollOffset: nat
    var peerCount: Byte
    var isConnected: bool
    var localNickname: seq<Byte>
    /** Whether a text-input callback is set. */
    var hasCallback: bool

    /** The held messages, oldest first. */
    function History(): seq<ChatMessage>
      reads this, messages
      requires messageCount <= messages.Length
    {
      messages[..messageCount]
    }

    ghost predicate Valid()
      reads this, messages
    {
      && messages.Length == MaxMessages
      && messageCount <= MaxMessages
      && scrollOffset <= MaxScroll(messageCount)
      && (forall i :: 0 <= i < messageCount ==> Fits(messages[i]))
      && |localNickname| <= NicknameCapacity && NulFree(localNickname)
    }

    /** chat_view_alloc: everything zeroed, no messages, nickname "You". */
    constructor ()
      ensures Valid() && fresh(messages)
      ensures History() == [] && scrollOffset == 0
      ensures peerCount == 0 && !isConnected && !hasCallback
      ensures localNickname == InitialNickname
    {
      messages := new ChatMessage[MaxMessages](_ => ChatMessage([], [], false, 0));
      messageCount := 0;
      scrollOffset := 0;
      peerCount := 0;
      isConnected := false;
      localNickname := InitialNickname;
      hasCallback := false;
    }

    /** chat_view_set_callback: a callback is set or cleared. */
    method SetCallback(present: bool)
      requires Valid()
      modifies this
      ensures Valid()
      ensures hasCallback == present
      ensures History() == old(History()) && scrollOffset == old(scrollOffset)
      ensures peerCount == old(peerCount) && isConnected == old(isConnected) && localNickname == old(localNickname)
    {
      hasCallback := present;
    }

    /**
     * chat_view_add_message: the new entry goes after the others, or, with 50
     * held, the others shift down one slot over the oldest and it goes last;
     * then the view scrolls so that the last five are on screen.
     */
    method AddMessage(sender: seq<Byte>, content: seq<Byte>, isOwn: bool, tick: U32)
      requires Valid() && NulFree(sender) && NulFree(content)
      modifies this, messages
      ensures Valid()
      ensures History() == Pushed(old(History()), Entry(sender, content, isOwn, tick))
      ensures scrollOffset == if messageCount > DisplayLines then messageCount - DisplayLines else old(scrollOffset)
      ensures WindowEnd(scrollOffset, messageCount) == messageCount
      ensures peerCount == old(peerCount) && isConnected == old(isConnected)
      ensures localNickname == old(localNickname) && hasCallback == old(hasCallback)
    {
      var m := Entry(sender, content, isOwn, tick);
      if messageCount < MaxMessages {
        messages[messageCount] := m;
        messageCount := messageCount + 1;
      } else {
        ghost var before := messages[..];
        ShiftOut();
        messages[MaxMessages - 1] := m;
        assert messages[..] == before[1..] + [m];
      }
      if messageCount > DisplayLines {
        scrollOffset := messageCount - DisplayLines;
      }
    }

    /** The memmove of chat_view_add_message: entries 1..49 move down to 0..48; slot 49 keeps its entry. */
    method ShiftOut()
      requires messages.Length == MaxMessages
      modifies messages
      ensures messages[..MaxMessages - 1] == old(messages[1..])
      ensures messages[MaxMessages - 1] == old(messages[MaxMessages - 1])
    {
      var i := 0;
      while i < MaxMessages - 1
        invariant 0 <= i <= MaxMessages - 1
        invariant forall j :: 0 <= j < i ==> messages[j] == old(messages[j + 1])
        invariant forall j :: i <= j < MaxMessages ==> messages[j] == old(messages[j])
      {
        messages[i] := messages[i + 1];
        i := i + 1;
      }
    }

    /**
     * chat_view_input_callback: only short presses and repeats act. Up and Down
     * move the view by one row when they can; OK is always consumed and calls
     * the callback when one is set (`notified`); Back and the other keys are
     * left to the view dispatcher.
     */
    method HandleInput(event: InputType, key: InputKey) returns (consumed: bool, notified: bool)
      requires Valid()
      modifies this
      ensures Valid()
      ensures var acts := event == Short || event == Repeat;
              && consumed == (acts && ((key == Up && CanScrollUp(old(scrollOffset)))
                                       || (key == Down && CanScrollDown(old(scrollOffset), messageCount))
                                       || key == Ok))
              && notified == (acts && key == Ok && hasCallback)
              && scrollOffset == (if acts && key == Up && CanScrollUp(old(scrollOffset)) then old(scrollOffset) - 1
                                  else if acts && key == Down && CanScrollDown(old(scrollOffset), messageCount) then old(scrollOffset) + 1
                                  else old(scrollOffset))
      ensures messageCount == old(messageCount) && peerCount == old(peerCount) && isConnected == old(isConnected)
      ensures localNickname == old(localNickname) && hasCallback == old(hasCallback)
    {
      consumed := false;
      notified := false;
      if event == Short || event == Repeat {
        match key {
          case Up =>
            if scrollOffset > 0 {
              scrollOffset := scrollOffset - 1;
              consumed := true;
            }
          case Down =>
            if scrollOffset + DisplayLines < messageCount {
              scrollOffset := scrollOffset + 1;
              consumed := true;
            }
          case Ok =>
            notified := hasCallback;
            consumed := true;
          case Back =>
            consumed := false;
          case _ =>
        }
      }
    }

    /** chat_view_set_peer_count. */
    method SetPeerCount(count: Byte)
      requires Valid()
      modifies this
      ensures Valid()
      ensures peerCount == count
      ensures History() == old(History()) && scrollOffset == old(scrollOffset)
      ensures isConnected == old(isConnected) && localNickname == old(localNickname) && hasCallback == old(hasCallback)
    {
      peerCount := count;
    }

    /** chat_view_set_connected. */
    method SetConnected(connected: bool)
      requires Valid()
      modifies this
      ensures Valid()
      ensures isConnected == connected
      ensures History() == old(History()) && scrollOffset == old(scrollOffset)
      ensures peerCount == old(peerCount) && localNickname == old(localNickname) && hasCallback == old(hasCallback)
    {
      isConnected := connected;
    }

    /** chat_view_clear_messages: the count and the scroll position go to zero; the slots are left as they are. */
    method Clear()
      requires Valid()
      modifies this
      ensures Valid()
      ensures History() == [] && scrollOffset == 0
      ensures messages[..] == old(messages[..])
      ensures peerCount == old(peerCount) && isConnected == old(isConnected)
      ensures localNickname == old(localNickname) && hasCallback == old(hasCallback)
    {
      messageCount := 0;
      scrollOffset := 0;
    }

    /** chat_view_set_nickname: the name cut to the 31 characters the array holds. */
    method SetNickname(nickname: seq<Byte>)
      requires Valid() && NulFree(nickname)
      modifies this
      ensures Valid()
      ensures localNickname == StrNCopy(nickname, NicknameCapacity)
      ensures History() == old(History()) && scrollOffset == old(scrollOffset)
      ensures peerCount == old(peerCount) && isConnected == old(isConnected) && hasCallback == old(hasCallback)
    {
      localNickname := StrNCopy(nickname, NicknameCapacity);
    }
  }

  /** The firmware's input event types and keys. */
  datatype InputType = Press | Release | Short | Long | Repeat
  datatype InputKey = Up | Down | Right | Left | Ok | Back
}
