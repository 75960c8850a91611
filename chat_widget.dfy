/**
 * The support chat widget (`ChatWidget` in src/components/ChatWidget.tsx):
 * an append-only log of messages that opens with a greeting from the bot,
 * an input buffer, and an open/closed flag.
 *
 * Each accepted send appends the visitor's text and schedules one canned
 * reply from the bot. The 1-second timer is a counter of replies scheduled
 * and not yet delivered, and a step, `DeliverReply`, that delivers one.
 */
module Chat {
  import opened JsText

  /** One entry of the log: its text and whether the visitor wrote it. */
  datatype Entry = Entry(text: string, isUser: bool)

  const GreetingText := "Hi there! How can I help you with MediSync today?"
  const ReplyText := "Thanks for your message! Our team will get back to you shortly. In the meantime, feel free to explore our services or schedule a demo."

  /** The entry the log starts with. */
  const Greeting := Entry(GreetingText, false)
  /** The entry every delivered reply appends. */
  const Reply := Entry(ReplyText, false)

  /** Number of entries written by the visitor. */
  function UserCount(log: seq<Entry>): nat {
    if log == [] then 0 else (if log[0].isUser then 1 else 0) + UserCount(log[1..])
  }

  /** Number of entries written by the bot. */
  function BotCount(log: seq<Entry>): nat {
    if log == [] then 0 else (if log[0].isUser then 0 else 1) + BotCount(log[1..])
  }

  /** Both counts add up over a concatenation. */
  lemma {:induction false} CountsAppend(a: seq<Entry>, b: seq<Entry>)
    ensures UserCount(a + b) == UserCount(a) + UserCount(b)
    ensures BotCount(a + b) == BotCount(a) + BotCount(b)
  {
    if a == [] {
      assert a + b == b;
    } else {
      assert (a + b)[1..] == a[1..] + b;
      CountsAppend(a[1..], b);
    }
  }

  /** Every entry is written either by the visitor or by the bot. */
  lemma {:induction false} CountsPartition(log: seq<Entry>)
    ensures UserCount(log) + BotCount(log) == |log|
  {
    if log != [] {
      CountsPartition(log[1..]);
    }
  }

  /** The send button is disabled exactly when the buffer is empty or only
      whitespace: `disabled={!message.trim()}`. */
  function SendDisabled(input: string): (disabled: bool)
    ensures disabled <==> IsBlank(input)
  {
    TrimSpec(input);
    Trim(input) == ""
  }

  /** The chat widget's state. */
  class ChatWidget {
    var isOpen: bool
    /** The input buffer. */
    var message: string
    /** The log, oldest entry first. */
    var messages: seq<Entry>
    /** Replies scheduled by a send and not yet delivered. */
    var pendingReplies: nat

    /** What every reachable state satisfies: the log starts with the
        greeting, holds no blank text from the visitor, every later bot entry
        is the canned reply, and every visitor entry has one reply either
        delivered or pending. */
    ghost predicate Valid()
      reads this
    {
      && |messages| >= 1
      && messages[0] == Greeting
      && (forall i :: 0 <= i < |messages| && messages[i].isUser ==> !IsBlank(messages[i].text))
      && (forall i :: 1 <= i < |messages| && !messages[i].isUser ==> messages[i] == Reply)
      && UserCount(messages) == BotCount(messages) - 1 + pendingReplies
    }

    constructor ()
      ensures Valid()
      ensures !isOpen && message == "" && messages == [Greeting] && pendingReplies == 0
    {
      isOpen := false;
      message := "";
      messages := [Greeting];
      pendingReplies := 0;
    }

    /** The input's `onChange`: the buffer takes the typed value. */
    method SetInput(value: string)
      requires Valid()
      modifies this
      ensures Valid()
      ensures message == value
      ensures isOpen == old(isOpen) && messages == old(messages) && pendingReplies == old(pendingReplies)
    {
      message := value;
    }

    /** `handleSendMessage`. A buffer that is empty or only whitespace is
        ignored. Otherwise its text, untrimmed, is appended as the visitor's
        entry, the buffer is cleared and one reply is scheduled. */
    method Send()
      requires Valid()
      modifies this
      ensures Valid()
      ensures IsBlank(old(message)) ==> unchanged(this)
      ensures !IsBlank(old(message)) ==>
        && messages == old(messages) + [Entry(old(message), true)]
        && message == ""
        && pendingReplies == old(pendingReplies) + 1
      ensures isOpen == old(isOpen)
    {
      if !SendDisabled(message) {
        CountsAppend(messages, [Entry(message, true)]);
        messages := messages + [Entry(message, true)];
        message := "";
        pendingReplies := pendingReplies + 1;
      }
    }

    /** `handleKeyDown`: Enter without Shift sends; any other key, and
        Shift+Enter, changes nothing. */
    method KeyDown(key: string, shiftKey: bool)
      requires Valid()
      modifies this
      ensures Valid()
      ensures key != "Enter" || shiftKey || IsBlank(old(message)) ==> unchanged(this)
      ensures key == "Enter" && !shiftKey && !IsBlank(old(message)) ==>
        && messages == old(messages) + [Entry(old(message), true)]
        && message == ""
        && pendingReplies == old(pendingReplies) + 1
      ensures isOpen == old(isOpen)
    {
      if key == "Enter" && !shiftKey {
        Send();
      }
    }

    /** A scheduled reply fires: the canned reply is appended after whatever
        the log holds by then. */
    method DeliverReply()
      requires Valid() && pendingReplies > 0
      modifies this
      ensures Valid()
      ensures messages == old(messages) + [Reply]
      ensures pendingReplies == old(pendingReplies) - 1
      ensures isOpen == old(isOpen) && message == old(message)
    {
      CountsAppend(messages, [Reply]);
      messages := messages + [Reply];
      pendingReplies := pendingReplies - 1;
    }

    /** The launcher button flips the open flag. */
    method ToggleOpen()
      requires Valid()
      modifies this
      ensures Valid()
      ensures isOpen == !old(isOpen)
      ensures message == old(message) && messages == old(messages) && pendingReplies == old(pendingReplies)
    {
      isOpen := !isOpen;
    }

    /** The header's close button closes the panel. */
    method CloseChat()
      requires Valid()
      modifies this
      ensures Valid()
      ensures !isOpen
      ensures message == old(message) && messages == old(messages) && pendingReplies == old(pendingReplies)
    {
      isOpen := false;
    }
  }

  /** Under the balance `Valid` keeps, the bot has exactly one entry more
      than the visitor once every scheduled reply has arrived, and the log's
      length is fixed by the visitor's entries and the replies pending. */
  lemma RepliesBalance(log: seq<Entry>, pending: nat)
    requires UserCount(log) == BotCount(log) - 1 + pending
    ensures pending == 0 ==> BotCount(log) == UserCount(log) + 1
    ensures 2 * UserCount(log) + 1 == |log| + pending
  {
    CountsPartition(log);
  }

  /** A fresh widget, one message typed and sent, and its reply delivered:
      the log is the greeting, the message as typed, and the reply. */
  method SendOnceAndReply(text: string) returns (log: seq<Entry>)
    requires !IsBlank(text)
    ensures log == [Greeting, Entry(text, true), Reply]
  {
    var w := new ChatWidget();
    w.SetInput(text);
    w.KeyDown("Enter", false);
    w.DeliverReply();
    log := w.messages;
  }

  /** Shift+Enter and a whitespace-only message both leave the fresh log
      with its greeting alone and schedule nothing. */
  method NothingSent(text: string) returns (log: seq<Entry>, pending: nat)
    ensures log == [Greeting] && pending == 0
  {
    var w := new ChatWidget();
    w.SetInput(text);
    w.KeyDown("Enter", true);
    w.SetInput("  ");
    w.Send();
    log, pending := w.messages, w.pendingReplies;
  }
}
