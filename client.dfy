/** The chat client's own logic: emoji substitution before display, the
    payloads it sends, the co-admin set, and the queue that hands received
    messages from the receive thread to the window. */
module Client {
  import opened Text
  import opened Stream

  datatype Option<T> = None | Some(value: T)

  /** The emoji codes and their substitutes, in the order the map lists
      them (and so the order `show_message` applies them in). */
  const EmojiMap: seq<(string, string)> := [
    (":thumbsup:", "\U{1F44D}"),
    (":smile:", "\U{1F604}"),
    (":heart:", "\U{2764}\U{FE0F}"),
    (":fire:", "\U{1F525}"),
    (":laugh:", "\U{1F606}")
  ]

  /** The line shown when a send fails. */
  function ErrorLine(what: string): string {
    "[ERROR] " + what
  }

  const SendFailedText: string := "Message could not be sent."
  const DirectFailedText: string := "Direct message failed."
  const SendFailed: string := ErrorLine(SendFailedText)
  const DirectFailed: string := ErrorLine(DirectFailedText)

  /** Every character of `s` is plain ASCII. */
  predicate Ascii(s: string) {
    forall c :: c in s ==> c < '\U{80}'
  }

  /** No character of `s` is plain ASCII. */
  predicate NonAscii(s: string) {
    forall c :: c in s ==> c >= '\U{80}'
  }

  /** A table whose codes are plain ASCII and whose substitutes hold no
      ASCII character keeps codes and substitutes apart. */
  lemma SeparatedByAscii(table: seq<(string, string)>)
    requires forall i :: 0 <= i < |table| ==>
      table[i].0 != [] && table[i].1 != [] && Ascii(table[i].0) && NonAscii(table[i].1)
    ensures Separated(table)
  {
    forall i, j, k | 0 <= i < |table| && 0 <= j < |table| && 0 <= k < |table[j].0|
      ensures table[j].0[k] !in table[i].1
    {
      assert table[j].0[k] in table[j].0;
    }
  }

  /** Every emoji code is plain ASCII. */
  lemma CodesAscii()
    ensures forall i :: 0 <= i < |EmojiMap| ==> EmojiMap[i].0 != [] && Ascii(EmojiMap[i].0)
  {
  }

  /** No emoji substitute holds an ASCII character. */
  lemma SubstitutesNonAscii()
    ensures forall i :: 0 <= i < |EmojiMap| ==> EmojiMap[i].1 != [] && NonAscii(EmojiMap[i].1)
  {
  }

  /** No substitute shares a character with any code, and none of them is
      empty. */
  lemma EmojiMapSeparated()
    ensures Separated(EmojiMap)
  {
    CodesAscii();
    SubstitutesNonAscii();
    SeparatedByAscii(EmojiMap);
  }

  /** A message as `show_message` displays it: every code of the map
      replaced, one code after the other. */
  function Emojified(message: string): string {
    EmojiMapSeparated();
    ReplaceEach(message, EmojiMap)
  }

  /** Whatever the message, no emoji code is left in what is displayed. */
  lemma EmojifiedHasNoCodes(message: string)
    ensures forall j :: 0 <= j < |EmojiMap| ==> !Contains(Emojified(message), EmojiMap[j].0)
  {
    EmojiMapSeparated();
    ReplaceEachRemoves(message, EmojiMap);
  }

  /** A message that holds none of the codes is displayed as it is. */
  lemma EmojifiedPlain(message: string)
    requires forall j :: 0 <= j < |EmojiMap| ==> !Contains(message, EmojiMap[j].0)
    ensures Emojified(message) == message
  {
    EmojiMapSeparated();
    ReplaceEachUnchanged(message, EmojiMap);
  }

  /** The substitution loop of `show_message`: `message.replace(code,
      emoji)` for each entry of the map, rebinding the message each time. */
  method Emojify(message: string) returns (shown: string)
    ensures shown == Emojified(message)
  {
    EmojiMapSeparated();
    shown := message;
    for k := 0 to |EmojiMap|
      invariant ReplaceEach(shown, EmojiMap[k..]) == Emojified(message)
    {
      assert EmojiMap[k..][1..] == EmojiMap[k + 1..];
      shown := Replace(shown, EmojiMap[k].0, EmojiMap[k].1);
    }
  }

  /** The payload `send_message` sends for the entry text: `name: text`
      with the text stripped, and nothing when the entry is all whitespace. */
  function OutgoingChat(name: string, entry: string): Option<string> {
    var message := Strip(entry);
    if message != [] then Some(name + ": " + message) else None
  }

  /** A chat message is sent exactly when the entry holds a character that
      is not whitespace. */
  lemma OutgoingChatSent(name: string, entry: string)
    ensures OutgoingChat(name, entry).Some? <==> exists k :: 0 <= k < |entry| && !IsSpace(entry[k])
  {
    StripEmpty(entry);
  }

  /** The chat payload is the user's name, `: `, and the entry text with
      its surrounding whitespace removed, which neither starts nor ends
      with whitespace. */
  lemma OutgoingChatPayload(name: string, entry: string)
    requires OutgoingChat(name, entry).Some?
    ensures var p, m := OutgoingChat(name, entry).value, Strip(entry);
      && |p| == |name| + 2 + |m|
      && p[..|name|] == name && p[|name|..|name| + 2] == ": " && p[|name| + 2..] == m
      && !IsSpace(p[|name| + 2]) && !IsSpace(p[|p| - 1])
  {
    StripEnds(entry);
    var m := Strip(entry);
    var p := name + ": " + m;
    assert p[|name| + 2..] == m;
    assert p[|name| + 2] == m[0] && p[|p| - 1] == m[|m| - 1];
  }

  /** The payload `send_direct_message` sends: the sender's name, the
      recipient after ` (to @`, then the message; nothing for an empty
      recipient. */
  function OutgoingDirect(name: string, recipient: string, message: string): (r: Option<string>)
    ensures r.None? <==> recipient == []
  {
    if recipient != [] then Some(name + " (to @" + recipient + "): " + message) else None
  }

  /** The direct payload carries the sender's name, the recipient between
      ` (to @` and `): `, and the message text unchanged at its end. */
  lemma OutgoingDirectPayload(name: string, recipient: string, message: string)
    requires recipient != []
    ensures var p, n, r := OutgoingDirect(name, recipient, message).value, |name|, |recipient|;
      && |p| == n + 6 + r + 3 + |message|
      && p[..n] == name
      && p[n..n + 6] == " (to @"
      && p[n + 6..n + 6 + r] == recipient
      && p[n + 6 + r..n + 9 + r] == "): "
      && p[n + 9 + r..] == message
  {
  }

  /** The `admins` set after `assign_coadmin` with the dialog's answer
      (`None` when the dialog is cancelled): the answer is added exactly
      when it is a non-empty name. */
  function Promote(admins: set<string>, answer: Option<string>): (r: set<string>)
    ensures forall u :: u in r <==> u in admins || (answer == Some(u) && u != [])
  {
    if answer.Some? && answer.value != [] then admins + {answer.value} else admins
  }

  /** Promoting the same name twice leaves the set as promoting it once. */
  lemma PromoteTwice(admins: set<string>, answer: Option<string>)
    ensures Promote(Promote(admins, answer), answer) == Promote(admins, answer)
  {
    var once := Promote(admins, answer);
    forall u ensures u in Promote(once, answer) <==> u in once {
    }
  }

  /** The direct message that tells a new co-admin of the promotion. */
  function PromotionNotice(username: string): string {
    "You are now a co-admin, @" + username + " :thumbsup:"
  }

  /** The line the promoting client shows itself. */
  function PromotionLine(username: string): string {
    "[ADMIN] @" + username + " was promoted to co-admin!"
  }

  /** Text without the first character of `q` does not contain `q`. */
  lemma NoHeadNoMatch(s: string, q: string)
    requires q != [] && q[0] !in s
    ensures !Contains(s, q)
  {
    forall i: nat | i <= |s| ensures !OccursAt(s, q, i) {
      if i + |q| <= |s| {
        assert s[i..i + |q|][0] == s[i];
      }
    }
  }

  /** Neither error text contains a colon. */
  lemma ErrorTextsHaveNoColon()
    ensures ':' !in SendFailedText && ':' !in DirectFailedText
  {
  }

  /** An error line whose text has no colon holds no emoji code (every
      code starts with one), so it is displayed as it is. */
  lemma ErrorLinePlain(what: string)
    requires ':' !in what
    ensures Emojified(ErrorLine(what)) == ErrorLine(what)
  {
    var line := ErrorLine(what);
    assert ':' !in line by {
      assert line == "[ERROR] " + what;
    }
    forall j | 0 <= j < |EmojiMap| ensures !Contains(line, EmojiMap[j].0) {
      assert EmojiMap[j].0[0] == ':';
      NoHeadNoMatch(line, EmojiMap[j].0);
    }
    EmojifiedPlain(line);
  }

  /** `q` is a colon, a word without colons, and a colon. */
  predicate ColonDelimited(q: string) {
    |q| >= 3 && q[0] == ':' && q[|q| - 1] == ':' && ':' !in q[1..|q| - 1]
  }

  /** Every emoji code is a word between two colons, and no two codes are
      equal. */
  lemma CodesColonDelimited()
    ensures forall j :: 0 <= j < |EmojiMap| ==> ColonDelimited(EmojiMap[j].0)
    ensures forall i, j :: 0 <= i < j < |EmojiMap| ==> EmojiMap[i].0 != EmojiMap[j].0
  {
  }

  /** With no colon in `a` or `b`, the only colons of `a + c + b` are the
      two ends of `c`. */
  lemma ColonAt(a: string, c: string, b: string, x: nat)
    requires ':' !in a && ':' !in b && ColonDelimited(c)
    requires x < |a + c + b|
    ensures (a + c + b)[x] == ':' ==> x == |a| || x == |a| + |c| - 1
  {
    var s := a + c + b;
    assert forall k :: 0 <= k < |a| ==> s[k] == a[k];
    assert forall k :: |a| + |c| <= k < |s| ==> s[k] == b[k - |a| - |c|];
    assert forall k :: |a| < k < |a| + |c| - 1 ==> s[k] == c[1..|c| - 1][k - |a| - 1];
  }

  /** A colon-delimited word other than `c` does not occur in `a + c + b`
      when neither `a` nor `b` holds a colon. */
  lemma CodeOnlyAtItself(a: string, c: string, b: string, q: string)
    requires ':' !in a && ':' !in b && ColonDelimited(c) && ColonDelimited(q) && q != c
    ensures !Contains(a + c + b, q)
  {
    var s := a + c + b;
    forall i: nat | i <= |s| ensures !OccursAt(s, q, i) {
      if i + |q| <= |s| {
        ColonAt(a, c, b, i);
        ColonAt(a, c, b, i + |q| - 1);
        assert s[i..i + |q|][0] == s[i] && s[i..i + |q|][|q| - 1] == s[i + |q| - 1];
        if i == |a| && |q| == |c| {
          assert s[i..i + |q|] == c;
        }
      }
    }
  }

  /** Text without a colon passes the rest of the map, from entry `k` on,
      unchanged. */
  lemma PlainThroughMap(s: string, k: nat)
    requires ':' !in s && k <= |EmojiMap|
    ensures ReplaceEach(s, EmojiMap[k..]) == s
  {
    CodesColonDelimited();
    var table := EmojiMap[k..];
    forall i | 0 <= i < |table| ensures table[i].0 != [] && !Contains(s, table[i].0) {
      NoHeadNoMatch(s, table[i].0);
    }
    ReplaceEachUnchanged(s, table);
  }

  /** From entry `k` on, the map turns the one code `EmojiMap[j].0` between
      colon-free text into its own emoji. */
  lemma {:induction false} EmojifiedFrom(a: string, b: string, j: nat, k: nat)
    requires ':' !in a && ':' !in b && k <= j < |EmojiMap|
    ensures ReplaceEach(a + EmojiMap[j].0 + b, EmojiMap[k..]) == a + EmojiMap[j].1 + b
    decreases j - k
  {
    CodesColonDelimited();
    var code, emoji := EmojiMap[j].0, EmojiMap[j].1;
    var table := EmojiMap[k..];
    assert table[0] == EmojiMap[k] && table[1..] == EmojiMap[k + 1..];
    if k < j {
      CodeOnlyAtItself(a, code, b, EmojiMap[k].0);
      ReplaceUnchanged(a + code + b, EmojiMap[k].0, EmojiMap[k].1);
      EmojifiedFrom(a, b, j, k + 1);
    } else {
      assert a + code + b == a + (code + b);
      ReplaceAfterPlain(a, code + b, code, emoji);
      ReplaceAtStart(b, code, emoji);
      NoHeadNoMatch(b, code);
      ReplaceUnchanged(b, code, emoji);
      assert a + (emoji + b) == a + emoji + b;
      SubstitutesNonAscii();
      assert ':' !in emoji;
      PlainThroughMap(a + emoji + b, k + 1);
    }
  }

  /** A message holding one emoji code, with no colon anywhere else, is
      displayed with that code replaced by its own emoji and nothing else
      changed. */
  lemma EmojifiedOne(a: string, j: nat, b: string)
    requires ':' !in a && ':' !in b && j < |EmojiMap|
    ensures Emojified(a + EmojiMap[j].0 + b) == a + EmojiMap[j].1 + b
  {
    EmojifiedFrom(a, b, j, 0);
    assert EmojiMap[0..] == EmojiMap;
  }

  /** Messages as the window displays them, in the same order. */
  function ShownAll(messages: seq<string>): (r: seq<string>)
    ensures |r| == |messages|
    ensures forall k :: 0 <= k < |r| ==> r[k] == Emojified(messages[k])
  {
    if messages == [] then [] else [Emojified(messages[0])] + ShownAll(messages[1..])
  }

  /** Showing the head of a queue, then the rest, shows the whole queue. */
  lemma ShownAllStep(shown: seq<string>, messages: seq<string>)
    requires messages != []
    ensures shown + ShownAll(messages) == (shown + [Emojified(messages[0])]) + ShownAll(messages[1..])
  {
    assert ShownAll(messages) == [Emojified(messages[0])] + ShownAll(messages[1..]);
  }

  /** The client's state: the entry field's text, the lines in the chat
      area, the payloads sent on the socket, the co-admin names, and the
      queue between the receive thread and the window (head first). */
  class ChatClient {
    const name: string
    var entry: string
    var display: seq<string>
    var outbox: seq<string>
    var admins: set<string>
    var queue: seq<string>

    constructor(name: string)
      ensures this.name == name
      ensures entry == [] && display == [] && outbox == [] && admins == {} && queue == []
    {
      this.name := name;
      entry, display, outbox, admins, queue := [], [], [], {}, [];
    }

    /** `show_message`: appends the message, emoji substituted, to the
        chat area. */
    method ShowMessage(message: string)
      modifies this
      ensures display == old(display) + [Emojified(message)]
      ensures entry == old(entry) && outbox == old(outbox)
      ensures admins == old(admins) && queue == old(queue)
    {
      var shown := Emojify(message);
      display := display + [shown];
    }

    /** `send_message`: sends and shows the stripped entry text under the
        user's name, or shows an error when the send fails; sends nothing
        for a blank entry; clears the entry field in every case. */
    method SendMessage(sendFails: bool)
      modifies this
      ensures entry == []
      ensures admins == old(admins) && queue == old(queue)
      ensures match OutgoingChat(name, old(entry))
        case None => outbox == old(outbox) && display == old(display)
        case Some(payload) =>
          if sendFails then outbox == old(outbox) && display == old(display) + [SendFailed]
          else outbox == old(outbox) + [payload] && display == old(display) + [Emojified(payload)]
    {
      var payload := OutgoingChat(name, entry);
      entry := [];
      if payload.Some? {
        if sendFails {
          ErrorTextsHaveNoColon();
          ErrorLinePlain(SendFailedText);
          ShowMessage(SendFailed);
        } else {
          outbox := outbox + [payload.value];
          ShowMessage(payload.value);
        }
      }
    }

    /** `send_direct_message`: sends and shows the direct message, or shows
        an error when the send fails; does nothing for an empty recipient. */
    method SendDirectMessage(recipient: string, message: string, sendFails: bool)
      modifies this
      ensures entry == old(entry) && admins == old(admins) && queue == old(queue)
      ensures match OutgoingDirect(name, recipient, message)
        case None => outbox == old(outbox) && display == old(display)
        case Some(payload) =>
          if sendFails then outbox == old(outbox) && display == old(display) + [DirectFailed]
          else outbox == old(outbox) + [payload] && display == old(display) + [Emojified(payload)]
    {
      match OutgoingDirect(name, recipient, message)
      case None =>
      case Some(payload) =>
        if sendFails {
          ErrorTextsHaveNoColon();
          ErrorLinePlain(DirectFailedText);
          ShowMessage(DirectFailed);
        } else {
          outbox := outbox + [payload];
          ShowMessage(payload);
        }
    }

    /** `assign_coadmin` with the dialog's answer: a non-empty name is
        added to the co-admins, sent the promotion notice and announced
        locally; a cancelled or empty answer changes nothing. */
    method AssignCoadmin(answer: Option<string>, sendFails: bool)
      modifies this
      ensures admins == Promote(old(admins), answer)
      ensures entry == old(entry) && queue == old(queue)
      ensures answer.None? || answer.value == [] ==> outbox == old(outbox) && display == old(display)
      ensures answer.Some? && answer.value != [] ==>
        var u := answer.value;
        var notice := name + " (to @" + u + "): " + PromotionNotice(u);
        && outbox == old(outbox) + (if sendFails then [] else [notice])
        && display == old(display)
             + [if sendFails then DirectFailed else Emojified(notice), Emojified(PromotionLine(u))]
    {
      if answer.Some? && answer.value != [] {
        var username := answer.value;
        admins := admins + {username};
        SendDirectMessage(username, PromotionNotice(username), sendFails);
        ShowMessage(PromotionLine(username));
      }
    }

    /** `receive_messages` over the chunks the socket yields: queues each
        non-empty message in arrival order and stops at the first empty
        chunk or receive error. */
    method ReceiveMessages(chunks: seq<Recv<char>>)
      modifies this
      ensures queue == old(queue) + Delivered(chunks)
      ensures entry == old(entry) && display == old(display)
      ensures outbox == old(outbox) && admins == old(admins)
    {
      ghost var got: seq<string> := [];
      var i := 0;
      DeliveredFirst(chunks);
      while i < |chunks|
        invariant ReceivedSoFar(chunks, i, got)
        invariant queue == old(queue) + got
        invariant entry == old(entry) && display == old(display)
        invariant outbox == old(outbox) && admins == old(admins)
      {
        match chunks[i]
        case ReadError =>
          break;
        case Data(message) =>
          if message == [] {
            break;
          }
          DeliveredNext(chunks, i, got);
          queue := queue + [message];
          got := got + [message];
        i := i + 1;
      }
      DeliveredDone(chunks, i, got);
    }

    /** One run of `update_chat_window`: takes every queued message off
        the queue, oldest first, and shows it. */
    method UpdateChatWindow()
      modifies this
      ensures queue == []
      ensures display == old(display) + ShownAll(old(queue))
      ensures entry == old(entry) && outbox == old(outbox) && admins == old(admins)
    {
      while queue != []
        invariant old(display) + ShownAll(old(queue)) == display + ShownAll(queue)
        invariant entry == old(entry) && outbox == old(outbox) && admins == old(admins)
        decreases |queue|
      {
        var message := queue[0];
        ShownAllStep(display, queue);
        queue := queue[1..];
        ShowMessage(message);
      }
    }
  }
}
