/**
 * MemoryChatBotService: the registry of conversations, one session per
 * conversation id, created on the first message and dropped on request;
 * the mapping of a failed model call to an error reply; and the quote
 * escaping of the audit log line.
 */
module ChatBot {
  import opened Wrappers
  import opened JavaStrings
  import opened JsonText

  /** The window size every session's chat memory is created with. */
  const MaxMessages: nat := 30

  /** The reply text that stands for a failed model call, before the exception's message. */
  const ErrorPrefix: string := "⚠️ Error calling LLM: "

  /** Integer.MAX_VALUE, where a map's size() saturates. */
  const MaxInt: int := 0x7FFF_FFFF

  /** A message kept in a session's chat memory; the service itself only ever adds the system message. */
  datatype ChatMessage = SystemMessage(text: string)

  /**
   * A conversation session as the service creates it. `serial` stands for
   * the identity of the Java object: each session the service creates gets
   * a serial no other session has had. `seed` holds the messages its chat
   * memory is seeded with and `maxMessages` the memory's window size; what
   * the memory holds after that is managed by the model library.
   */
  datatype Session = Session(serial: nat, seed: seq<ChatMessage>, maxMessages: nat)

  /** What one call to the model yields: a reply, or an exception whose message may be null. */
  datatype ChatOutcome =
    | Replied(reply: string)
    | Failed(message: Option<string>)

  /** The configuration every new conversation's session is created with. */
  predicate IsSeeded(s: Session, systemPrompt: string) {
    s.seed == [SystemMessage(systemPrompt)] && s.maxMessages == MaxMessages
  }

  /** A possibly-null string as Java's string concatenation renders it. */
  function JavaText(o: Option<string>): string {
    o.GetOr("null")
  }

  /** The reply sendMessage returns for one outcome of the model call. */
  function ResponseText(o: ChatOutcome): (r: string)
    ensures o.Replied? ==> r == o.reply
    ensures o.Failed? ==> |ErrorPrefix| <= |r| && r[..|ErrorPrefix|] == ErrorPrefix
  {
    match o
    case Replied(reply) => reply
    case Failed(message) => ErrorPrefix + JavaText(message)
  }

  /** The exception's message can be read back from an error reply. */
  lemma ErrorMessageRecoverable(message: string)
    ensures ResponseText(Failed(Some(message)))[|ErrorPrefix|..] == message
  {
  }

  /** Distinct failure messages give distinct error replies. */
  lemma ErrorRepliesDistinct(a: string, b: string)
    requires a != b
    ensures ResponseText(Failed(Some(a))) != ResponseText(Failed(Some(b)))
  {
  }

  /** A null exception message and the message "null" give the same reply. */
  lemma NullMessageRendered()
    ensures ResponseText(Failed(None)) == ResponseText(Failed(Some("null")))
    ensures ResponseText(Failed(None)) == ErrorPrefix + "null"
  {
  }

  // ---------------------------------------------------------------- audit line

  /** `s.replace("\"", "\\\"")`: every quote gets a backslash in front; nothing else changes. */
  function EscapeQuotes(s: string): (r: string)
    ensures |r| == |s| + Count(s, '"')
    ensures forall i :: 0 <= i < |r| && r[i] == '"' ==> 0 < i && r[i - 1] == '\\'
  {
    if s == [] then []
    else (if s[0] == '"' then "\\\"" else [s[0]]) + EscapeQuotes(s[1..])
  }

  /** Turns each `\"` back into `"`, reading left to right; every other character is kept. */
  function UnescapeQuotes(s: string): (r: string)
    ensures |r| <= |s|
  {
    if s == [] then []
    else if |s| >= 2 && s[0] == '\\' && s[1] == '"' then "\"" + UnescapeQuotes(s[2..])
    else [s[0]] + UnescapeQuotes(s[1..])
  }

  /** The escaping loses nothing: undoing it gives the original text back. */
  lemma {:induction false} EscapeQuotesReversible(s: string)
    ensures UnescapeQuotes(EscapeQuotes(s)) == s
  {
    if s != [] {
      var rest := EscapeQuotes(s[1..]);
      EscapeQuotesReversible(s[1..]);
      if s[0] == '"' {
        assert EscapeQuotes(s) == "\\\"" + rest;
        assert (EscapeQuotes(s))[2..] == rest;
      } else {
        assert EscapeQuotes(s) == [s[0]] + rest;
        assert (EscapeQuotes(s))[1..] == rest;
        assert |rest| > 0 ==> rest[0] != '"';
      }
      assert s == [s[0]] + s[1..];
    }
  }

  /** The prefix of the audit line up to the opening quote of the request field. */
  function AuditPrefix(time: string, conversationId: string): string {
    "{\"time\":\"" + time + "\", \"user\":\"" + conversationId + "\", \"request\":\""
  }

  /**
   * The line appended to the audit file for one exchange; `time` is the
   * clock reading. The four fields appear in order inside 52 characters of
   * fixed text; time and id are written as they are, request and response
   * with one backslash added per quote.
   */
  function AuditLine(time: string, conversationId: string, request: string, response: string): (line: string)
    ensures |line| == 52 + |time| + |conversationId| + |request| + Count(request, '"') + |response| + Count(response, '"')
    ensures |AuditPrefix(time, conversationId)| <= |line|
    ensures line[..|AuditPrefix(time, conversationId)|] == AuditPrefix(time, conversationId)
    ensures line[|line| - 3..] == "\"}\n"
  {
    AuditPrefix(time, conversationId) + EscapeQuotes(request)
      + "\", \"response\":\"" + EscapeQuotes(response) + "\"}\n"
  }

  /** The request field of the audit line, read as a JSON string literal. */
  function AuditRequestField(time: string, conversationId: string, request: string, response: string): Option<string> {
    var line := AuditLine(time, conversationId, request, response);
    var p := |AuditPrefix(time, conversationId)|;
    if p <= |line| then ReadString(line[p..]) else None
  }

  lemma {:induction false} ReadQuotesEscaped(s: string, rest: string)
    requires '\\' !in s
    ensures ReadString(EscapeQuotes(s) + "\"" + rest) == Some(s)
  {
    var x := EscapeQuotes(s) + "\"" + rest;
    if s == [] {
      assert x == "\"" + rest;
    } else {
      var e := EscapeQuotes(s[1..]) + "\"" + rest;
      var head := if s[0] == '"' then "\\\"" else [s[0]];
      assert EscapeQuotes(s) == head + EscapeQuotes(s[1..]);
      assert x == head + e;
      assert x[|head|..] == e;
      ReadQuotesEscaped(s[1..], rest);
      assert ReadString(x) == Prepend([s[0]], ReadString(e));
      assert s == [s[0]] + s[1..];
    }
  }

  /** The audit line from the opening quote of the request field on. */
  lemma AuditLineAfterPrefix(time: string, conversationId: string, request: string, response: string)
    ensures
      var prefix := AuditPrefix(time, conversationId);
      var line := AuditLine(time, conversationId, request, response);
      |prefix| <= |line| &&
      line[|prefix|..] == EscapeQuotes(request) + "\"" + (", \"response\":\"" + EscapeQuotes(response) + "\"}\n")
  {
    var prefix := AuditPrefix(time, conversationId);
    var rest := ", \"response\":\"" + EscapeQuotes(response) + "\"}\n";
    var line := AuditLine(time, conversationId, request, response);
    assert line == prefix + (EscapeQuotes(request) + "\"" + rest);
  }

  /** A request without a backslash can be read back from its audit line. */
  lemma AuditRequestReadsBack(time: string, conversationId: string, request: string, response: string)
    requires '\\' !in request
    ensures AuditRequestField(time, conversationId, request, response) == Some(request)
  {
    AuditLineAfterPrefix(time, conversationId, request, response);
    ReadQuotesEscaped(request, ", \"response\":\"" + EscapeQuotes(response) + "\"}\n");
  }

  /** The response field of the audit line, read as a JSON string literal. */
  function AuditResponseField(time: string, conversationId: string, request: string, response: string): Option<string> {
    var line := AuditLine(time, conversationId, request, response);
    var p := |AuditPrefix(time, conversationId)| + |EscapeQuotes(request)| + |"\", \"response\":\""|;
    if p <= |line| then ReadString(line[p..]) else None
  }

  /**
   * The response follows the request field, and one without a backslash
   * can be read back from its audit line, whatever the request holds.
   */
  lemma AuditResponseReadsBack(time: string, conversationId: string, request: string, response: string)
    requires '\\' !in response
    ensures AuditResponseField(time, conversationId, request, response) == Some(response)
  {
    var head := AuditPrefix(time, conversationId) + EscapeQuotes(request) + "\", \"response\":\"";
    var line := AuditLine(time, conversationId, request, response);
    assert |head| == |AuditPrefix(time, conversationId)| + |EscapeQuotes(request)| + |"\", \"response\":\""|;
    assert line == head + (EscapeQuotes(response) + "\"" + "}\n");
    assert line[|head|..] == EscapeQuotes(response) + "\"" + "}\n";
    ReadQuotesEscaped(response, "}\n");
  }

  /** A field body `\", "…` reads as the three characters `", `. */
  lemma ReadEscapedQuoteThenClose(rest: string)
    ensures ReadString("\\\", \"" + rest) == Some("\", ")
  {
    var a := "\\\", \"" + rest;
    var b := ", \"" + rest;
    var c := " \"" + rest;
    var d := "\"" + rest;
    assert a[0] == '\\' && a[1] == '"' && a[2..] == b;
    assert b[0] == ',' && b[1..] == c;
    assert c[0] == ' ' && c[1..] == d;
    assert ReadString(d) == Some("");
    assert ReadString(c) == Prepend([' '], ReadString(d));
    assert ReadString(b) == Prepend([','], ReadString(c));
    assert ReadString(a) == Prepend(Unescape('"'), ReadString(b));
    assert [' '] + "" == " " && [','] + " " == ", " && "\"" + ", " == "\", ";
  }

  /**
   * As written, a request ending in a backslash corrupts the audit line: the
   * backslash escapes the field's closing quote, and the request field reads
   * as `", ` instead of `\`.
   */
  lemma AuditBackslashBreaksRequest(time: string, conversationId: string, response: string)
    ensures AuditRequestField(time, conversationId, "\\", response) == Some("\", ")
  {
    var prefix := AuditPrefix(time, conversationId);
    var rest := "response\":\"" + EscapeQuotes(response) + "\"}\n";
    assert EscapeQuotes("\\") == "\\" + EscapeQuotes([]);
    var line := AuditLine(time, conversationId, "\\", response);
    assert line == prefix + ("\\\", \"" + rest);
    assert line[|prefix|..] == "\\\", \"" + rest;
    ReadEscapedQuoteThenClose(rest);
  }

  /** The prefix of the JSON-escaped audit line up to the opening quote of the request field. */
  function AuditPrefixJson(time: string, conversationId: string): string {
    "{\"time\":\"" + EscapeJson(time) + "\", \"user\":\"" + EscapeJson(conversationId) + "\", \"request\":\""
  }

  /** The audit line with every field escaped as a JSON string. */
  function AuditLineJson(time: string, conversationId: string, request: string, response: string): string {
    AuditPrefixJson(time, conversationId) + EscapeJson(request)
      + "\", \"response\":\"" + EscapeJson(response) + "\"}\n"
  }

  /** The request field of the JSON-escaped audit line, read as a JSON string literal. */
  function AuditRequestFieldJson(time: string, conversationId: string, request: string, response: string): Option<string> {
    var line := AuditLineJson(time, conversationId, request, response);
    var p := |AuditPrefixJson(time, conversationId)|;
    if p <= |line| then ReadString(line[p..]) else None
  }

  /** With JSON escaping every request, backslashes included, reads back from its audit line. */
  lemma AuditJsonRequestReadsBack(time: string, conversationId: string, request: string, response: string)
    ensures AuditRequestFieldJson(time, conversationId, request, response) == Some(request)
  {
    var line := AuditLineJson(time, conversationId, request, response);
    var prefix := AuditPrefixJson(time, conversationId);
    var rest := ", \"response\":\"" + EscapeJson(response) + "\"}\n";
    assert line == prefix + (EscapeJson(request) + "\"" + rest);
    assert line[|prefix|..] == EscapeJson(request) + "\"" + rest;
    ReadEscaped(request, rest);
  }

  // ---------------------------------------------------------------- registry

  class MemoryChatBotService {
    const systemPrompt: string
    /** The conversations currently held, by conversation id. */
    var conversationMap: map<string, Session>
    /** The serial the next created session gets; every serial below it has been handed out. */
    var nextSerial: nat

    /**
     * Every session in the registry was created by the service with the
     * system prompt, and no two conversations share a session.
     */
    ghost predicate Valid()
      reads this
    {
      && (forall id :: id in conversationMap ==>
            IsSeeded(conversationMap[id], systemPrompt) && conversationMap[id].serial < nextSerial)
      && (forall a, b :: a in conversationMap && b in conversationMap && a != b ==>
            conversationMap[a].serial != conversationMap[b].serial)
    }

    /** An empty registry; the system prompt is configuration text. */
    constructor (systemPrompt: string)
      ensures Valid()
      ensures this.systemPrompt == systemPrompt && conversationMap == map[]
    {
      this.systemPrompt := systemPrompt;
      conversationMap := map[];
      nextSerial := 0;
    }

    /**
     * A new session, distinct from every earlier one: a chat memory of
     * window 30 seeded with the system prompt alone.
     */
    method CreateConversationService() returns (s: Session)
      modifies this`nextSerial
      ensures s.serial == old(nextSerial) && nextSerial == old(nextSerial) + 1
      ensures s.seed == [SystemMessage(systemPrompt)]
      ensures s.maxMessages == MaxMessages
    {
      var chatMemory: seq<ChatMessage> := [];
      chatMemory := chatMemory + [SystemMessage(systemPrompt)];
      s := Session(nextSerial, chatMemory, MaxMessages);
      nextSerial := nextSerial + 1;
    }

    /**
     * Looks up the conversation's session, creating and installing one if
     * the id is new (compute-if-absent), then asks the model (`chat`) for a
     * reply on that session; a failed call becomes the error reply. The
     * session stays installed either way.
     */
    method SendMessage(userMessage: string, conversationId: string, chat: (Session, string) -> ChatOutcome)
      returns (response: string)
      requires Valid()
      modifies this
      ensures Valid()
      // a known id: the stored session is reused and nothing is created
      ensures conversationId in old(conversationMap) ==>
        conversationMap == old(conversationMap) && nextSerial == old(nextSerial)
      // a new id: exactly one new session, unlike every session created before
      ensures conversationId !in old(conversationMap) ==>
        && nextSerial == old(nextSerial) + 1
        && conversationMap == old(conversationMap)[conversationId :=
             Session(old(nextSerial), [SystemMessage(systemPrompt)], MaxMessages)]
        && forall other :: other in old(conversationMap) ==>
             old(conversationMap)[other].serial != conversationMap[conversationId].serial
      ensures |conversationMap| == |old(conversationMap)| + (if conversationId in old(conversationMap) then 0 else 1)
      ensures conversationId in conversationMap
      ensures response == ResponseText(chat(conversationMap[conversationId], userMessage))
    {
      var conversation: Session;
      if conversationId in conversationMap {
        conversation := conversationMap[conversationId];
      } else {
        conversation := CreateConversationService();
        conversationMap := conversationMap[conversationId := conversation];
        assert conversationMap.Keys == old(conversationMap).Keys + {conversationId};
      }

      match chat(conversation, userMessage)
      case Replied(reply) =>
        response := reply;
      case Failed(message) =>
        response := ErrorPrefix + JavaText(message);
    }

    /** Drops one conversation; an unknown id changes nothing. */
    method ClearConversation(conversationId: string)
      requires Valid()
      modifies this`conversationMap
      ensures Valid()
      ensures conversationMap == old(conversationMap) - {conversationId}
      ensures conversationId !in old(conversationMap) ==> conversationMap == old(conversationMap)
      ensures |conversationMap| == |old(conversationMap)| - (if conversationId in old(conversationMap) then 1 else 0)
    {
      if conversationId in conversationMap {
        assert conversationMap.Keys == (conversationMap - {conversationId}).Keys + {conversationId};
      } else {
        assert conversationMap - {conversationId} == conversationMap;
      }
      conversationMap := conversationMap - {conversationId};
    }

    /** Drops every conversation. */
    method ClearAllConversations()
      requires Valid()
      modifies this`conversationMap
      ensures Valid()
      ensures conversationMap == map[]
    {
      conversationMap := map[];
    }

    /** The number of conversations held, saturating at Integer.MAX_VALUE. */
    method GetActiveConversationsCount() returns (n: int)
      ensures 0 <= n <= MaxInt
      ensures |conversationMap| <= MaxInt ==> n == |conversationMap|
      ensures |conversationMap| > MaxInt ==> n == MaxInt
    {
      if |conversationMap| > MaxInt {
        n := MaxInt;
      } else {
        n := |conversationMap|;
      }
    }
  }

  /**
   * The service driven through a sequence of exchanges: first message,
   * repeated message, failed model call, clearing an unknown id, clearing a
   * known one and starting over with a new session, clearing all.
   */
  method RegistryScenario(systemPrompt: string)
  {
    var service := new MemoryChatBotService(systemPrompt);
    var echo := (s: Session, m: string) => Replied("hi");
    var down := (s: Session, m: string) => Failed(Some("quota"));

    var reply := service.SendMessage("hello", "u1", echo);
    assert reply == "hi";
    var first := service.conversationMap["u1"];
    assert IsSeeded(first, systemPrompt);
    var n := service.GetActiveConversationsCount();
    assert n == 1;

    reply := service.SendMessage("again", "u1", down);
    assert reply == ErrorPrefix + "quota";
    assert service.conversationMap["u1"] == first;
    n := service.GetActiveConversationsCount();
    assert n == 1;

    service.ClearConversation("nobody");
    n := service.GetActiveConversationsCount();
    assert n == 1;

    service.ClearConversation("u1");
    n := service.GetActiveConversationsCount();
    assert n == 0;

    reply := service.SendMessage("hello", "u1", echo);
    assert IsSeeded(service.conversationMap["u1"], systemPrompt);
    assert service.conversationMap["u1"] != first;
    reply := service.SendMessage("salam", "u2", echo);
    n := service.GetActiveConversationsCount();
    assert n == 2;

    service.ClearAllConversations();
    n := service.GetActiveConversationsCount();
    assert n == 0;
  }
}
