# ContextAI-Bot chat core in Dafny

ContextAI-Bot is a Spring service that forwards chat messages to Gemini and
voice notes to OpenAI Whisper. This project models the three pieces of it
that hold logic of their own:

- the conversation registry of `MemoryChatBotService`: a map from
  conversation id to session, filled on the first message of a
  conversation, emptied by clear-one and clear-all, and counted for the
  statistics endpoint; the mapping of a failed model call to the error reply;
  and the quote escaping of the audit log line;
- the transcript extraction at the end of `WhisperService.transcribe`, which
  searches the provider's response body for the first `"text":"` and returns
  the characters up to the next `"`, or a fixed fallback phrase;
- the defaulting of a missing conversation id in `ChatRequestDto`.

Modules, one per file: `Wrappers` (Option), `JavaStrings` (`indexOf` with its
-1, character counting), `JsonText` (a reader and an escaper for JSON string
literals, the yardstick the audit-line and transcript lemmas are stated
against), `Whisper`, `ChatRequest` and `ChatBot`
(the registry as the class `MemoryChatBotService` over a
`map<string, Session>`, with a client method `RegistryScenario` that drives
it through first message, failed call, clear-one, clear-all and count).

A session is a value: a serial number standing for the identity of the Java
object (each created session gets one no other session has had), the
messages its chat memory is seeded with, and the window size. The model call
is a parameter of `SendMessage`, a function from the session and the message
to a reply or an exception message (which may be null), so the contract can
say which session was talked to.

Two behaviours of the code worth stating plainly:

- A failed model call for a new id still leaves the new session in the map,
  so the count goes up by one: the session is installed before the call
  (`MemoryChatBotService.java:81-91`).
- Only a null id becomes `"default"`; blank ids are kept as they are
  (`ChatRequestDto.java:18`).

## Model

| member | source | states |
|---|---|---|
| `ChatRequest.GetConversationId` | src/main/java/com/chatboot/chatboot/dtos/ChatRequestDto.java:17-19 | a missing id becomes "default"; a present id is returned as it is |
| `ChatRequest.NormaliseIdempotent` | src/main/java/com/chatboot/chatboot/dtos/ChatRequestDto.java:17-19 | putting the normalised id back into the request normalises to the same id |
| `ChatRequest.BlankIdKept` | src/main/java/com/chatboot/chatboot/dtos/ChatRequestDto.java:18 | an empty or all-space id is kept and is not turned into "default" |
| `JavaStrings.IndexOf` | src/main/java/com/chatboot/chatboot/services/WhisperService.java:47-50 | the result is -1 exactly when the pattern does not occur at or after the start, and otherwise the least such occurrence |
| `Whisper.ExtractTranscript` | src/main/java/com/chatboot/chatboot/services/WhisperService.java:46-55 | the transcript never contains a `"` |
| `Whisper.MarkerFound` | src/main/java/com/chatboot/chatboot/services/WhisperService.java:47 | the marker search returns the index of the first marker |
| `Whisper.ExtractBetween` | src/main/java/com/chatboot/chatboot/services/WhisperService.java:47-52 | with the first marker at i and the first quote after it at j, the transcript is exactly `body[i+8..j]`, a contiguous slice with no unescaping |
| `Whisper.ExtractEmpty` | src/main/java/com/chatboot/chatboot/services/WhisperService.java:49-52 | a quote right after the marker gives the empty transcript |
| `Whisper.ExtractNoMarker` | src/main/java/com/chatboot/chatboot/services/WhisperService.java:47-55 | without the marker the fallback phrase is returned |
| `Whisper.ExtractUnclosed` | src/main/java/com/chatboot/chatboot/services/WhisperService.java:50-55 | with the marker but no quote after it the fallback phrase is returned |
| `Whisper.ExtractIgnoresTail` | src/main/java/com/chatboot/chatboot/services/WhisperService.java:47-52 | only the first marker counts: replacing everything after the closing quote, further markers included, leaves the transcript unchanged |
| `Whisper.ExtractPlain` | src/main/java/com/chatboot/chatboot/services/WhisperService.java:46-55 | a transcript with no quote, backslash, newline, carriage return or tab is recovered exactly from the response `{"text":"…"}` |
| `Whisper.ExtractCutsAtEscapedQuote` | src/main/java/com/chatboot/chatboot/services/WhisperService.java:50-52 | a transcript consisting of one quote comes back as a lone backslash |
| `Whisper.ExtractTranscriptJson` | src/main/java/com/chatboot/chatboot/services/WhisperService.java:46-55 | the corrected extraction still returns the fallback phrase when the marker is missing |
| `Whisper.ExtractJsonRoundTrip` | src/main/java/com/chatboot/chatboot/services/WhisperService.java:46-55 | the corrected extraction recovers every transcript exactly from the response that carries it |
| `JsonText.ReadEscaped` | src/main/java/com/chatboot/chatboot/services/MemoryChatBotService.java:141-143 | text escaped as a JSON string reads back as the same text, whatever follows the closing quote |
| `ChatBot.ResponseText` | src/main/java/com/chatboot/chatboot/services/MemoryChatBotService.java:86-91 | a reply is returned unchanged; a failure yields "⚠️ Error calling LLM: " followed by the exception message |
| `ChatBot.ErrorMessageRecoverable` | src/main/java/com/chatboot/chatboot/services/MemoryChatBotService.java:90 | the exception message is exactly what follows the error prefix |
| `ChatBot.ErrorRepliesDistinct` | src/main/java/com/chatboot/chatboot/services/MemoryChatBotService.java:90 | different exception messages give different error replies |
| `ChatBot.NullMessageRendered` | src/main/java/com/chatboot/chatboot/services/MemoryChatBotService.java:90 | a null exception message is rendered as "null", indistinguishable from the message "null" |
| `ChatBot.EscapeQuotes` | src/main/java/com/chatboot/chatboot/services/MemoryChatBotService.java:143 | the output is longer than the input by the number of quotes, and every quote in it has a backslash before it |
| `ChatBot.EscapeQuotesReversible` | src/main/java/com/chatboot/chatboot/services/MemoryChatBotService.java:143 | turning each `\"` back into `"` restores the input, so no other character was changed |
| `ChatBot.ReadQuotesEscaped` | src/main/java/com/chatboot/chatboot/services/MemoryChatBotService.java:143 | text without a backslash, escaped this way, reads back as the same JSON string |
| `ChatBot.AuditLine` | src/main/java/com/chatboot/chatboot/services/MemoryChatBotService.java:141-143 | the four fields in order inside 52 characters of fixed text, time and id as they are and request and response with one backslash added per quote; the line starts with the prefix up to the request field and ends with `"}` and a newline |
| `ChatBot.AuditRequestReadsBack` | src/main/java/com/chatboot/chatboot/services/MemoryChatBotService.java:139-144 | the request field of the audit line reads back as the request when the request has no backslash |
| `ChatBot.AuditResponseReadsBack` | src/main/java/com/chatboot/chatboot/services/MemoryChatBotService.java:141-143 | the response field starts right after the escaped request and its separator, and reads back as the response when the response has no backslash, whatever the request |
| `ChatBot.AuditBackslashBreaksRequest` | src/main/java/com/chatboot/chatboot/services/MemoryChatBotService.java:141-143 | the request `\` makes the request field read as `", ` |
| `ChatBot.AuditJsonRequestReadsBack` | src/main/java/com/chatboot/chatboot/services/MemoryChatBotService.java:141-143 | with JSON escaping every request reads back from its audit line |
| `ChatBot.MemoryChatBotService.constructor` | src/main/java/com/chatboot/chatboot/services/MemoryChatBotService.java:20-28 | the registry starts empty |
| `ChatBot.MemoryChatBotService.CreateConversationService` | src/main/java/com/chatboot/chatboot/services/MemoryChatBotService.java:99-107 | a new session, with a serial no earlier session had, is seeded with exactly the system prompt and has a window of 30 |
| `ChatBot.MemoryChatBotService.SendMessage` | src/main/java/com/chatboot/chatboot/services/MemoryChatBotService.java:77-97 | a known id reuses its stored session: the map is unchanged and no session is created; a new id installs exactly one newly created session, distinct from every other stored one, and raises the count by one, on failure too; the reply comes from the model call on that session, and a failure gives the error reply; no two ids ever share a session |
| `ChatBot.MemoryChatBotService.ClearConversation` | src/main/java/com/chatboot/chatboot/services/MemoryChatBotService.java:109-111 | the id is removed and every other entry kept; an unknown id changes nothing; the count drops by one exactly when the id was present |
| `ChatBot.MemoryChatBotService.ClearAllConversations` | src/main/java/com/chatboot/chatboot/services/MemoryChatBotService.java:113-115 | the map is empty afterwards |
| `ChatBot.MemoryChatBotService.GetActiveConversationsCount` | src/main/java/com/chatboot/chatboot/services/MemoryChatBotService.java:117-119 | the number of conversations held, saturating at Integer.MAX_VALUE, with the map untouched |

## Findings

| source | as written | input that shows it | evidently intended | confidence | as-written member | corrected member |
|---|---|---|---|---|---|---|
| src/main/java/com/chatboot/chatboot/services/WhisperService.java:50-52 | the transcript ends at the first `"` after the marker, even an escaped one, and escapes are not decoded | the response `{"text":"\""}` for the transcript `"` gives `\` | read the value as a JSON string, decoding its escapes | medium; not executed | `Whisper.ExtractCutsAtEscapedQuote` | `Whisper.ExtractJsonRoundTrip` |
| src/main/java/com/chatboot/chatboot/services/MemoryChatBotService.java:143 | only `"` is escaped in the audit line; a backslash is written as it is | the request `\` makes the request field read as `", ` | escape backslashes (and control characters) as well, so each field is a valid JSON string | medium; not executed | `ChatBot.AuditBackslashBreaksRequest` | `ChatBot.AuditJsonRequestReadsBack` |

## Left out

- The Gemini client, `AiServices` and `MessageWindowChatMemory`: library code that is not part of this model. The model call is a function parameter; what the chat memory holds after creation, and how it evicts messages beyond 30, is not modelled, so nothing is claimed about the system message surviving trimming or about the history after each exchange.
- The HTTP request to OpenAI in `WhisperService.transcribe` (file read, multipart body, `postForEntity`): network and file I/O. Only the extraction from the response body is modelled; the body is a parameter.
- Console logging (`logRequest`, `logResponse`) and the file write of `logToFileJson`, including its `IOException` handling: I/O. The audit line is modelled as a string; the clock reading is a parameter.
- `LocalDateTime.now()`: the clock; a parameter where it appears in the audit line.
- Atomicity of `ConcurrentHashMap.computeIfAbsent` under concurrent requests: concurrency. The registry is modelled sequentially.
- `GeminiController` and `ChatResponseDto`: request routing and a response builder stamped with the clock, with no logic of their own.
- The system prompt text, the model name, temperature, token limit and retry setting: configuration data. The prompt is a constructor parameter.
- Validation of the chat message: `ChatRequestDto` declares no constraint on any field (`NotBlank` is imported but unused), so there is no validation step; `SendMessage` accepts every message, blank ones included.
- Null strings other than the conversation id and the exception message: a request without a message would reach `userMessage.replace` in the audit line with null; messages are modelled as non-null strings.
- JavaStrings.IndexOf: requires the start index to be at most the length, which both calls in the extraction satisfy; Java's behaviour beyond the end is not modelled.
- JsonText.ReadString: `\u` escapes are kept as written rather than decoded into characters, and control characters other than newline, carriage return and tab are not escaped by the corrected encoder.
