/** The inbound chat request and the defaulting of its conversation id. */
module ChatRequest {
  import opened Wrappers

  /** The id used when a request names no conversation. */
  const DefaultConversationId: string := "default"

  /**
   * A chat request. `conversationId` is None where the Java field is null;
   * `message` carries no constraint (NotBlank is imported but annotates no field).
   */
  datatype ChatRequestDto = ChatRequestDto(message: string, conversationId: Option<string>)

  /** The conversation id to use: the request's own when present, even blank, else "default". */
  function GetConversationId(req: ChatRequestDto): (id: string)
    ensures req.conversationId == None ==> id == DefaultConversationId
    ensures forall given :: req.conversationId == Some(given) ==> id == given
  {
    if req.conversationId.Some? then req.conversationId.value else DefaultConversationId
  }

  /** Feeding the normalised id back into the request changes nothing. */
  lemma NormaliseIdempotent(req: ChatRequestDto)
    ensures GetConversationId(req.(conversationId := Some(GetConversationId(req)))) == GetConversationId(req)
  {
  }

  /** Blank ids are not normalised: "" and whitespace stay as they are. */
  lemma BlankIdKept(message: string, blank: string)
    requires forall k :: 0 <= k < |blank| ==> blank[k] == ' '
    ensures GetConversationId(ChatRequestDto(message, Some(blank))) == blank
    ensures blank != DefaultConversationId
  {
    if |blank| == |DefaultConversationId| {
      assert blank[0] != DefaultConversationId[0];
    }
  }
}
