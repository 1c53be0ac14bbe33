/**
 * The text extraction at the end of WhisperService.transcribe: the response
 * body of the transcription endpoint is searched for the first `"text":"`,
 * and the characters up to the next `"` are the transcript; when either is
 * missing a fixed Moroccan-Arabic phrase ("maybe the audio was not
 * understood") is returned instead. The body is searched as plain text, not
 * parsed as JSON.
 */
module Whisper {
  import opened Wrappers
  import opened JavaStrings
  import opened JsonText

  /** The key searched for: `"text":"`, eight characters. */
  const Marker: string := "\"text\":\""

  /** The phrase returned when no transcript can be found in the body. */
  const Fallback: string := "ممكن الصوت ما تفهمش"

  /** The first occurrence of the marker in `body` starts at `i`. */
  predicate FirstMarkerAt(body: string, i: nat) {
    OccursAt(body, Marker, i) && forall k: nat :: k < i ==> !OccursAt(body, Marker, k)
  }

  /** No `"` occurs in `body` between `from` (inclusive) and `to` (exclusive). */
  predicate QuoteFree(body: string, from: nat, to: nat)
    requires to <= |body|
  {
    forall k :: from <= k < to ==> body[k] != '"'
  }

  /** A one-character pattern occurs exactly where that character stands. */
  lemma OccursAtQuote(s: string, k: nat)
    ensures OccursAt(s, "\"", k) <==> k < |s| && s[k] == '"'
  {
  }

  /** The transcript as the source extracts it. It can never hold a `"`. */
  function ExtractTranscript(body: string): (r: string)
    ensures '"' !in r
  {
    var index := IndexOf(body, Marker, 0);
    if index != -1 then
      var start := index + |Marker|;
      var end := IndexOf(body, "\"", start);
      if end != -1 then
        assert forall k :: start <= k < end ==> body[k] != '"' by {
          forall k | start <= k < end ensures body[k] != '"' {
            OccursAtQuote(body, k);
          }
        }
        body[start..end]
      else Fallback
    else Fallback
  }

  /** The search for the marker finds its first occurrence. */
  lemma MarkerFound(body: string, i: nat)
    requires FirstMarkerAt(body, i)
    ensures IndexOf(body, Marker, 0) == i
  {
  }

  /**
   * When the first marker starts at `i` and the first `"` after it stands at
   * `j`, the transcript is exactly the characters in between.
   */
  lemma ExtractBetween(body: string, i: nat, j: nat)
    requires FirstMarkerAt(body, i)
    requires i + |Marker| <= j < |body| && body[j] == '"' && QuoteFree(body, i + |Marker|, j)
    ensures ExtractTranscript(body) == body[i + |Marker|..j]
  {
    MarkerFound(body, i);
    var start := i + |Marker|;
    OccursAtQuote(body, j);
    forall k | start <= k < j ensures !OccursAt(body, "\"", k) {
      OccursAtQuote(body, k);
    }
    var end := IndexOf(body, "\"", start);
    assert end == j;
  }

  /** The closing quote right after the marker gives the empty transcript. */
  lemma ExtractEmpty(body: string, i: nat)
    requires FirstMarkerAt(body, i)
    requires i + |Marker| < |body| && body[i + |Marker|] == '"'
    ensures ExtractTranscript(body) == ""
  {
    ExtractBetween(body, i, i + |Marker|);
  }

  /** Without the marker the fallback phrase is returned. */
  lemma ExtractNoMarker(body: string)
    requires forall k: nat :: !OccursAt(body, Marker, k)
    ensures ExtractTranscript(body) == Fallback
  {
  }

  /** With the marker but no `"` anywhere after it, the fallback phrase is returned. */
  lemma ExtractUnclosed(body: string, i: nat)
    requires FirstMarkerAt(body, i)
    requires QuoteFree(body, i + |Marker|, |body|)
    ensures ExtractTranscript(body) == Fallback
  {
    MarkerFound(body, i);
    var start := i + |Marker|;
    forall k | start <= k <= |body| ensures !OccursAt(body, "\"", k) {
      OccursAtQuote(body, k);
    }
  }

  /**
   * Only the text up to the first closing quote matters: whatever follows it,
   * including further `"text":"` keys, leaves the transcript unchanged.
   */
  lemma ExtractIgnoresTail(body: string, i: nat, j: nat, tail: string)
    requires FirstMarkerAt(body, i)
    requires i + |Marker| <= j < |body| && body[j] == '"' && QuoteFree(body, i + |Marker|, j)
    ensures ExtractTranscript(body[..j + 1] + tail) == ExtractTranscript(body)
  {
    var body' := body[..j + 1] + tail;
    assert body'[..j + 1] == body[..j + 1];
    forall k: nat | k + |Marker| <= j + 1
      ensures OccursAt(body', Marker, k) <==> OccursAt(body, Marker, k)
    {
      assert body'[k..k + |Marker|] == body[..j + 1][k..k + |Marker|] == body[k..k + |Marker|];
    }
    assert FirstMarkerAt(body', i);
    ExtractBetween(body, i, j);
    ExtractBetween(body', i, j);
    assert body'[i + |Marker|..j] == body[i + |Marker|..j];
  }

  /**
   * A response body of the form `{"text":"<t escaped>"}` carrying the
   * transcript `t` (the lemmas about ExtractTranscript above hold for any body).
   */
  function ResponseBody(t: string): string {
    "{" + Marker + EscapeJson(t) + "\"}"
  }

  /** The marker in a response body stands right after the opening brace. */
  lemma ResponseMarker(t: string)
    ensures FirstMarkerAt(ResponseBody(t), 1)
    ensures ResponseBody(t)[1 + |Marker|..] == EscapeJson(t) + "\"" + "}"
  {
    var body := ResponseBody(t);
    assert body == "{" + Marker + (EscapeJson(t) + "\"}");
    assert body[1..1 + |Marker|] == Marker;
    assert body[0] != Marker[0];
  }

  /**
   * A transcript with no `"`, `\` or line-control character comes back from
   * the response body unchanged.
   */
  lemma ExtractPlain(t: string)
    requires forall k :: 0 <= k < |t| ==> EscapeChar(t[k]) == [t[k]]
    ensures ExtractTranscript(ResponseBody(t)) == t
  {
    EscapeUnchanged(t);
    ResponseMarker(t);
    var body := ResponseBody(t);
    var j := 1 + |Marker| + |t|;
    assert body == "{" + Marker + t + "\"}";
    assert body[1 + |Marker|..j] == t;
    ExtractBetween(body, 1, j);
  }

  lemma {:induction false} EscapeUnchanged(t: string)
    requires forall k :: 0 <= k < |t| ==> EscapeChar(t[k]) == [t[k]]
    ensures EscapeJson(t) == t
  {
    if t != [] {
      EscapeUnchanged(t[1..]);
    }
  }

  /**
   * As written, a transcript holding a quote is cut short: the provider
   * sends the quote as `\"`, extraction stops at that escaped quote and
   * returns a lone backslash instead of `"`.
   */
  lemma ExtractCutsAtEscapedQuote()
    ensures ExtractTranscript(ResponseBody("\"")) == "\\"
  {
    var t := "\"";
    assert EscapeJson(t) == "\\\"" + EscapeJson([]);
    ResponseMarker(t);
    var body := ResponseBody(t);
    assert body == "{\"text\":\"\\\"\"}";
    ExtractBetween(body, 1, 10);
  }

  /**
   * The corrected extraction: the value after the first marker is read as a
   * JSON string literal, so escape sequences are decoded and an escaped
   * quote does not end it.
   */
  function ExtractTranscriptJson(body: string): (r: string)
    ensures (forall k: nat :: !OccursAt(body, Marker, k)) ==> r == Fallback
  {
    var index := IndexOf(body, Marker, 0);
    if index == -1 then Fallback
    else ReadString(body[index + |Marker|..]).GetOr(Fallback)
  }

  /** Every transcript the provider can send is recovered exactly by the corrected extraction. */
  lemma ExtractJsonRoundTrip(t: string)
    ensures ExtractTranscriptJson(ResponseBody(t)) == t
  {
    ResponseMarker(t);
    MarkerFound(ResponseBody(t), 1);
    ReadEscaped(t, "}");
  }
}
