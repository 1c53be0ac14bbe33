/**
 * JSON string literals (RFC 8259, section 7): reading the body of a literal
 * up to its closing quote, and escaping text so that it can be placed inside
 * one. The chat bot's transcript extraction and audit line do not use
 * these; they are the reader and escaper that the lemmas about those two
 * are stated against, and the corrected behaviour for both.
 */
module JsonText {
  import opened Wrappers

  /** What the escape sequence `\e` stands for; unknown escapes (such as `\u`) are kept as written. */
  function Unescape(e: char): (r: string)
    ensures 1 <= |r| <= 2
  {
    match e
    case '"' => "\""
    case '\\' => "\\"
    case '/' => "/"
    case 'n' => "\n"
    case 'r' => "\r"
    case 't' => "\t"
    case 'b' => "\U{0008}"
    case 'f' => "\U{000C}"
    case _ => ['\\', e]
  }

  function Prepend(p: string, o: Option<string>): Option<string> {
    match o
    case None => None
    case Some(t) => Some(p + t)
  }

  /**
   * Reads the body of a string literal whose opening quote has already been
   * consumed: the decoded text before the first unescaped `"`, or None when
   * the literal is not terminated.
   */
  function ReadString(s: string): (r: Option<string>)
    ensures '"' !in s ==> r == None
    ensures r.Some? ==> |r.value| < |s|
  {
    if |s| == 0 then None
    else if s[0] == '"' then Some("")
    else if s[0] == '\\' then
      if |s| == 1 then None else Prepend(Unescape(s[1]), ReadString(s[2..]))
    else Prepend([s[0]], ReadString(s[1..]))
  }

  /** The escape sequence written for one character of the text. */
  function EscapeChar(c: char): (r: string)
    ensures r == [c] || (|r| == 2 && r[0] == '\\' && Unescape(r[1]) == [c])
    ensures r == [c] ==> c != '"' && c != '\\'
  {
    match c
    case '"' => "\\\""
    case '\\' => "\\\\"
    case '\n' => "\\n"
    case '\r' => "\\r"
    case '\t' => "\\t"
    case _ => [c]
  }

  /** Text escaped for use inside a JSON string literal. */
  function EscapeJson(t: string): (r: string)
    ensures |t| <= |r| <= 2 * |t|
  {
    if t == [] then [] else EscapeChar(t[0]) + EscapeJson(t[1..])
  }

  /**
   * Escaping is undone by reading: whatever follows the closing quote, the
   * literal reads back as the original text.
   */
  lemma {:induction false} ReadEscaped(t: string, rest: string)
    ensures ReadString(EscapeJson(t) + "\"" + rest) == Some(t)
  {
    var s := EscapeJson(t) + "\"" + rest;
    if t == [] {
      assert s == "\"" + rest;
    } else {
      var e := EscapeChar(t[0]);
      var s' := EscapeJson(t[1..]) + "\"" + rest;
      assert s == e + s';
      ReadEscaped(t[1..], rest);
      if e == [t[0]] {
        assert s[1..] == s';
      } else {
        assert s[2..] == s';
      }
      assert [t[0]] + t[1..] == t;
    }
  }
}
