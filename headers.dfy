/**
 * `parse_headers`: splitting the output of a graphterm-aware program into
 * its JSON headers and its content.
 */
module Headers {
  import opened Wrappers
  import opened Strings

  /** A decoded JSON value. */
  datatype Json =
    | JNull
    | JBool(b: bool)
    | JNum(n: int)
    | JStr(s: string)
    | JArr(items: seq<Json>)
    | JObj(fields: map<string, Json>)

  type HeaderMap = map<string, Json>

  /** The headers assumed when the output carries none. */
  const DefaultHeaders: HeaderMap :=
    map["content_type" := JStr("text/html"), "x_gterm_response" := JStr(""), "x_gterm_parameters" := JObj(map[])]

  const CrLfCrLf := "\r\n\r\n"
  const LfLf := "\n\n"
  const CrCr := "\r\r"

  /** The header block ends at the first blank line, tried as CR LF CR LF, then LF LF,
      then CR CR: the partition by the first of these that occurs at all. */
  function HeadBreak(text: string): (r: (string, string, string))
    ensures r.1 == "" ==> r.0 == text && !Contains(text, CrLfCrLf) && !Contains(text, LfLf) && !Contains(text, CrCr)
    ensures r.1 != "" ==> r.0 + r.1 + r.2 == text && !Contains(r.0, r.1)
    ensures r.1 == CrLfCrLf || (r.1 == LfLf && !Contains(text, CrLfCrLf))
      || (r.1 == CrCr && !Contains(text, CrLfCrLf) && !Contains(text, LfLf)) || r.1 == ""
  {
    var p := Partition(text, CrLfCrLf);
    if p.1 != "" then p
    else
      var q := Partition(text, LfLf);
      if q.1 != "" then q else Partition(text, CrCr)
  }

  /** The two keys every caller reads are filled in when the headers lack them. */
  function WithDefaults(h: HeaderMap): (r: HeaderMap)
    ensures "x_gterm_response" in r && "x_gterm_parameters" in r
    ensures r.Keys == h.Keys + {"x_gterm_response", "x_gterm_parameters"}
    ensures forall k :: k in h ==> r[k] == h[k]
    ensures "x_gterm_response" !in h ==> r["x_gterm_response"] == JStr("")
    ensures "x_gterm_parameters" !in h ==> r["x_gterm_parameters"] == JObj(map[])
  {
    var h1 := if "x_gterm_response" in h then h else h["x_gterm_response" := JStr("")];
    if "x_gterm_parameters" in h1 then h1 else h1["x_gterm_parameters" := JObj(map[])]
  }

  /** The headers reported when the JSON header block does not decode. */
  const JsonErrorHeaders: HeaderMap :=
    DefaultHeaders["json_error" := JStr("JSON parse error")]["content_type" := JStr("text/plain")]

  /** The text is not raw HTML and opens with a header block in braces. */
  predicate HasJsonHead(text: string) {
    !StartsWith(text, "<") && HeadBreak(text).1 != "" && StartsWith(HeadBreak(text).0, "{")
  }

  /** `parse_headers`: `(headers, content)`. The JSON decoder (`json.loads`) is a parameter that
      returns the decoded object or the message of the exception it raises. */
  function ParseHeaders(text: string, decode: string -> Result<HeaderMap, string>): (r: (HeaderMap, string))
    ensures "x_gterm_response" in r.0 && "x_gterm_parameters" in r.0
    // raw HTML, no header block, or a header block that is not JSON: the whole text is content
    ensures !HasJsonHead(text) ==> r == (DefaultHeaders, text)
    // a JSON header block that decodes: its keys and values are kept, the missing gterm keys
    // take their defaults, and the rest is content
    ensures HasJsonHead(text) && decode(HeadBreak(text).0).Success? ==>
        var h := decode(HeadBreak(text).0).value;
        && r.1 == HeadBreak(text).2
        && r.0.Keys == h.Keys + {"x_gterm_response", "x_gterm_parameters"}
        && (forall k :: k in h ==> r.0[k] == h[k])
        && ("x_gterm_response" !in h ==> r.0["x_gterm_response"] == JStr(""))
        && ("x_gterm_parameters" !in h ==> r.0["x_gterm_parameters"] == JObj(map[]))
    // one that does not: the error message becomes plain-text content
    ensures HasJsonHead(text) && decode(HeadBreak(text).0).Failure? ==>
        r == (JsonErrorHeaders, decode(HeadBreak(text).0).error)
  {
    if StartsWith(text, "<") then (DefaultHeaders, text)
    else
      var (head, sep, tail) := HeadBreak(text);
      if sep != "" && StartsWith(head, "{") then
        match decode(head)
        case Success(h) => (WithDefaults(h), tail)
        case Failure(msg) => (JsonErrorHeaders, msg)
      else (DefaultHeaders, text)
  }

  /** A program that writes a one-line JSON header, a blank line and its content has exactly
      that header decoded and exactly that content returned. */
  lemma {:induction false} ParseHeadersFraming(head: string, body: string, decode: string -> Result<HeaderMap, string>)
    requires StartsWith(head, "{") && '\r' !in head && '\n' !in head
    requires decode(head).Success?
    ensures ParseHeaders(head + CrLfCrLf + body, decode).1 == body
    ensures ParseHeaders(head + CrLfCrLf + body, decode).0 == WithDefaults(decode(head).value)
  {
    var text := head + CrLfCrLf + body;
    FindAfter(head, CrLfCrLf, body);
    assert text[..|head|] == head;
    assert text[|head| + 4..] == body;
    assert HeadBreak(text) == (head, CrLfCrLf, body);
    assert text[0] == head[0];
  }
}
