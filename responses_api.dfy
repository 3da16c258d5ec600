/**
 * The OpenAI Responses API as both tools use it: the request they send, the
 * decoded reply, the checks on it and the extractor that collects the
 * output_text chunks (tools/mdtool.php:160-224, tools/translate_md.php:88-152).
 * The HTTP exchange and the JSON decoding are not modelled: a reply arrives
 * already decoded into the tree PHP's json_decode($resp, true) builds.
 */
module ResponsesApi {
  import opened Results
  import opened Text
  import opened CliSupport

  /* ---------- the decoded reply ---------- */

  /** A key of a PHP array. */
  datatype Key = IntKey(i: int) | StrKey(s: string)

  /** A decoded JSON value.  Objects and lists both become PHP arrays, whose
      entries keep their order; the value of a number is never looked at. */
  datatype Value =
    | Null
    | Bool(b: bool)
    | Number
    | Str(s: string)
    | Array(entries: seq<(Key, Value)>)

  /** $array[$key]: the value stored under key, if any. */
  function Get(entries: seq<(Key, Value)>, key: Key): Option<Value> {
    if entries == [] then None
    else if entries[0].0 == key then Some(entries[0].1)
    else Get(entries[1..], key)
  }

  /** $v[$name] on a value that is an array. */
  function Field(v: Value, name: string): Option<Value>
    requires v.Array?
  {
    Get(v.entries, StrKey(name))
  }

  /* ---------- the extractor ---------- */

  /** The text a content entry contributes: its string `text` when its
      `type` is "output_text", nothing otherwise. */
  function ChunkText(c: Value): (t: string)
    ensures t != [] ==> c.Array? && Field(c, "type") == Some(Str("output_text")) && Field(c, "text") == Some(Str(t))
  {
    if c.Array? && Field(c, "type") == Some(Str("output_text")) then
      match Field(c, "text")
      case Some(Str(t)) => t
      case _ => ""
    else ""
  }

  /** An output item of type "message". */
  predicate IsMessage(item: Value) {
    item.Array? && Field(item, "type") == Some(Str("message"))
  }

  /** $item['content'] ?? [], or nothing when it is not an array. */
  function ContentOf(item: Value): seq<(Key, Value)>
    requires item.Array?
  {
    match Field(item, "content")
    case Some(Array(entries)) => entries
    case _ => []
  }

  /** The texts f gives the values of entries, one after the other: the
      shape of both foreach loops of the extractor. */
  function Texts(entries: seq<(Key, Value)>, f: Value -> string): string
    decreases |entries|
  {
    if entries == [] then "" else f(entries[0].1) + Texts(entries[1..], f)
  }

  /** The text of any split of the entries is the concatenation of the texts
      of the two halves. */
  lemma {:induction false} TextsAppend(a: seq<(Key, Value)>, b: seq<(Key, Value)>, f: Value -> string)
    ensures Texts(a + b, f) == Texts(a, f) + Texts(b, f)
    decreases |a|
  {
    if a == [] {
      assert a + b == b;
    } else {
      assert (a + b)[0] == a[0];
      assert (a + b)[1..] == a[1..] + b;
      TextsAppend(a[1..], b, f);
      var x, y, z := f(a[0].1), Texts(a[1..], f), Texts(b, f);
      assert Texts(a, f) == x + y;
      assert x + (y + z) == (x + y) + z;
    }
  }

  /** The text of a single entry is what f gives its value. */
  lemma TextsOne(k: Key, v: Value, f: Value -> string)
    ensures Texts([(k, v)], f) == f(v)
  {
    assert [(k, v)][1..] == [];
  }

  /** The chunks of a content array, in order. */
  function ContentText(content: seq<(Key, Value)>): string {
    Texts(content, ChunkText)
  }

  /** The text an output item contributes: all its chunks if it is a message. */
  function ItemText(item: Value): string {
    if IsMessage(item) then ContentText(ContentOf(item)) else ""
  }

  /** The text of a sequence of output items, in order. */
  function ItemsText(items: seq<(Key, Value)>): string {
    Texts(items, ItemText)
  }

  /** $outText before the trim: the texts of the `output` items, or nothing
      when the reply has no `output` array. */
  function OutputText(data: seq<(Key, Value)>): string {
    match Get(data, StrKey("output"))
    case Some(Array(items)) => ItemsText(items)
    case _ => ""
  }

  /** The text of the content entries is the concatenation of the texts of
      any split of them. */
  lemma ContentTextAppend(a: seq<(Key, Value)>, b: seq<(Key, Value)>)
    ensures ContentText(a + b) == ContentText(a) + ContentText(b)
  {
    TextsAppend(a, b, ChunkText);
  }

  /** Likewise for output items. */
  lemma ItemsTextAppend(a: seq<(Key, Value)>, b: seq<(Key, Value)>)
    ensures ItemsText(a + b) == ItemsText(a) + ItemsText(b)
  {
    TextsAppend(a, b, ItemText);
  }

  /** An output item that is not a message adds nothing, wherever it is. */
  lemma NonMessageIgnored(a: seq<(Key, Value)>, k: Key, item: Value, b: seq<(Key, Value)>)
    requires !IsMessage(item)
    ensures ItemsText(a + [(k, item)] + b) == ItemsText(a + b)
  {
    assert ItemsText([(k, item)]) == "" by {
      TextsOne(k, item, ItemText);
    }
    ItemsTextAppend(a + [(k, item)], b);
    ItemsTextAppend(a, [(k, item)]);
    ItemsTextAppend(a, b);
  }

  /** A content entry that is not an output_text chunk with a string text
      adds nothing, wherever it is. */
  lemma OtherContentIgnored(a: seq<(Key, Value)>, k: Key, c: Value, b: seq<(Key, Value)>)
    requires !(c.Array? && Field(c, "type") == Some(Str("output_text")) && Field(c, "text").Some? && Field(c, "text").value.Str?)
    ensures ContentText(a + [(k, c)] + b) == ContentText(a + b)
  {
    assert ContentText([(k, c)]) == "" by {
      TextsOne(k, c, ChunkText);
    }
    ContentTextAppend(a + [(k, c)], b);
    ContentTextAppend(a, [(k, c)]);
    ContentTextAppend(a, b);
  }

  /** Without message items there is no text. */
  lemma {:induction false} NoMessageNoText(items: seq<(Key, Value)>)
    requires forall i :: 0 <= i < |items| ==> !IsMessage(items[i].1)
    ensures ItemsText(items) == ""
    decreases |items|
  {
    if items != [] {
      NoMessageNoText(items[1..]);
    }
  }

  /** One more output item adds its text at the end. */
  lemma ItemsTextSnoc(items: seq<(Key, Value)>, i: nat)
    requires i < |items|
    ensures ItemsText(items[..i + 1]) == ItemsText(items[..i]) + ItemText(items[i].1)
  {
    ItemsTextAppend(items[..i], [items[i]]);
    assert items[..i + 1] == items[..i] + [items[i]];
    TextsOne(items[i].0, items[i].1, ItemText);
  }

  /** One more content entry adds its chunk at the end. */
  lemma ContentTextSnoc(content: seq<(Key, Value)>, j: nat)
    requires j < |content|
    ensures ContentText(content[..j + 1]) == ContentText(content[..j]) + ChunkText(content[j].1)
  {
    ContentTextAppend(content[..j], [content[j]]);
    assert content[..j + 1] == content[..j] + [content[j]];
    TextsOne(content[j].0, content[j].1, ChunkText);
  }

  /** The inner foreach: every output_text chunk of a message's content is
      appended to the text collected so far. */
  method AppendChunks(outText: string, content: seq<(Key, Value)>) returns (r: string)
    ensures r == outText + ContentText(content)
  {
    r := outText;
    var j := 0;
    while j < |content|
      invariant 0 <= j <= |content|
      invariant r == outText + ContentText(content[..j])
    {
      var c := content[j].1;
      ContentTextSnoc(content, j);
      if c.Array? && Field(c, "type") == Some(Str("output_text")) {
        var text := Field(c, "text");
        if text.Some? && text.value.Str? {
          assert ChunkText(c) == text.value.s;
          r := r + text.value.s;
        } else {
          assert ChunkText(c) == "";
        }
      } else {
        assert ChunkText(c) == "";
      }
      j := j + 1;
    }
    assert content[..j] == content;
  }

  /** The outer foreach over the `output` items: only messages are looked into. */
  method ExtractOutputText(data: seq<(Key, Value)>) returns (outText: string)
    ensures outText == OutputText(data)
  {
    outText := "";
    var output := Get(data, StrKey("output"));
    if !(output.Some? && output.value.Array?) {
      return;
    }
    var items := output.value.entries;
    var i := 0;
    while i < |items|
      invariant 0 <= i <= |items|
      invariant outText == ItemsText(items[..i])
    {
      var item := items[i].1;
      ItemsTextSnoc(items, i);
      if IsMessage(item) {
        outText := AppendChunks(outText, ContentOf(item));
      }
      i := i + 1;
    }
    assert items[..i] == items;
  }

  /* ---------- the exchange ---------- */

  /** The model both tools ask for unless told otherwise. */
  const DefaultModel := "gpt-4.1-mini"

  /** The payload: the model, the instructions and the body as input, sent
      with the key as bearer token. */
  datatype Request = Request(key: string, model: string, instructions: string, input: string)

  /** What came back: curl_exec() failed, or a status code and the decoded
      body (Null when the body is not JSON). */
  datatype Response = TransportFailure | Reply(status: int, body: Value)

  /** The API as the tools see it: a function from request to response. */
  type Api = Request -> Response

  /** The checks after curl_exec() and the extractor: a transport failure, a
      body that is not an array and a status outside 200..299 are API errors,
      and so is a reply whose trimmed text is empty. */
  function ResponseText(resp: Response): (r: Result<string, Failure>)
    ensures r.Err? ==> r.error == Api
  {
    if resp.TransportFailure? || !resp.body.Array? then Err(Api)
    else if resp.status < 200 || resp.status >= 300 then Err(Api)
    else
      var text := Trim(OutputText(resp.body.entries));
      if text == "" then Err(Api) else Ok(text)
  }

  /** A reply is accepted exactly when it is a successful status with an
      array body carrying some text that is not only white space; the text is
      then the trimmed concatenation of its chunks and is neither empty nor
      has white space at either end. */
  lemma ResponseAccepted(resp: Response)
    ensures ResponseText(resp).Ok? <==>
      resp.Reply? && resp.body.Array? && 200 <= resp.status < 300 &&
      exists k :: 0 <= k < |OutputText(resp.body.entries)| && OutputText(resp.body.entries)[k] !in PhpTrimSet
    ensures ResponseText(resp).Ok? ==>
      var t := ResponseText(resp).value;
      t == Trim(OutputText(resp.body.entries)) && t != [] &&
      t[0] !in PhpTrimSet && t[|t| - 1] !in PhpTrimSet
  {
    if resp.Reply? && resp.body.Array? {
      TrimEmpty(OutputText(resp.body.entries), PhpTrimSet);
    }
  }

  /** A 2xx reply whose only chunk is plain text yields that text. */
  lemma SingleChunk(status: int, t: string)
    requires 200 <= status < 300
    requires t != [] && t[0] !in PhpTrimSet && t[|t| - 1] !in PhpTrimSet
    ensures
      var chunk := Array([(StrKey("type"), Str("output_text")), (StrKey("text"), Str(t))]);
      var item := Array([(StrKey("type"), Str("message")), (StrKey("content"), Array([(IntKey(0), chunk)]))]);
      ResponseText(Reply(status, Array([(StrKey("output"), Array([(IntKey(0), item)]))]))) == Ok(t)
  {
    var chunk := Array([(StrKey("type"), Str("output_text")), (StrKey("text"), Str(t))]);
    var item := Array([(StrKey("type"), Str("message")), (StrKey("content"), Array([(IntKey(0), chunk)]))]);
    var items := [(IntKey(0), item)];
    assert chunk.entries[1..] == [(StrKey("text"), Str(t))];
    assert "type"[1] != "text"[1];
    assert Get(chunk.entries[1..], StrKey("text")) == Some(Str(t));
    assert Field(chunk, "type") == Some(Str("output_text"));
    assert Field(chunk, "text") == Some(Str(t));
    assert ChunkText(chunk) == t;
    assert ContentText([(IntKey(0), chunk)]) == t by {
      TextsOne(IntKey(0), chunk, ChunkText);
    }
    assert item.entries[1..] == [(StrKey("content"), Array([(IntKey(0), chunk)]))];
    assert "type"[0] != "content"[0];
    assert Get(item.entries[1..], StrKey("content")) == Some(Array([(IntKey(0), chunk)]));
    assert Field(item, "content") == Some(Array([(IntKey(0), chunk)]));
    assert IsMessage(item) && ContentOf(item) == [(IntKey(0), chunk)];
    assert ItemText(item) == t;
    assert ItemsText(items) == t by {
      TextsOne(IntKey(0), item, ItemText);
    }
    TrimUnchanged(t, PhpTrimSet);
  }

  /** Lines 182-224 of tools/mdtool.php and 110-152 of tools/translate_md.php. */
  method ReadResponse(resp: Response) returns (r: Result<string, Failure>)
    ensures r == ResponseText(resp)
  {
    if resp.TransportFailure? {
      return Err(Api);
    }
    if !resp.body.Array? {
      return Err(Api);
    }
    if resp.status < 200 || resp.status >= 300 {
      return Err(Api);
    }
    var outText := ExtractOutputText(resp.body.entries);
    outText := Trim(outText);
    if outText == "" {
      return Err(Api);
    }
    return Ok(outText);
  }
}
