/**
 The image node `PollinationsImageGen`: its declared inputs, the request
 `generate` builds (the URL with the percent-encoded prompt and the
 optional bearer-token header) and how it sorts the HTTP response into an
 image or an error.
 */
module ImageGen {
  import opened Wrappers
  import opened PyStr
  import opened PercentEncoding

  // ---------------------------------------------------------------------
  // INPUT_TYPES

  const ModelChoices: seq<string> := ["flux", "klein-large", "gptimage"]
  const DefaultModel: string := "flux"
  const DefaultWidth: int := 1024
  const DefaultHeight: int := 1024
  const DefaultSeed: int := 42
  const MinSize: int := 256
  const MaxSize: int := 4096
  const MaxSeed: int := 0xffff_ffff_ffff_ffff

  /** The bounds the node declares for its integer inputs (the host enforces them). */
  predicate InBounds(width: int, height: int, seed: int)
  {
    MinSize <= width <= MaxSize && MinSize <= height <= MaxSize && 0 <= seed <= MaxSeed
  }

  /** The declared defaults are among the declared choices and within the declared bounds. */
  lemma DefaultsAreDeclaredInputs()
    ensures DefaultModel in ModelChoices
    ensures InBounds(DefaultWidth, DefaultHeight, DefaultSeed)
  {
  }

  // ---------------------------------------------------------------------
  // The request URL

  const Endpoint: string := "https://image.pollinations.ai/prompt/"

  /** The query part of the URL: five parameters in a fixed order. */
  function QueryString(model: string, w: string, h: string, s: string): string
  {
    "model=" + model + "&width=" + w + "&height=" + h + "&seed=" + s + "&nologo=true"
  }

  /** The request URL `generate` builds: the fixed endpoint, the quoted prompt, then five query parameters in a fixed order. */
  function BuildUrl(prompt: seq<byte>, model: string, width: int, height: int, seed: int): string
    requires InBounds(width, height, seed)
  {
    Endpoint + Quote(prompt) + "?" + QueryString(model, NatToString(width), NatToString(height), NatToString(seed))
  }

  /** What a request URL carries. */
  datatype ImageRequest = ImageRequest(prompt: seq<byte>, model: string, width: nat, height: nat, seed: nat)

  /** The value of a `key=value` query parameter with the given `key=` prefix. */
  function FieldValue(field: string, keyEq: string): Option<string>
  {
    if |field| >= |keyEq| && field[..|keyEq|] == keyEq then Some(field[|keyEq|..]) else None
  }

  function NatField(field: string, keyEq: string): Option<nat>
  {
    var v := FieldValue(field, keyEq);
    if v.Some? then ParseNat(v.value) else None
  }

  /** Reads the query back: exactly the parameters model, width, height, seed and nologo=true, in that order. */
  function ParseQuery(query: string): Option<(string, nat, nat, nat)>
  {
    var fields := Split(query, '&');
    if |fields| != 5 then None
    else
      var model := FieldValue(fields[0], "model=");
      var width := NatField(fields[1], "width=");
      var height := NatField(fields[2], "height=");
      var seed := NatField(fields[3], "seed=");
      if model.Some? && width.Some? && height.Some? && seed.Some? && fields[4] == "nologo=true" then
        Some((model.value, width.value, height.value, seed.value))
      else None
  }

  /** Reads a request URL back: the endpoint, a percent-decoded prompt, a `?` and the query. */
  function ParseUrl(url: string): Option<ImageRequest>
  {
    if |url| < |Endpoint| || url[..|Endpoint|] != Endpoint then None
    else
      var parts := Split(url[|Endpoint|..], '?');
      if |parts| != 2 then None
      else
        var prompt := Unquote(parts[0]);
        var params := ParseQuery(parts[1]);
        if prompt.Some? && params.Some? then
          Some(ImageRequest(prompt.value, params.value.0, params.value.1, params.value.2, params.value.3))
        else None
  }

  /** A model identifier that can stand in a query without escaping. */
  predicate IsQueryValue(s: string)
  {
    forall i | 0 <= i < |s| :: IsUnreservedChar(s[i])
  }

  /** Every declared model choice is written into the query as it is. */
  lemma ModelChoicesAreQueryValues()
    ensures forall i | 0 <= i < |ModelChoices| :: IsQueryValue(ModelChoices[i])
  {
  }

  /** The parameters the query is made of. */
  function QueryFields(model: string, w: string, h: string, s: string): seq<string>
  {
    ["model=" + model, "width=" + w, "height=" + h, "seed=" + s, "nologo=true"]
  }

  lemma FieldsAvoidSeparators(model: string, w: string, h: string, s: string)
    requires IsQueryValue(model) && IsDigits(w) && IsDigits(h) && IsDigits(s)
    ensures var fields := QueryFields(model, w, h, s);
      forall i | 0 <= i < |fields| :: '&' !in fields[i] && '?' !in fields[i]
  {
    var fields := QueryFields(model, w, h, s);
    assert '&' !in fields[0] && '?' !in fields[0];
    assert '&' !in fields[1] && '?' !in fields[1];
    assert '&' !in fields[2] && '?' !in fields[2];
    assert '&' !in fields[3] && '?' !in fields[3];
    assert '&' !in fields[4] && '?' !in fields[4];
  }

  lemma QueryTailIsJoin(w: string, h: string, s: string)
    ensures Join(["width=" + w, "height=" + h, "seed=" + s, "nologo=true"], "&")
      == "width=" + w + "&height=" + h + "&seed=" + s + "&nologo=true"
  {
    var e := "nologo=true";
    var wf, hf, sf := "width=" + w, "height=" + h, "seed=" + s;
    JoinCons(sf, [e], "&");
    assert [sf, e] == [sf] + [e];
    JoinCons(hf, [sf, e], "&");
    assert [hf, sf, e] == [hf] + [sf, e];
    JoinCons(wf, [hf, sf, e], "&");
    assert [wf, hf, sf, e] == [wf] + [hf, sf, e];
  }

  lemma QueryIsJoin(model: string, w: string, h: string, s: string)
    ensures Join(QueryFields(model, w, h, s), "&") == QueryString(model, w, h, s)
  {
    var tail := ["width=" + w, "height=" + h, "seed=" + s, "nologo=true"];
    QueryTailIsJoin(w, h, s);
    JoinCons("model=" + model, tail, "&");
    assert QueryFields(model, w, h, s) == ["model=" + model] + tail;
  }

  lemma QueryAvoidsQuestionMark(model: string, w: string, h: string, s: string)
    requires IsQueryValue(model) && IsDigits(w) && IsDigits(h) && IsDigits(s)
    ensures '?' !in QueryString(model, w, h, s)
  {
  }

  lemma QuerySplits(model: string, w: string, h: string, s: string)
    requires IsQueryValue(model) && IsDigits(w) && IsDigits(h) && IsDigits(s)
    ensures Split(QueryString(model, w, h, s), '&') == QueryFields(model, w, h, s)
  {
    FieldsAvoidSeparators(model, w, h, s);
    QueryIsJoin(model, w, h, s);
    SplitJoin(QueryFields(model, w, h, s), '&');
  }

  /** The query reads back as the model and the three numbers it was built from. */
  lemma QueryRoundTrip(model: string, width: nat, height: nat, seed: nat)
    requires IsQueryValue(model)
    ensures ParseQuery(QueryString(model, NatToString(width), NatToString(height), NatToString(seed)))
      == Some((model, width, height, seed))
  {
    var w, h, s := NatToString(width), NatToString(height), NatToString(seed);
    QuerySplits(model, w, h, s);
    ParseNatToString(width);
    ParseNatToString(height);
    ParseNatToString(seed);
    var fields := QueryFields(model, w, h, s);
    assert FieldValue(fields[0], "model=") == Some(model);
    assert FieldValue(fields[1], "width=") == Some(w);
    assert FieldValue(fields[2], "height=") == Some(h);
    assert FieldValue(fields[3], "seed=") == Some(s);
  }

  lemma PathSplits(q: string, query: string)
    requires '?' !in q && '?' !in query
    ensures Split(q + "?" + query, '?') == [q, query]
  {
    SplitAtFirst(q, '?', query);
    SplitWithoutSeparator(query, '?');
  }

  lemma UrlShape(prompt: seq<byte>, model: string, width: int, height: int, seed: int)
    requires InBounds(width, height, seed)
    ensures var url := BuildUrl(prompt, model, width, height, seed);
      var rest := Quote(prompt) + "?" + QueryString(model, NatToString(width), NatToString(height), NatToString(seed));
      |url| >= |Endpoint| && url[..|Endpoint|] == Endpoint && url[|Endpoint|..] == rest
  {
    var q := Quote(prompt);
    var query := QueryString(model, NatToString(width), NatToString(height), NatToString(seed));
    assert Endpoint + q + "?" + query == Endpoint + (q + "?" + query);
    ConcatSlices(Endpoint, q + "?" + query);
  }

  /**
   The URL holds the prompt, model, width, height and seed in this one
   fixed order, and nothing else: reading it back gives exactly those
   inputs, the prompt's bytes included.
   */
  lemma UrlRoundTrip(prompt: seq<byte>, model: string, width: int, height: int, seed: int)
    requires InBounds(width, height, seed)
    requires IsQueryValue(model)
    ensures ParseUrl(BuildUrl(prompt, model, width, height, seed)) == Some(ImageRequest(prompt, model, width, height, seed))
  {
    var q := Quote(prompt);
    var w, h, s := NatToString(width), NatToString(height), NatToString(seed);
    var query := QueryString(model, w, h, s);
    var url := BuildUrl(prompt, model, width, height, seed);
    UrlShape(prompt, model, width, height, seed);
    QuoteAlphabet(prompt);
    assert '?' !in q;
    QueryAvoidsQuestionMark(model, w, h, s);
    PathSplits(q, query);
    UnquoteQuote(prompt);
    QueryRoundTrip(model, width, height, seed);
  }

  // ---------------------------------------------------------------------
  // The Authorization header

  /**
   The header map for an optional key: empty unless the key has a
   non-whitespace character, and then exactly one bearer-token entry with
   the stripped key.
   */
  predicate IsAuthHeaders(apiKey: Option<string>, headers: map<string, string>)
  {
    if apiKey.Some? && Strip(apiKey.value) != "" then
      headers == map["Authorization" := "Bearer " + Strip(apiKey.value)]
    else
      headers == map[]
  }

  /** The `headers` dictionary of `generate`. */
  method BuildHeaders(apiKey: Option<string>) returns (headers: map<string, string>)
    ensures IsAuthHeaders(apiKey, headers)
    ensures headers == map[] <==>
      apiKey.None? || forall k | 0 <= k < |apiKey.value| :: IsSpace(apiKey.value[k])
    ensures "Authorization" in headers ==>
      var token := headers["Authorization"][|"Bearer "|..];
      headers["Authorization"][..|"Bearer "|] == "Bearer " && token != ""
      && !IsSpace(token[0]) && !IsSpace(token[|token| - 1])
  {
    headers := map[];
    if apiKey.Some? && apiKey.value != "" && Strip(apiKey.value) != "" {
      headers := headers["Authorization" := "Bearer " + Strip(apiKey.value)];
      assert "Authorization" in headers;
    }
  }

  // ---------------------------------------------------------------------
  // The response

  /** The HTTP response, as `requests` hands it back. */
  datatype Response = Response(status: int, content: seq<byte>, text: string)

  /** What `generate` makes of a response. */
  datatype Outcome =
    | ImageBytes(content: seq<byte>)
    | ApiError(status: int, message: string)

  /**
   Status 200 gives the image (the body's bytes, before decoding); any
   other status gives the error `Pollinations API Error: <status> - <body>`.
   */
  function Classify(r: Response): (o: Outcome)
    ensures o.ImageBytes? <==> r.status == 200
    ensures o.ImageBytes? ==> o.content == r.content
    ensures o.ApiError? ==> o.status == r.status
    ensures o.ApiError? ==>
      var prefix := "Pollinations API Error: ";
      |o.message| >= |prefix| && o.message[..|prefix|] == prefix
      && o.message[|prefix|..] == IntToString(r.status) + " - " + r.text
  {
    if r.status == 200 then ImageBytes(r.content)
    else ApiError(r.status, "Pollinations API Error: " + IntToString(r.status) + " - " + r.text)
  }

  datatype Request = Request(url: string, headers: map<string, string>)

  /**
   `generate`: builds the request, hands it to the network (whose answer is
   the `response` parameter) and classifies the answer.
   */
  method Generate(prompt: seq<byte>, model: string, width: int, height: int, seed: int,
                  apiKey: Option<string>, response: Response)
    returns (request: Request, outcome: Outcome)
    requires InBounds(width, height, seed)
    ensures request.url == BuildUrl(prompt, model, width, height, seed)
    ensures IsAuthHeaders(apiKey, request.headers)
    ensures outcome.ImageBytes? <==> response.status == 200
    ensures outcome == Classify(response)
  {
    var url := BuildUrl(prompt, model, width, height, seed);
    var headers := BuildHeaders(apiKey);
    request := Request(url, headers);
    if response.status == 200 {
      outcome := ImageBytes(response.content);
    } else {
      outcome := ApiError(response.status, "Pollinations API Error: " + IntToString(response.status) + " - " + response.text);
    }
  }
}
