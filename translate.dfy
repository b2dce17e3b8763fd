/** The translation client: the query it sends, the extraction of the
    translated text from the service's nested-array response, the guard chain
    that classifies every outcome of one request, and the fixed list of
    language codes. */
module Translator {
  import opened Wrappers
  import opened Json

  // ---------------------------------------------------------------------------
  // Query parameters
  // ---------------------------------------------------------------------------

  /** A `url.Values`: each key maps to the list of values added under it. */
  type Values = map<string, seq<string>>

  /** `url.Values.Add`: append `value` to the values already under `key`. */
  function Add(v: Values, key: string, value: string): (w: Values)
    ensures w.Keys == v.Keys + {key}
    ensures forall k :: k in v && k != key ==> w[k] == v[k]
  {
    v[key := (if key in v then v[key] else []) + [value]]
  }

  /** The query parameters of one translation request, added one by one. */
  function QueryParams(text: string, from: string, to: string): Values
  {
    var params := map[];
    var params := Add(params, "client", "gtx");
    var params := Add(params, "sl", from);
    var params := Add(params, "tl", to);
    var params := Add(params, "dt", "t");
    Add(params, "q", text)
  }

  /** The request carries exactly five parameters, each holding exactly one
      value: the constant client id, the source and target language codes,
      the flag selecting translated-text output, and the text. */
  lemma QueryParamsExact(text: string, from: string, to: string)
    ensures QueryParams(text, from, to)
      == map["client" := ["gtx"], "sl" := [from], "tl" := [to], "dt" := ["t"], "q" := [text]]
  {
    var params := QueryParams(text, from, to);
    var expected := map["client" := ["gtx"], "sl" := [from], "tl" := [to], "dt" := ["t"], "q" := [text]];
    assert params.Keys == expected.Keys;
    assert params["client"] == ["gtx"] && params["sl"] == [from] && params["tl"] == [to];
    assert params["dt"] == ["t"] && params["q"] == [text];
  }

  // ---------------------------------------------------------------------------
  // Extraction
  // ---------------------------------------------------------------------------

  /** The fragment a segment entry contributes: element 0 of a non-empty
      array, when that element is a string; otherwise the entry is skipped. */
  function SegmentText(segment: Value): Option<string>
  {
    if segment.Array? && |segment.elems| > 0 && segment.elems[0].String?
    then Some(segment.elems[0].s)
    else None
  }

  /** What one segment entry adds to the fragment list: its fragment, or
      nothing when it is skipped. */
  function Contribution(segment: Value): seq<string>
  {
    match SegmentText(segment)
    case Some(t) => [t]
    case None => []
  }

  /** The kept fragments of the segment entries, in order. */
  function Fragments(segments: seq<Value>): seq<string>
  {
    if segments == [] then [] else Contribution(segments[0]) + Fragments(segments[1..])
  }

  /** `strings.Join(parts, "")`: the parts concatenated with no separator. */
  function Join(parts: seq<string>): string
  {
    if parts == [] then "" else parts[0] + Join(parts[1..])
  }

  /** What `extractTranslation` returns: nothing for an empty top level or a
      top-level element 0 that is not an array, otherwise the joined fragments
      of the segment entries in element 0. */
  function Extraction(data: seq<Value>): string
  {
    if |data| == 0 || !data[0].Array? then "" else Join(Fragments(data[0].elems))
  }

  /** `extractTranslation`: walks the segment entries, collecting the fragment
      of each qualifying entry, and joins the collected fragments. */
  method ExtractTranslation(data: seq<Value>) returns (translation: string)
    ensures translation == Extraction(data)
  {
    if |data| == 0 {
      return "";
    }
    if !data[0].Array? {
      return "";
    }
    var translations := data[0].elems;
    var translatedParts: seq<string> := [];
    for i := 0 to |translations|
      invariant translatedParts == Fragments(translations[..i])
    {
      assert translations[..i + 1] == translations[..i] + [translations[i]];
      FragmentsAppend(translations[..i], [translations[i]]);
      FragmentsSingleton(translations[i]);
      var part := translations[i];
      if !part.Array? {
        continue;
      }
      var pair := part.elems;
      if |pair| == 0 {
        continue;
      }
      if !pair[0].String? {
        continue;
      }
      translatedParts := translatedParts + [pair[0].s];
    }
    assert translations[..|translations|] == translations;
    translation := Join(translatedParts);
  }

  /** Fragments of a concatenation are the concatenation of the fragments. */
  lemma {:induction false} FragmentsAppend(a: seq<Value>, b: seq<Value>)
    ensures Fragments(a + b) == Fragments(a) + Fragments(b)
  {
    if a == [] {
      assert a + b == b;
    } else {
      assert (a + b)[0] == a[0];
      assert (a + b)[1..] == a[1..] + b;
      FragmentsAppend(a[1..], b);
    }
  }

  /** The fragments of a single segment entry. */
  lemma FragmentsSingleton(segment: Value)
    ensures Fragments([segment]) == Contribution(segment)
  {
    assert [segment][1..] == [];
  }

  /** The fragments of a list split around entry `i`. */
  lemma FragmentsAround(segments: seq<Value>, i: nat)
    requires i < |segments|
    ensures Fragments(segments)
         == Fragments(segments[..i]) + Contribution(segments[i]) + Fragments(segments[i + 1..])
  {
    var before, after := segments[..i], segments[i..];
    assert segments == before + after;
    FragmentsAppend(before, after);
    assert after[0] == segments[i] && after[1..] == segments[i + 1..];
  }

  /** A skipped segment entry contributes nothing, and every entry after it
      still contributes exactly what it would without it. */
  lemma SkippedSegment(segments: seq<Value>, i: nat)
    requires i < |segments| && SegmentText(segments[i]).None?
    ensures Fragments(segments) == Fragments(segments[..i] + segments[i + 1..])
  {
    FragmentsAround(segments, i);
    FragmentsAppend(segments[..i], segments[i + 1..]);
  }

  /** A qualifying segment entry contributes its fragment exactly at the
      position after everything the earlier entries contributed. */
  lemma KeptSegment(segments: seq<Value>, i: nat, t: string)
    requires i < |segments| && SegmentText(segments[i]) == Some(t)
    ensures Fragments(segments) == Fragments(segments[..i]) + [t] + Fragments(segments[i + 1..])
  {
    FragmentsAround(segments, i);
  }

  /** A string is a kept fragment exactly when some segment entry qualifies
      with that string as its element 0. */
  lemma {:induction false} FragmentsMembership(segments: seq<Value>, t: string)
    ensures t in Fragments(segments)
        <==> exists i :: 0 <= i < |segments| && SegmentText(segments[i]) == Some(t)
  {
    if segments != [] {
      var rest := segments[1..];
      FragmentsMembership(rest, t);
      if exists i :: 0 <= i < |segments| && SegmentText(segments[i]) == Some(t) {
        var i :| 0 <= i < |segments| && SegmentText(segments[i]) == Some(t);
        if i > 0 {
          assert rest[i - 1] == segments[i];
        }
      }
      if exists i :: 0 <= i < |rest| && SegmentText(rest[i]) == Some(t) {
        var i :| 0 <= i < |rest| && SegmentText(rest[i]) == Some(t);
        assert segments[i + 1] == rest[i];
      }
    }
  }

  /** Joining is compatible with concatenating the part lists. */
  lemma {:induction false} JoinAppend(a: seq<string>, b: seq<string>)
    ensures Join(a + b) == Join(a) + Join(b)
  {
    if a == [] {
      assert a + b == b;
    } else {
      assert (a + b)[0] == a[0];
      assert (a + b)[1..] == a[1..] + b;
      JoinAppend(a[1..], b);
    }
  }

  /** The joined string is empty exactly when every part is empty. */
  lemma {:induction false} JoinEmptyIff(parts: seq<string>)
    ensures Join(parts) == "" <==> forall k :: 0 <= k < |parts| ==> parts[k] == ""
  {
    if parts != [] {
      var rest := parts[1..];
      JoinEmptyIff(rest);
      if forall k :: 0 <= k < |parts| ==> parts[k] == "" {
        assert forall k :: 0 <= k < |rest| ==> rest[k] == parts[k + 1];
      }
      if Join(parts) == "" {
        forall k | 0 <= k < |parts| ensures parts[k] == "" {
          if k > 0 {
            assert parts[k] == rest[k - 1];
          }
        }
      }
    }
  }

  /** Extraction yields the empty string exactly when the top level is empty,
      its element 0 is not an array, or no segment entry qualifies with a
      non-empty fragment. */
  lemma ExtractionEmptyIff(data: seq<Value>)
    ensures Extraction(data) == ""
        <==> |data| == 0 || !data[0].Array?
             || forall i :: 0 <= i < |data[0].elems| ==>
                  SegmentText(data[0].elems[i]).None? || SegmentText(data[0].elems[i]).value == ""
  {
    if |data| > 0 && data[0].Array? {
      var segments := data[0].elems;
      var parts := Fragments(segments);
      JoinEmptyIff(parts);
      if forall k :: 0 <= k < |parts| ==> parts[k] == "" {
        forall i | 0 <= i < |segments| && SegmentText(segments[i]).Some?
          ensures SegmentText(segments[i]).value == ""
        {
          FragmentsMembership(segments, SegmentText(segments[i]).value);
        }
      }
      if forall i :: 0 <= i < |segments| ==>
           SegmentText(segments[i]).None? || SegmentText(segments[i]).value == "" {
        forall k | 0 <= k < |parts| ensures parts[k] == "" {
          FragmentsMembership(segments, parts[k]);
        }
      }
    }
  }

  /** A top level that is empty, or whose element 0 is not an array, yields
      no translation at all, whatever follows. */
  lemma RejectedTopLevel(data: seq<Value>)
    requires |data| == 0 || !data[0].Array?
    ensures Extraction(data) == ""
  {
  }

  /** A response shaped `[[[x, ...], 3, [y, ...]]]` extracts to `x + y`, whatever
      metadata follows each fragment: the bare number is skipped without
      stopping the later segment, and the two fragments are joined without a
      separator (so `"A"`, `"B"` give "AB"). */
  lemma ExtractionTwoSegments(x: string, y: string, xMeta: seq<Value>, yMeta: seq<Value>,
                              token: string)
    ensures Extraction([Array([Array([String(x)] + xMeta), Number(token),
                               Array([String(y)] + yMeta)])]) == x + y
  {
    var a, n, b := Array([String(x)] + xMeta), Number(token), Array([String(y)] + yMeta);
    assert Fragments([a, n, b]) == [x, y] by {
      assert [b][1..] == [];
      assert Fragments([b]) == [y];
      assert [n, b][1..] == [b];
      assert Fragments([n, b]) == [y];
      assert [a, n, b][1..] == [n, b];
    }
    assert Join([x, y]) == x + y by {
      assert [y][1..] == [];
      assert Join([y]) == y + "" == y;
      assert [x, y][1..] == [y];
    }
  }

  // ---------------------------------------------------------------------------
  // The guard chain of one translation request
  // ---------------------------------------------------------------------------

  const StatusOK := 200

  /** The response body as read to its end: the bytes obtained, and the read
      error if reading stopped early. */
  datatype BodyRead = BodyRead(bytes: seq<byte>, err: Option<string>)

  /** The outcome of sending the request: a response, or a transport failure
      (DNS, connection, the client's timeout). */
  datatype Transport = Response(status: int, body: BodyRead) | TransportError(cause: string)

  /** What the client does not compute itself: building the request from the
      query parameters (a failure cause or none), sending it, and decoding a
      body as JSON. */
  datatype Environment = Environment(
    newRequest: Values -> Option<string>,
    send: Values -> Transport,
    decode: seq<byte> -> Decoded)

  /** The error kinds, each with the diagnostic context the client reports. */
  datatype TranslateError =
    | EmptyText
    | RequestError(cause: string)
    | NetworkError(cause: string)
    | StatusError(status: int, body: seq<byte>)
    | ReadError(cause: string)
    | ParseError(cause: string, body: seq<byte>)
    | ExtractionError(body: seq<byte>)

  /** `Translate`: the first failing guard decides the error; a success is the
      non-empty extraction of the decoded response. */
  function Translate(text: string, from: string, to: string, env: Environment)
    : (r: Result<string, TranslateError>)
    ensures text == "" ==> r == Failure(EmptyText)
    ensures r.Success? ==> r.value != ""
  {
    if text == "" then Failure(EmptyText)
    else
      var params := QueryParams(text, from, to);
      match env.newRequest(params)
      case Some(cause) => Failure(RequestError(cause))
      case None =>
        match env.send(params)
        case TransportError(cause) => Failure(NetworkError(cause))
        case Response(status, body) =>
          if status != StatusOK then Failure(StatusError(status, body.bytes))
          else if body.err.Some? then Failure(ReadError(body.err.value))
          else
            match UnmarshalSlice(env.decode(body.bytes))
            case Failure(cause) => Failure(ParseError(cause, body.bytes))
            case Success(data) =>
              var translation := Extraction(data);
              if translation == "" then Failure(ExtractionError(body.bytes))
              else Success(translation)
  }

  /** Empty text fails before any request is built: the outcome is the same
      in every environment. */
  lemma EmptyTextConsultsNothing(from: string, to: string, env1: Environment, env2: Environment)
    ensures Translate("", from, to, env1) == Translate("", from, to, env2) == Failure(EmptyText)
  {
  }

  /** A non-200 response fails with its status and the bytes read from its
      body (a read error is ignored there); the decoder is never consulted. */
  lemma NonOkStatusNeverDecoded(text: string, from: string, to: string, env: Environment,
                                decode: seq<byte> -> Decoded)
    requires text != "" && env.newRequest(QueryParams(text, from, to)).None?
    requires env.send(QueryParams(text, from, to)).Response?
    requires env.send(QueryParams(text, from, to)).status != StatusOK
    ensures Translate(text, from, to, env)
         == Failure(StatusError(env.send(QueryParams(text, from, to)).status,
                                env.send(QueryParams(text, from, to)).body.bytes))
    ensures Translate(text, from, to, env.(decode := decode)) == Translate(text, from, to, env)
  {
  }

  /** A request that cannot be built fails with its cause; nothing is sent
      and nothing is decoded. */
  lemma RequestFailureShortCircuits(text: string, from: string, to: string, env: Environment,
                                    send: Values -> Transport, decode: seq<byte> -> Decoded)
    requires text != "" && env.newRequest(QueryParams(text, from, to)).Some?
    ensures Translate(text, from, to, env)
         == Failure(RequestError(env.newRequest(QueryParams(text, from, to)).value))
    ensures Translate(text, from, to, env.(send := send, decode := decode))
         == Translate(text, from, to, env)
  {
  }

  /** A transport failure is a network error carrying its cause; nothing is
      decoded. */
  lemma TransportFailureShortCircuits(text: string, from: string, to: string, env: Environment,
                                      decode: seq<byte> -> Decoded)
    requires text != "" && env.newRequest(QueryParams(text, from, to)).None?
    requires env.send(QueryParams(text, from, to)).TransportError?
    ensures Translate(text, from, to, env)
         == Failure(NetworkError(env.send(QueryParams(text, from, to)).cause))
    ensures Translate(text, from, to, env.(decode := decode)) == Translate(text, from, to, env)
  {
  }

  /** A 200 response whose body cannot be read to its end is a read error;
      the partial body is not decoded. */
  lemma ReadFailureShortCircuits(text: string, from: string, to: string, env: Environment,
                                 decode: seq<byte> -> Decoded)
    requires text != "" && env.newRequest(QueryParams(text, from, to)).None?
    requires env.send(QueryParams(text, from, to)).Response?
    requires env.send(QueryParams(text, from, to)).status == StatusOK
    requires env.send(QueryParams(text, from, to)).body.err.Some?
    ensures Translate(text, from, to, env)
         == Failure(ReadError(env.send(QueryParams(text, from, to)).body.err.value))
    ensures Translate(text, from, to, env.(decode := decode)) == Translate(text, from, to, env)
  {
  }

  /** Every guard before decoding passes: the text is non-empty, the request
      is built, and a 200 response is read to its end without error. */
  predicate ReachesDecoding(text: string, from: string, to: string, env: Environment)
  {
    var response := env.send(QueryParams(text, from, to));
    text != "" && env.newRequest(QueryParams(text, from, to)).None?
    && response.Response? && response.status == StatusOK && response.body.err.None?
  }

  /** The body handed to the decoder once every earlier guard has passed. */
  function OkBody(text: string, from: string, to: string, env: Environment): seq<byte>
    requires ReachesDecoding(text, from, to, env)
  {
    env.send(QueryParams(text, from, to)).body.bytes
  }

  /** A decoded top level that is neither an array nor `null` is a parse
      error carrying the body, not an extraction error. */
  lemma NonArrayTopLevelIsParseError(text: string, from: string, to: string, env: Environment)
    requires ReachesDecoding(text, from, to, env)
    requires env.decode(OkBody(text, from, to, env)).Parsed?
    requires !env.decode(OkBody(text, from, to, env)).value.Array?
    requires !env.decode(OkBody(text, from, to, env)).value.Null?
    ensures var r := Translate(text, from, to, env);
            r.Failure? && r.error.ParseError? && r.error.body == OkBody(text, from, to, env)
  {
  }

  /** A body the decoder rejects (malformed JSON, or a number out of the
      range of a float64) is a parse error carrying the decoder's message and
      the body. */
  lemma DecodeErrorIsParseError(text: string, from: string, to: string, env: Environment)
    requires ReachesDecoding(text, from, to, env)
    requires env.decode(OkBody(text, from, to, env)).DecodeError?
    ensures Translate(text, from, to, env)
         == Failure(ParseError(env.decode(OkBody(text, from, to, env)).msg, OkBody(text, from, to, env)))
  {
  }

  /** A decoded top-level `null` reaches extraction as an empty slice and
      fails there, carrying the body. */
  lemma NullTopLevelIsExtractionError(text: string, from: string, to: string, env: Environment)
    requires ReachesDecoding(text, from, to, env)
    requires env.decode(OkBody(text, from, to, env)) == Parsed(Null)
    ensures Translate(text, from, to, env) == Failure(ExtractionError(OkBody(text, from, to, env)))
  {
  }

  /** A translation succeeds exactly when every guard passes: the request is
      sent and read, the body decodes to an array or `null`, and the
      extraction, which is the result, is non-empty. */
  lemma TranslateSucceedsIff(text: string, from: string, to: string, env: Environment, out: string)
    ensures Translate(text, from, to, env) == Success(out)
        <==> ReachesDecoding(text, from, to, env)
             && UnmarshalSlice(env.decode(OkBody(text, from, to, env))).Success?
             && out == Extraction(UnmarshalSlice(env.decode(OkBody(text, from, to, env))).value)
             && out != ""
  {
  }

  /** A response that decodes to an array from which nothing can be extracted
      (an empty top level, a top-level element 0 that is not a list, or
      segment entries that all fail to qualify or qualify only with empty
      fragments) is an extraction error, never an empty success. */
  lemma NoFragmentIsExtractionError(text: string, from: string, to: string, env: Environment,
                                    data: seq<Value>)
    requires ReachesDecoding(text, from, to, env)
    requires env.decode(OkBody(text, from, to, env)) == Parsed(Array(data))
    requires |data| == 0 || !data[0].Array?
             || forall i :: 0 <= i < |data[0].elems| ==>
                  SegmentText(data[0].elems[i]).None? || SegmentText(data[0].elems[i]).value == ""
    ensures Translate(text, from, to, env) == Failure(ExtractionError(OkBody(text, from, to, env)))
  {
    ExtractionEmptyIff(data);
  }

  /** The service's reply `[[["привет","hello",null,null,1]],null,"en"]` to
      "hello" from en to ru yields "привет". */
  lemma TranslateExample(env: Environment, body: seq<byte>)
    requires env.newRequest(QueryParams("hello", "en", "ru")).None?
    requires env.send(QueryParams("hello", "en", "ru")) == Response(StatusOK, BodyRead(body, None))
    requires env.decode(body) == Parsed(Array([
               Array([Array([String("привет"), String("hello"), Null, Null, Number("1")])]),
               Null, String("en")]))
    ensures Translate("hello", "en", "ru", env) == Success("привет")
  {
    var segment := Array([String("привет"), String("hello"), Null, Null, Number("1")]);
    var data := [Array([segment]), Null, String("en")];
    FragmentsSingleton(segment);
    assert ["привет"][1..] == [];
    assert Join(["привет"]) == "привет";
    assert Extraction(data) == "привет";
    assert UnmarshalSlice(env.decode(body)) == Success(data);
  }

  // ---------------------------------------------------------------------------
  // Supported languages
  // ---------------------------------------------------------------------------

  /** `GetSupportedLanguages`: the fixed list of language codes, which includes
      the command line's default source and target languages. */
  function SupportedLanguages(): (langs: seq<string>)
    ensures |langs| == 109 && "" !in langs
    ensures "en" in langs && "ru" in langs && "ja" in langs
  {
    var line1 := ["af", "sq", "am", "ar", "hy", "az", "eu", "be", "bn", "bs", "bg", "ca", "ceb", "zh-CN", "zh-TW"];
    var line2 := ["co", "hr", "cs", "da", "nl", "en", "eo", "et", "fi", "fr", "fy", "gl", "ka", "de", "el", "gu"];
    var line3 := ["ht", "ha", "haw", "he", "hi", "hmn", "hu", "is", "ig", "id", "ga", "it", "ja", "jv", "kn", "kk"];
    var line4 := ["km", "rw", "ko", "ku", "ky", "lo", "la", "lv", "lt", "lb", "mk", "mg", "ms", "ml", "mt", "mi"];
    var line5 := ["mr", "mn", "my", "ne", "no", "ny", "or", "ps", "fa", "pl", "pt", "pa", "ro", "ru", "sm", "gd"];
    var line6 := ["sr", "st", "sn", "sd", "si", "sk", "sl", "so", "es", "su", "sw", "sv", "tl", "tg", "ta", "tt"];
    var line7 := ["te", "th", "tr", "tk", "uk", "ur", "ug", "uz", "vi", "cy", "xh", "yi", "yo", "zu"];
    assert |line1| == 15 && "" !in line1;
    assert |line2| == 16 && "" !in line2;
    assert |line3| == 16 && "" !in line3;
    assert |line4| == 16 && "" !in line4;
    assert |line5| == 16 && "" !in line5;
    assert |line6| == 16 && "" !in line6;
    assert |line7| == 14 && "" !in line7;
    line1 + line2 + line3 + line4 + line5 + line6 + line7
  }
}
