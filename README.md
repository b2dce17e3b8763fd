# go-translator-cli: a Dafny model of the translation client

The tool sends a piece of text to Google Translate's public `translate_a/single`
endpoint and prints the translated text. This project models the tool's
translation client (`translator/translate.go`) and proves properties of the
model. The client has three parts:

- **The query.** `Translate` adds five query parameters to a `url.Values`:
  `client=gtx`, `sl=<from>`, `tl=<to>`, `dt=t` and `q=<text>`.
- **The guard chain.** `Translate` runs one request through a straight line of
  guards, and the first one that fails decides the error:
  1. empty text
  2. building the request
  3. the transport
  4. a non-200 status
  5. reading the body
  6. decoding the JSON into a `[]interface{}`
  7. an empty extraction

  If every guard passes, the result is the extracted text.
- **The extraction.** `extractTranslation` works on the decoded, dynamically
  typed JSON tree:
  - It rejects a bad top level with `""`: an empty list, or an element 0 that
    is not a list.
  - It skips each segment entry that is not a non-empty list whose element 0
    is a string.
  - It joins the element-0 strings of the remaining entries, in order, with no
    separator.

Files:

- `wrappers.dfy` (module `Wrappers`): `Option` and `Result`.
- `json.dfy` (module `Json`) has these parts:
  - the JSON value, with the value kinds of section 3 of RFC 8259 (numbers
    are opaque tokens);
  - the decoder's outcome: a decoded value, or a decoding failure. A decoding
    failure is any `json.Unmarshal` failure other than the top-level type
    check: malformed JSON, or a number anywhere in the body that is out of the
    range of a `float64` (for example `[[["a"]],1e400]`);
  - `UnmarshalSlice`, the one decoding step the client depends on: unmarshal
    into a `[]interface{}`. A decoding failure is passed on. An array gives
    its elements. `null` gives an empty slice. Any other value is an error.
- `translate.dfy` (module `Translator`) has these parts:
  - the query parameters;
  - the extraction, as the specification function `Extraction` and the
    imperative `ExtractTranslation` loop proved equal to it;
  - the guard chain `Translate`, over an abstract `Environment`;
  - the fixed list returned by `GetSupportedLanguages`;
  - the lemmas.

The model leaves out the network and the JSON decoder. Instead, an
`Environment` value supplies three functions:

- `newRequest`: whether `http.NewRequest` fails for the request's parameters.
- `send`: either a transport failure, or a status with the body as read. The
  read body holds the bytes obtained and an optional read error.
- `decode`: what the JSON decoder makes of a body.

"Nothing later is consulted" is therefore stated as the result being the same
for every choice of the later functions.

Some details the model keeps from the code:

- In the non-200 branch the code ignores `ReadAll`'s error and reports
  whatever bytes were read. In the 200 branch a read error is its own failure.
- The decoding target is a slice. A well-formed body whose top level is an
  object, string, number or boolean is therefore a *parse* error. A top-level
  `null` decodes to an empty slice, reaches extraction, and fails there as an
  *extraction* error.

## Model

| member | source | states |
|---|---|---|
| `Translator.QueryParamsExact` | translator/translate.go:23-28 | the request's parameters are exactly client=[gtx], sl=[from], tl=[to], dt=[t], q=[text]: five keys, one value each |
| `Translator.ExtractTranslation` | translator/translate.go:85-119 | the loop that collects the fragments and joins them returns exactly `Extraction(data)` on every input |
| `Translator.RejectedTopLevel` | translator/translate.go:86-94 | an empty top level, or a top-level element 0 that is not a list, extracts to "" |
| `Translator.FragmentsAppend` | translator/translate.go:99-116 | the fragments collected from a concatenation of entry lists are the first list's fragments followed by the second's, so they are collected in entry order |
| `Translator.FragmentsSingleton` | translator/translate.go:100-115 | one entry adds its element-0 string when it is a non-empty list whose element 0 is a string, and nothing otherwise |
| `Translator.FragmentsAround` | translator/translate.go:99-116 | the fragments of an entry list are those before entry i, then entry i's own, then those after it |
| `Translator.SkippedSegment` | translator/translate.go:100-113 | removing a skipped entry (not a list, an empty list, or element 0 not a string) leaves the fragments unchanged, so later entries still contribute |
| `Translator.KeptSegment` | translator/translate.go:110-115 | a qualifying entry's string appears exactly after all fragments of earlier entries and before all fragments of later ones |
| `Translator.FragmentsMembership` | translator/translate.go:99-116 | a string is among the collected fragments if and only if some entry qualifies with that string as its element 0 |
| `Translator.JoinAppend` | translator/translate.go:118 | joining with no separator turns list concatenation into string concatenation |
| `Translator.JoinEmptyIff` | translator/translate.go:118 | the joined string is empty if and only if every part is empty |
| `Translator.ExtractionEmptyIff` | translator/translate.go:85-118 | extraction yields "" if and only if the top level is empty, its element 0 is not a list, or no entry qualifies with a non-empty string |
| `Translator.ExtractionTwoSegments` | translator/translate.go:99-118 | `[[[x,…],3,[y,…]]]` extracts to x+y whatever metadata follows x and y: the bare number is skipped, the later entry still counts, and there is no separator |
| `Translator.Translate` | translator/translate.go:14-82 | empty text fails with EmptyText whatever the environment, and a success never carries an empty string |
| `Translator.EmptyTextConsultsNothing` | translator/translate.go:15-17 | for empty text the result is EmptyText in every environment, so nothing is built, sent or decoded |
| `Translator.RequestFailureShortCircuits` | translator/translate.go:38-42 | a failed request construction is a RequestError with its cause, and the result does not depend on the transport or the decoder |
| `Translator.TransportFailureShortCircuits` | translator/translate.go:49-52 | a transport failure is a NetworkError with its cause, and the result does not depend on the decoder |
| `Translator.NonOkStatusNeverDecoded` | translator/translate.go:56-59 | a non-200 response is a StatusError with that status and the body bytes read, and the result does not depend on the decoder |
| `Translator.ReadFailureShortCircuits` | translator/translate.go:62-65 | a 200 response whose body read fails is a ReadError with its cause, and the result does not depend on the decoder |
| `Translator.DecodeErrorIsParseError` | translator/translate.go:67-72 | a body the decoder rejects (malformed JSON, or a number out of float64 range) is a ParseError with the decoder's message and the body |
| `Translator.NonArrayTopLevelIsParseError` | translator/translate.go:67-72 | a well-formed body whose top level is neither an array nor null is a ParseError with the body, not an extraction error |
| `Translator.NullTopLevelIsExtractionError` | translator/translate.go:67-79 | a top-level null reaches extraction as an empty slice and fails as ExtractionError with the body |
| `Translator.NoFragmentIsExtractionError` | translator/translate.go:76-79 | a response that decodes to an array with an empty top level, a non-list element 0, or no entry qualifying with a non-empty string is an ExtractionError with the body, never an empty success |
| `Translator.TranslateSucceedsIff` | translator/translate.go:14-81 | the result is Success(out) if and only if every guard before decoding passes, the body unmarshals into a slice, and out is that slice's extraction and is non-empty |
| `Translator.TranslateExample` | translator/translate.go:14-81 | "hello" from en to ru, answered by `[[["привет","hello",null,null,1]],null,"en"]`, yields Success("привет") |
| `Json.UnmarshalSlice` | translator/translate.go:67-72 | unmarshalling into a slice succeeds only for a well-formed array (its elements) or null (the empty slice) |
| `Translator.SupportedLanguages` | translator/translate.go:121-131 | the fixed list has 109 codes, none of them empty, including "en", "ru" and "ja" (the command line's defaults are en and ru) |

## Left out

- The HTTP client is not modelled: the 10-second timeout, the `User-Agent` and
  `Accept` headers, `client.Do`, `ioutil.ReadAll` and `resp.Body.Close`. These
  are network I/O. The environment's `newRequest` and `send` stand for them,
  and they receive the parameter map in place of the encoded URL.
- `url.Values.Encode` and its percent-encoding are not modelled. They belong
  to Go's library, whose code is not part of this model.
- The base URL `https://translate.googleapis.com/translate_a/single` is the
  source's own constant (translator/translate.go:20), but it is not modelled.
  It only enters the encoded URL (translator/translate.go:31), which the model
  does not build, because `newRequest` and `send` receive the parameter map.
- `QueryParamsExact`: does not state the order of the five `Add` calls,
  because a `url.Values` is a map and keeps no order between keys. The calls
  appear in source order in the body of `QueryParams`.
- The internals of `json.Unmarshal` are not modelled (Go's library). The
  decoder's outcome is an input. Numbers are opaque tokens, with no `float64`
  arithmetic.
- The error *messages* built with `fmt.Errorf` are not modelled. Each error is
  an error kind that carries the same diagnostic data (cause, status code,
  body bytes).
- Go strings are byte strings, but the model's strings are sequences of
  characters. Extraction only concatenates strings, so this does not change
  the result.
- The command-line layer (`cmd/translate.go`, `cmd/root.go`, `main.go`) is not
  modelled. It is cobra registration, flag defaults, printing and
  `log.Fatal`. Only the flag defaults `en` and `ru` appear, in the contract of
  `Translator.SupportedLanguages`.
