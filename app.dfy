/** The browser helper `v2/.example/public/assets/app.js`: normalising AJAX
    failures and response bodies, checking a request's method and body,
    looking up a named route and filling its path pattern. JavaScript values
    are modelled by what these functions read of them: a value that may be
    `null` or `undefined` is an `Option`. */
module AppAssets {
  import opened Wrappers
  import opened Strings

  // ---------------------------------------------------------------------------
  // Normalising failures and bodies

  /** What the AJAX layer rejects with: an `Error` thrown on the way, or a
      transport failure with its status, the `errors` list of its JSON body
      when that is an array, and its status text. */
  datatype AjaxFailure =
    | Thrown(message: string)
    | Transport(status: Option<int>, errors: Option<seq<Option<string>>>, statusText: Option<string>)

  /** A rejected request as the callers see it; `statusCode` is absent on an
      `Error` passed through. */
  datatype NormalizedError = NormalizedError(message: string, statusCode: Option<int>)

  const RequestFailed := "request failed"

  /** `toNormalizedAjaxError` (lines 7-25). */
  function NormalizedAjaxError(failure: AjaxFailure): (r: NormalizedError)
    ensures failure.Thrown? ==> r == NormalizedError(failure.message, None)
    ensures failure.Transport? ==> r.statusCode == Some(failure.status.GetOr(0))
  {
    match failure
    case Thrown(message) => NormalizedError(message, None)
    case Transport(status, errors, statusText) =>
      var errorList := errors.GetOr([]);
      var firstError := if 0 < |errorList| then TrimSpace(errorList[0].GetOr("")) else "";
      var fallbackMessage := TrimSpace(statusText.GetOr(RequestFailed));
      NormalizedError(if firstError == "" then fallbackMessage else firstError, Some(status.GetOr(0)))
  }

  /** The message of a transport failure is its first error, trimmed, when
      that is not blank, and otherwise its trimmed status text, or "request
      failed" without one. */
  lemma TransportMessage(status: Option<int>, errors: Option<seq<Option<string>>>, statusText: Option<string>)
    ensures var r := NormalizedAjaxError(Transport(status, errors, statusText));
      (errors.Some? && 0 < |errors.value| && TrimSpace(errors.value[0].GetOr("")) != "" ==>
        r.message == TrimSpace(errors.value[0].GetOr("")))
      && (!(errors.Some? && 0 < |errors.value| && TrimSpace(errors.value[0].GetOr("")) != "") ==>
        r.message == TrimSpace(statusText.GetOr(RequestFailed)))
      && (statusText.None? ==> r.message != "")
      && Trimmed(r.message)
  {
    assert TrimSpace(RequestFailed) == RequestFailed by {
      TrimSpaceOfTrimmed(RequestFailed);
    }
  }

  /** The `success` field of a response body, by JavaScript type. */
  datatype Scalar = Boolean(b: bool) | Text(s: string) | Number(n: int)

  /** A response body: its `success` field and its `errors` list, when present. */
  datatype Body = Body(success: Option<Scalar>, errors: Option<seq<Option<string>>>)

  /** `normalizeSuccessBodyOrThrow` (lines 27-34): the body when `success`
      is exactly `true`, else the message it is rejected with. */
  function SuccessBody(body: Option<Body>): (r: Result<Body, string>)
    ensures r.Ok? <==> body.Some? && body.value.success == Some(Boolean(true))
    ensures r.Ok? ==> r.value == body.value
  {
    if body.Some? && body.value.success == Some(Boolean(true)) then Ok(body.value)
    else
      var errors := if body.Some? then body.value.errors.GetOr([]) else [];
      Err(if 0 < |errors| && errors[0].Some? then errors[0].value else RequestFailed)
  }

  /** A rejected body throws its first error, or "request failed" when it
      has none; a truthy `success` other than `true` is still rejected. */
  lemma SuccessBodyRejects(body: Option<Body>)
    ensures SuccessBody(body).Err? ==>
      SuccessBody(body).error ==
        if body.Some? && body.value.errors.Some? && 0 < |body.value.errors.value| && body.value.errors.value[0].Some?
        then body.value.errors.value[0].value else RequestFailed
    ensures SuccessBody(Some(Body(Some(Text("true")), None))) == Err(RequestFailed)
    ensures SuccessBody(Some(Body(Some(Number(1)), None))) == Err(RequestFailed)
  {
  }

  // ---------------------------------------------------------------------------
  // The request options of `requestJson`

  /** The options handed to the AJAX layer: `body` is the JSON text sent, and
      a body comes with the JSON content type. */
  datatype RequestOptions = RequestOptions(url: string, requestMethod: string, hasContentType: bool, body: Option<string>)

  const InvalidMethod := "invalid http method"

  /** Lines 94-117: the method is trimmed and upper-cased and may not be
      blank; the data, given as its JSON text, is sent exactly when it is
      present and the method is neither GET nor HEAD. */
  function RequestJsonOptions(requestMethod: Option<string>, url: string, data: Option<string>): (r: Result<RequestOptions, string>)
    ensures r.Err? <==> TrimSpace(requestMethod.GetOr("")) == ""
    ensures r.Err? ==> r.error == InvalidMethod
    ensures r.Ok? ==> r.value.url == url && r.value.requestMethod == ToUpper(TrimSpace(requestMethod.GetOr("")))
    ensures r.Ok? ==> r.value.hasContentType == r.value.body.Some?
    ensures r.Ok? ==> (r.value.body.Some? <==> data.Some? && r.value.requestMethod != "GET" && r.value.requestMethod != "HEAD")
    ensures r.Ok? && r.value.body.Some? ==> r.value.body == data
  {
    var safeMethod := ToUpper(TrimSpace(requestMethod.GetOr("")));
    if safeMethod == "" then Err(InvalidMethod)
    else
      var hasBody := data.Some? && safeMethod != "GET" && safeMethod != "HEAD";
      Ok(RequestOptions(url, safeMethod, hasBody, if hasBody then data else None))
  }

  // ---------------------------------------------------------------------------
  // Routes

  /** An entry of `window.melodyRoutes`. */
  datatype RouteDefinition = RouteDefinition(name: Option<string>, pattern: Option<string>)

  /** A route found by name: the trimmed name asked for and the trimmed pattern. */
  datatype Route = Route(name: string, pattern: string)

  function DefinitionName(definition: RouteDefinition): string {
    TrimSpace(definition.name.GetOr(""))
  }

  /** The first definition from `i` on whose trimmed name is `name`, or the length. */
  function FirstNamed(definitions: seq<RouteDefinition>, name: string, i: nat): (r: nat)
    requires i <= |definitions|
    ensures i <= r <= |definitions|
    ensures r < |definitions| ==> DefinitionName(definitions[r]) == name
    ensures forall k :: i <= k < r ==> DefinitionName(definitions[k]) != name
    decreases |definitions| - i
  {
    if i == |definitions| then i
    else if DefinitionName(definitions[i]) == name then i
    else FirstNamed(definitions, name, i + 1)
  }

  /** `routeDefinitionByName` over the given route list (lines 151-169). */
  function RouteByName(routeName: Option<string>, definitions: seq<RouteDefinition>): (r: Option<Route>)
    ensures TrimSpace(routeName.GetOr("")) == "" ==> r.None?
    ensures r.Some? ==> r.value.name == TrimSpace(routeName.GetOr("")) && Trimmed(r.value.pattern)
  {
    var safeName := TrimSpace(routeName.GetOr(""));
    if safeName == "" then None
    else
      var k := FirstNamed(definitions, safeName, 0);
      if k == |definitions| then None
      else Some(Route(safeName, TrimSpace(definitions[k].pattern.GetOr(""))))
  }

  /** A blank name finds nothing; otherwise the first definition whose
      trimmed name equals the trimmed name wins, and none matching gives
      nothing. */
  lemma RouteByNameShape(routeName: Option<string>, definitions: seq<RouteDefinition>)
    ensures TrimSpace(routeName.GetOr("")) == "" ==> RouteByName(routeName, definitions).None?
    ensures RouteByName(routeName, definitions).None? && TrimSpace(routeName.GetOr("")) != "" ==>
      forall k :: 0 <= k < |definitions| ==> DefinitionName(definitions[k]) != TrimSpace(routeName.GetOr(""))
    ensures RouteByName(routeName, definitions).Some? ==>
      exists k :: 0 <= k < |definitions|
        && DefinitionName(definitions[k]) == TrimSpace(routeName.GetOr(""))
        && (forall j :: 0 <= j < k ==> DefinitionName(definitions[j]) != DefinitionName(definitions[k]))
        && RouteByName(routeName, definitions) == Some(Route(DefinitionName(definitions[k]), TrimSpace(definitions[k].pattern.GetOr(""))))
  {
    var safeName := TrimSpace(routeName.GetOr(""));
    if safeName != "" {
      var k := FirstNamed(definitions, safeName, 0);
      if k < |definitions| {
        assert DefinitionName(definitions[k]) == safeName;
      }
    }
  }

  /** The search loop of `routeDefinitionByName`. */
  method RouteDefinitionByName(routeName: Option<string>, definitions: seq<RouteDefinition>) returns (r: Option<Route>)
    ensures r == RouteByName(routeName, definitions)
  {
    var safeName := TrimSpace(routeName.GetOr(""));
    if safeName == "" {
      return None;
    }
    for k := 0 to |definitions|
      invariant FirstNamed(definitions, safeName, 0) == FirstNamed(definitions, safeName, k)
    {
      if safeName == DefinitionName(definitions[k]) {
        return Some(Route(safeName, TrimSpace(definitions[k].pattern.GetOr(""))));
      }
    }
    return None;
  }

  // ---------------------------------------------------------------------------
  // `encodeURIComponent`

  /** The characters `encodeURIComponent` leaves alone. */
  predicate Unreserved(c: char) {
    ('A' <= c <= 'Z') || ('a' <= c <= 'z') || ('0' <= c <= '9')
    || c == '-' || c == '_' || c == '.' || c == '!' || c == '~' || c == '*' || c == '\'' || c == '(' || c == ')'
  }

  /** The value of an upper-case hex digit. */
  function HexValue(c: char): int {
    if '0' <= c <= '9' then c as int - '0' as int
    else if 'A' <= c <= 'F' then c as int - 'A' as int + 10
    else -1
  }

  function HexDigit(d: int): (c: char)
    requires 0 <= d < 16
    ensures ('0' <= c <= '9') || ('A' <= c <= 'F')
    ensures HexValue(c) == d
  {
    if d < 10 then ('0' as int + d) as char else ('A' as int + d - 10) as char
  }

  /** The code point a well-formed one- to four-byte UTF-8 sequence stands for. */
  function Utf8Value(r: seq<int>): int
    requires 1 <= |r| <= 4
  {
    if |r| == 1 then r[0]
    else if |r| == 2 then (r[0] - 0xC0) * 64 + (r[1] - 0x80)
    else if |r| == 3 then (r[0] - 0xE0) * 4096 + (r[1] - 0x80) * 64 + (r[2] - 0x80)
    else (r[0] - 0xF0) * 262144 + (r[1] - 0x80) * 4096 + (r[2] - 0x80) * 64 + (r[3] - 0x80)
  }

  /** The leading byte of an n-byte UTF-8 sequence. */
  predicate Utf8Lead(b: int, n: int) {
    if n == 1 then 0 <= b < 0x80
    else if n == 2 then 0xC2 <= b < 0xE0
    else if n == 3 then 0xE0 <= b < 0xF0
    else 0xF0 <= b < 0xF5
  }

  /** The UTF-8 bytes of a character. */
  function Utf8(c: char): (r: seq<int>)
    ensures 1 <= |r| <= 4
    ensures forall k :: 0 <= k < |r| ==> 0 <= r[k] < 256
  {
    var n := c as int;
    if n < 0x80 then [n]
    else if n < 0x800 then [0xC0 + n / 64, 0x80 + n % 64]
    else if n < 0x10000 then [0xE0 + n / 4096, 0x80 + n / 64 % 64, 0x80 + n % 64]
    else [0xF0 + n / 262144, 0x80 + n / 4096 % 64, 0x80 + n / 64 % 64, 0x80 + n % 64]
  }

  /** The bytes are the shortest UTF-8 sequence for the code point: the leading
      byte announces the length, the others are continuation bytes
      `10xxxxxx`, and together they decode back to the code point. */
  lemma Utf8Decodes(c: char)
    ensures var r := Utf8(c);
      && Utf8Lead(r[0], |r|)
      && (forall k :: 1 <= k < |r| ==> 0x80 <= r[k] < 0xC0)
      && (|r| == 1 <==> c as int < 0x80)
      && (|r| == 2 <==> 0x80 <= c as int < 0x800)
      && (|r| == 3 <==> 0x800 <= c as int < 0x10000)
      && Utf8Value(r) == c as int
  {
    var n := c as int;
    var q := n / 64;
    assert n == q * 64 + n % 64;
    if 0x800 <= n {
      assert q == (n / 4096) * 64 + q % 64 by { assert q / 64 == n / 4096; }
      if 0x10000 <= n {
        var q2 := n / 4096;
        assert q2 == (n / 262144) * 64 + q2 % 64 by { assert q2 / 64 == n / 262144; }
        assert n < 0x110000;
      }
    }
  }

  /** `%XY` for each byte, with upper-case hex digits. */
  function PercentBytes(bytes: seq<int>): (r: string)
    requires forall k :: 0 <= k < |bytes| ==> 0 <= bytes[k] < 256
    ensures |r| == 3 * |bytes|
    decreases |bytes|
  {
    if bytes == [] then ""
    else ['%', HexDigit(bytes[0] / 16), HexDigit(bytes[0] % 16)] + PercentBytes(bytes[1..])
  }

  /** Reading `%XY` triples back as bytes (`decodeURIComponent` on escapes). */
  function PercentDecoded(s: string): seq<int>
    decreases |s|
  {
    if |s| < 3 || s[0] != '%' then []
    else [HexValue(s[1]) * 16 + HexValue(s[2])] + PercentDecoded(s[3..])
  }

  /** Every escape starts with `%` and reads back as the byte it came from. */
  lemma {:induction false} PercentBytesDecode(bytes: seq<int>)
    requires forall k :: 0 <= k < |bytes| ==> 0 <= bytes[k] < 256
    ensures PercentDecoded(PercentBytes(bytes)) == bytes
    ensures forall k :: 0 <= k < |bytes| ==> PercentBytes(bytes)[3 * k] == '%'
    decreases |bytes|
  {
    if bytes != [] {
      var r := PercentBytes(bytes);
      var rest := PercentBytes(bytes[1..]);
      PercentBytesDecode(bytes[1..]);
      assert r[3..] == rest;
      assert HexValue(r[1]) * 16 + HexValue(r[2]) == bytes[0];
      assert [bytes[0]] + bytes[1..] == bytes;
      forall k | 0 <= k < |bytes| ensures r[3 * k] == '%' {
        if k > 0 {
          assert r[3 * k] == rest[3 * (k - 1)];
        }
      }
    }
  }

  function EncodeChar(c: char): string {
    if Unreserved(c) then [c] else PercentBytes(Utf8(c))
  }

  /** `encodeURIComponent` on a string of Unicode scalar values. */
  function EncodeUriComponent(s: string): (r: string)
    ensures |s| <= |r| <= 12 * |s|
    decreases |s|
  {
    if s == [] then "" else EncodeChar(s[0]) + EncodeUriComponent(s[1..])
  }

  /** What an encoding may hold: unreserved characters, `%` and upper-case hex digits. */
  predicate EncodedChar(c: char) {
    Unreserved(c) || c == '%'
  }

  lemma {:induction false} PercentBytesChars(bytes: seq<int>)
    requires forall k :: 0 <= k < |bytes| ==> 0 <= bytes[k] < 256
    ensures forall k :: 0 <= k < |PercentBytes(bytes)| ==> EncodedChar(PercentBytes(bytes)[k])
    decreases |bytes|
  {
    if bytes != [] {
      PercentBytesChars(bytes[1..]);
    }
  }

  lemma {:induction false} EncodedChars(s: string)
    ensures forall k :: 0 <= k < |EncodeUriComponent(s)| ==> EncodedChar(EncodeUriComponent(s)[k])
    decreases |s|
  {
    if s != [] {
      EncodedChars(s[1..]);
      var head := EncodeChar(s[0]);
      var tail := EncodeUriComponent(s[1..]);
      if !Unreserved(s[0]) {
        PercentBytesChars(Utf8(s[0]));
      }
      assert forall k :: 0 <= k < |head| ==> EncodedChar(head[k]);
      var r := head + tail;
      forall k | 0 <= k < |r| ensures EncodedChar(r[k]) {
        if k >= |head| {
          assert r[k] == tail[k - |head|];
        }
      }
    }
  }

  lemma {:induction false} EncodedUnreservedUnchanged(s: string)
    requires forall k :: 0 <= k < |s| ==> Unreserved(s[k])
    ensures EncodeUriComponent(s) == s
    decreases |s|
  {
    if s != [] {
      EncodedUnreservedUnchanged(s[1..]);
      assert [s[0]] + s[1..] == s;
    }
  }

  /** The encoding holds only unreserved characters and `%` (hex digits are
      unreserved), so in particular no `:`, and it leaves a string of
      unreserved characters as it is. */
  lemma EncodeUriComponentShape(s: string)
    ensures forall k :: 0 <= k < |EncodeUriComponent(s)| ==> EncodedChar(EncodeUriComponent(s)[k])
    ensures ':' !in EncodeUriComponent(s)
    ensures (forall k :: 0 <= k < |s| ==> Unreserved(s[k])) ==> EncodeUriComponent(s) == s
  {
    EncodedChars(s);
    if forall k :: 0 <= k < |s| ==> Unreserved(s[k]) {
      EncodedUnreservedUnchanged(s);
    }
  }

  /** A character outside the unreserved set becomes one to four `%XY`
      triples, one per UTF-8 byte. */
  lemma EncodeCharLength(c: char)
    ensures Unreserved(c) ==> EncodeChar(c) == [c]
    ensures !Unreserved(c) ==> |EncodeChar(c)| == 3 * |Utf8(c)| && EncodeChar(c)[0] == '%'
  {
  }

  // ---------------------------------------------------------------------------
  // Paths

  /** The path after one parameter (lines 181-191): a blank key changes
      nothing; otherwise every `:key` is replaced by the encoded trimmed value. */
  function Substituted(path: string, key: string, value: string): string {
    var safeKey := TrimSpace(key);
    if safeKey == "" then path
    else ReplaceAll(path, [':'] + safeKey, EncodeUriComponent(TrimSpace(value)))
  }

  /** The parameters applied one after another, in key order. */
  function SubstitutedAll(path: string, parameters: seq<(string, string)>): string
    decreases |parameters|
  {
    if parameters == [] then path
    else
      var n := |parameters| - 1;
      Substituted(SubstitutedAll(path, parameters[..n]), parameters[n].0, parameters[n].1)
  }

  /** `generatePathFromPattern` (lines 171-194). */
  function PathFromPattern(pattern: Option<string>, parameters: seq<(string, string)>): (r: string)
    ensures TrimSpace(pattern.GetOr("")) == "" ==> r == ""
    ensures ':' !in TrimSpace(pattern.GetOr("")) ==> r == TrimSpace(pattern.GetOr(""))
  {
    var safePattern := TrimSpace(pattern.GetOr(""));
    if safePattern == "" then ""
    else
      assert ':' !in safePattern ==> SubstitutedAll(safePattern, parameters) == safePattern by {
        if ':' !in safePattern {
          NoPlaceholderUnchanged(safePattern, parameters);
        }
      }
      SubstitutedAll(safePattern, parameters)
  }

  /** A replacement whose value holds no `:` cannot add one, so a path with
      no `:` has no placeholder and no parameter changes it. */
  lemma {:induction false} ReplaceAllKeepsColonFree(s: string, token: string, value: string)
    requires token != [] && token[0] == ':' && ':' !in s
    ensures ReplaceAll(s, token, value) == s
  {
    assert !Contains(s, token) by {
      forall i | 0 <= i && i + |token| <= |s| ensures !OccursAt(s, token, i) {
        assert s[i..i + |token|][0] == s[i];
      }
    }
    ReplaceAllAbsent(s, token, value);
  }

  lemma {:induction false} NoPlaceholderUnchanged(path: string, parameters: seq<(string, string)>)
    requires ':' !in path
    ensures SubstitutedAll(path, parameters) == path
    decreases |parameters|
  {
    if parameters != [] {
      var n := |parameters| - 1;
      NoPlaceholderUnchanged(path, parameters[..n]);
      var key := TrimSpace(parameters[n].0);
      if key != "" {
        ReplaceAllKeepsColonFree(path, [':'] + key, EncodeUriComponent(TrimSpace(parameters[n].1)));
      }
    }
  }

  /** Blank keys are skipped, and a pattern that is just one placeholder
      becomes the encoded trimmed value. */
  lemma SubstitutedCases(path: string, key: string, value: string)
    ensures TrimSpace(key) == "" ==> Substituted(path, key, value) == path
    ensures TrimSpace(key) != "" && path == [':'] + TrimSpace(key) ==>
      Substituted(path, key, value) == EncodeUriComponent(TrimSpace(value))
  {
    if TrimSpace(key) != "" && path == [':'] + TrimSpace(key) {
      ReplaceAllToken(path, EncodeUriComponent(TrimSpace(value)), "");
      assert path + "" == path;
    }
  }

  /** Text without `:` in front of the rest is kept as it is, because no
      placeholder can start inside it. */
  lemma {:induction false} ReplaceAllColonFreePrefix(x: string, rest: string, token: string, value: string)
    requires token != [] && token[0] == ':' && ':' !in x
    ensures ReplaceAll(x + rest, token, value) == x + ReplaceAll(rest, token, value)
    decreases |x|
  {
    if x == [] {
      assert x + rest == rest;
    } else {
      var s := x + rest;
      assert s[1..] == x[1..] + rest;
      ReplaceAllColonFreePrefix(x[1..], rest, token, value);
      if |s| < |token| {
        ReplaceAllShort(rest, token, value);
      } else {
        assert s[0] != token[0];
        assert !(token <= s);
        calc {
          ReplaceAll(s, token, value);
          [s[0]] + ReplaceAll(s[1..], token, value);
          [x[0]] + (x[1..] + ReplaceAll(rest, token, value));
          { assert [x[0]] + x[1..] == x; }
          x + ReplaceAll(rest, token, value);
        }
      }
    }
  }

  lemma ReplaceAllShort(s: string, token: string, value: string)
    requires token != [] && |s| < |token|
    ensures ReplaceAll(s, token, value) == s
  {
  }

  /** Replacing the token in colon-free pieces joined by it gives the pieces
      joined by the value. */
  lemma {:induction false} ReplaceAllJoined(ps: seq<string>, token: string, value: string)
    requires |ps| >= 1 && token != [] && token[0] == ':'
    requires forall k :: 0 <= k < |ps| ==> ':' !in ps[k]
    ensures ReplaceAll(Join(ps, token), token, value) == Join(ps, value)
    decreases |ps|
  {
    if |ps| == 1 {
      ReplaceAllKeepsColonFree(ps[0], token, value);
    } else {
      ReplaceAllJoined(ps[1..], token, value);
      ReplaceAllToken(token, value, Join(ps[1..], token));
      assert ps[0] + token + Join(ps[1..], token) == ps[0] + (token + Join(ps[1..], token));
      ReplaceAllColonFreePrefix(ps[0], token + Join(ps[1..], token), token, value);
    }
  }

  /** Every `:key` of a pattern is replaced, wherever it stands: a pattern
      made of colon-free pieces around the placeholders becomes those pieces
      around the encoded trimmed value. */
  lemma SubstitutedEveryPlaceholder(ps: seq<string>, key: string, value: string)
    requires |ps| >= 1 && TrimSpace(key) != ""
    requires forall k :: 0 <= k < |ps| ==> ':' !in ps[k]
    ensures Substituted(Join(ps, [':'] + TrimSpace(key)), key, value) == Join(ps, EncodeUriComponent(TrimSpace(value)))
  {
    ReplaceAllJoined(ps, [':'] + TrimSpace(key), EncodeUriComponent(TrimSpace(value)));
  }

  /** The replacement is textual, as with `split`/`join`: the key `id` also
      rewrites the head of a longer placeholder `:idx`. */
  lemma PlaceholderPrefixRewritten()
    ensures Substituted("/users/:idx", "id", "7") == "/users/7x"
  {
    var key, value := "id", "7";
    assert Trimmed(key) && Trimmed(value);
    TrimSpaceOfTrimmed(key);
    TrimSpaceOfTrimmed(value);
    EncodeUriComponentShape(value);
    var ps := ["/users/", "x"];
    assert Join(ps, [':'] + key) == "/users/:idx" by {
      assert Join(ps[1..], [':'] + key) == "x";
    }
    assert Join(ps, value) == "/users/7x" by {
      assert Join(ps[1..], value) == "x";
    }
    SubstitutedEveryPlaceholder(ps, key, value);
  }

  /** The loop of `generatePathFromPattern`, over the parameters in
      `Object.keys` order. */
  method GeneratePathFromPattern(pattern: Option<string>, parameters: seq<(string, string)>) returns (path: string)
    ensures path == PathFromPattern(pattern, parameters)
  {
    var safePattern := TrimSpace(pattern.GetOr(""));
    if safePattern == "" {
      return "";
    }
    path := safePattern;
    for k := 0 to |parameters|
      invariant path == SubstitutedAll(safePattern, parameters[..k])
    {
      assert parameters[..k + 1][..k] == parameters[..k];
      var safeKey := TrimSpace(parameters[k].0);
      if safeKey == "" {
        continue;
      }
      var token := [':'] + safeKey;
      var value := EncodeUriComponent(TrimSpace(parameters[k].1));
      path := ReplaceAll(path, token, value);
    }
    assert parameters[..|parameters|] == parameters;
  }

  /** Why `route` throws. */
  datatype RouteError = UnknownRoute(routeName: string) | InvalidRoutePattern(pattern: string)

  /** `route` (lines 196-208). The unknown-route message names the route as
      given, untrimmed. */
  function RoutePath(routeName: Option<string>, parameters: seq<(string, string)>, definitions: seq<RouteDefinition>): (r: Result<string, RouteError>)
    ensures r.Ok? ==> r.value != ""
    ensures RouteByName(routeName, definitions).None? ==> r == Err(UnknownRoute(routeName.GetOr("")))
  {
    match RouteByName(routeName, definitions)
    case None => Err(UnknownRoute(routeName.GetOr("")))
    case Some(definition) =>
      var path := PathFromPattern(Some(definition.pattern), parameters);
      if path == "" then Err(InvalidRoutePattern(definition.pattern)) else Ok(path)
  }

  /** `route` returns a non-empty path exactly when the name is found and its
      pattern fills to a non-empty path; a blank pattern always throws. */
  lemma RoutePathShape(routeName: Option<string>, parameters: seq<(string, string)>, definitions: seq<RouteDefinition>)
    ensures RoutePath(routeName, parameters, definitions).Ok? ==> RoutePath(routeName, parameters, definitions).value != ""
    ensures RouteByName(routeName, definitions).None? <==> RoutePath(routeName, parameters, definitions) == Err(UnknownRoute(routeName.GetOr("")))
    ensures RouteByName(routeName, definitions).Some? && RouteByName(routeName, definitions).value.pattern == "" ==>
      RoutePath(routeName, parameters, definitions) == Err(InvalidRoutePattern(""))
  {
    if RouteByName(routeName, definitions).Some? && RouteByName(routeName, definitions).value.pattern == "" {
      assert TrimSpace("") == "";
    }
  }

  /** A found route whose pattern has no placeholder yields the pattern as it is. */
  lemma StaticRoute(routeName: Option<string>, parameters: seq<(string, string)>, definitions: seq<RouteDefinition>)
    requires RouteByName(routeName, definitions).Some?
    requires var p := RouteByName(routeName, definitions).value.pattern; p != "" && ':' !in p
    ensures RoutePath(routeName, parameters, definitions) == Ok(RouteByName(routeName, definitions).value.pattern)
  {
    var p := RouteByName(routeName, definitions).value.pattern;
    RouteByNameShape(routeName, definitions);
    var k :| 0 <= k < |definitions| && RouteByName(routeName, definitions) == Some(Route(DefinitionName(definitions[k]), TrimSpace(definitions[k].pattern.GetOr(""))));
    TrimmedTrimSpace(definitions[k].pattern.GetOr(""));
    NoPlaceholderUnchanged(p, parameters);
  }

  lemma TrimmedTrimSpace(s: string)
    ensures TrimSpace(TrimSpace(s)) == TrimSpace(s)
  {
    TrimSpaceOfTrimmed(TrimSpace(s));
  }
}
