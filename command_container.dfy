/** The text helpers of the container debug command in
    `v2/debug/command_container.go`: ASCII lower-casing, substring search, the
    error-context keys that are dropped, cell truncation, fixed-width
    wrapping, the per-verbosity line limits and the service list's page
    bounds. Lengths are counted in characters. */
module CommandContainer {
  import opened Strings

  // ---------------------------------------------------------------------------
  // toLowerAscii and containsSubstring

  /** `toLowerAscii`: lowers each of `A`..`Z` in place and keeps all else. */
  method ToLowerAscii(value: string) returns (r: string)
    ensures r == ToLower(value)
  {
    if value == "" {
      return "";
    }
    var bytesValue := value;
    var index := 0;
    while index < |bytesValue|
      invariant 0 <= index <= |bytesValue| == |value|
      invariant forall k :: 0 <= k < index ==> bytesValue[k] == ToLowerChar(value[k])
      invariant forall k :: index <= k < |value| ==> bytesValue[k] == value[k]
    {
      var character := bytesValue[index];
      if 'A' <= character <= 'Z' {
        bytesValue := bytesValue[index := (character as int + 32) as char];
      }
      index := index + 1;
    }
    r := bytesValue;
  }

  /** Lower-casing changes exactly the upper-case ASCII letters, and a second
      pass changes nothing. */
  lemma ToLowerChanges(value: string)
    ensures forall k :: 0 <= k < |value| ==> (ToLower(value)[k] != value[k] <==> 'A' <= value[k] <= 'Z')
    ensures ToLower(ToLower(value)) == ToLower(value)
  {
  }

  /** `containsSubstring`: an empty needle is always found; otherwise each
      window of the needle's length is compared in turn. */
  method ContainsSubstring(value: string, needle: string) returns (r: bool)
    ensures r <==> Contains(value, needle)
  {
    if needle == "" {
      assert OccursAt(value, needle, 0);
      return true;
    }
    if value == "" || |value| < |needle| {
      return false;
    }
    r := false;
    var index := 0;
    while index <= |value| - |needle| && !r
      invariant 0 <= index <= |value| - |needle| + 1
      invariant !r ==> forall j :: 0 <= j < index ==> !OccursAt(value, needle, j)
      invariant r ==> Contains(value, needle)
      decreases |value| - index, if r then 0 else 1
    {
      if value[index..index + |needle|] == needle {
        assert OccursAt(value, needle, index);
        r := true;
      } else {
        index := index + 1;
      }
    }
  }

  // ---------------------------------------------------------------------------
  // shouldDropErrorContextKey

  /** The keys dropped from an error context: seven names by their exact
      spelling, then any whose lower-case form contains "trace" or "stack". */
  predicate DropKey(key: string) {
    key == "trace" || key == "stack" || key == "stackTrace" || key == "stacktrace"
    || key == "traceString" || key == "trace_string" || key == "panicStack"
    || Contains(ToLower(key), "trace") || Contains(ToLower(key), "stack")
  }

  /** `shouldDropErrorContextKey`. */
  method ShouldDropErrorContextKey(key: string) returns (r: bool)
    ensures r == DropKey(key)
  {
    if key == "trace" || key == "stack" || key == "stackTrace" || key == "stacktrace"
      || key == "traceString" || key == "trace_string" || key == "panicStack"
    {
      return true;
    }
    var lowerKey := ToLowerAscii(key);
    var hasTrace := ContainsSubstring(lowerKey, "trace");
    var hasStack := ContainsSubstring(lowerKey, "stack");
    r := hasTrace || hasStack;
  }

  /** A lower-case needle found in a key is found in its lower-case form. */
  lemma LowerKeepsLowerNeedle(key: string, needle: string, i: nat)
    requires OccursAt(key, needle, i)
    requires forall k :: 0 <= k < |needle| ==> !('A' <= needle[k] <= 'Z')
    ensures Contains(ToLower(key), needle)
  {
    assert OccursAt(ToLower(key), needle, i) by {
      forall k | 0 <= k < |needle|
        ensures ToLower(key)[i..i + |needle|][k] == needle[k]
      {
        assert key[i + k] == needle[k];
      }
    }
  }

  /** The seven exact names add nothing: a key is dropped exactly when its
      lower-case form contains "trace" or "stack". */
  lemma DropKeyCharacterised(key: string)
    ensures DropKey(key) <==> Contains(ToLower(key), "trace") || Contains(ToLower(key), "stack")
  {
    if key == "trace" || key == "traceString" || key == "trace_string" {
      assert key[0..5] == "trace";
      LowerKeepsLowerNeedle(key, "trace", 0);
    } else if key == "stack" || key == "stackTrace" || key == "stacktrace" {
      assert key[0..5] == "stack";
      LowerKeepsLowerNeedle(key, "stack", 0);
    } else if key == "panicStack" {
      assert ToLower(key)[5..10] == "stack";
      assert OccursAt(ToLower(key), "stack", 5);
    }
  }

  // ---------------------------------------------------------------------------
  // Error-context sanitising

  /** A decoded JSON value of an error context. */
  datatype Json = JNull | JObject(fields: map<string, Json>) | JArray(items: seq<Json>) | JScalar(text: string)

  /** `sanitizeErrorContextValue`: drops the trace keys from every object, at
      every depth. */
  function Sanitize(value: Json): (r: Json)
    ensures value.JObject? ==> r.JObject? && forall key :: key in r.fields <==> key in value.fields && !DropKey(key)
    ensures value.JArray? ==> r.JArray? && |r.items| == |value.items|
    ensures !value.JObject? && !value.JArray? ==> r == value
    decreases value
  {
    match value
    case JObject(fields) =>
      JObject(map key | key in fields && !DropKey(key) :: Sanitize(fields[key]))
    case JArray(items) =>
      JArray(seq(|items|, k requires 0 <= k < |items| => Sanitize(items[k])))
    case _ => value
  }

  /** No object anywhere in the value holds a dropped key. */
  predicate Clean(value: Json)
    decreases value
  {
    match value
    case JObject(fields) => forall key :: key in fields ==> !DropKey(key) && Clean(fields[key])
    case JArray(items) => forall k :: 0 <= k < |items| ==> Clean(items[k])
    case _ => true
  }

  /** Sanitising leaves no dropped key anywhere, and it leaves a clean value
      as it was. */
  lemma {:induction false} SanitizeCleans(value: Json)
    ensures Clean(Sanitize(value))
    ensures Clean(value) ==> Sanitize(value) == value
    decreases value
  {
    match value
    case JObject(fields) =>
      forall key | key in fields {
        SanitizeCleans(fields[key]);
      }
      if Clean(value) {
        var m := map key | key in fields && !DropKey(key) :: Sanitize(fields[key]);
        assert m == fields;
      }
    case JArray(items) =>
      forall k | 0 <= k < |items| {
        SanitizeCleans(items[k]);
      }
    case _ =>
  }

  // ---------------------------------------------------------------------------
  // Truncation

  const MaxCellLength := 220

  /** `truncateTableCellValue`. */
  function TruncateCell(value: string): (r: string)
    ensures |r| <= MaxCellLength
    ensures |value| <= MaxCellLength ==> r == value
    ensures |value| > MaxCellLength ==>
      |r| == MaxCellLength && r[..MaxCellLength - 3] == value[..MaxCellLength - 3] && r[MaxCellLength - 3..] == "..."
  {
    if |value| <= MaxCellLength then value else value[..MaxCellLength - 3] + "..."
  }

  /** `truncateTableCellValueByVerbosity`: verbosity 3 and above shows all. */
  function TruncateByVerbosity(value: string, verbosityLevel: int): string {
    if 3 <= verbosityLevel then value else TruncateCell(value)
  }

  /** A short value is unchanged; a long one keeps its first 217 characters
      and ends in "...", 220 in all; a second truncation changes nothing. */
  lemma TruncateShape(value: string, verbosityLevel: int)
    ensures |TruncateCell(value)| <= MaxCellLength
    ensures |value| <= MaxCellLength ==> TruncateCell(value) == value
    ensures |value| > MaxCellLength ==>
      |TruncateCell(value)| == MaxCellLength && value[..217] <= TruncateCell(value)
      && TruncateCell(value)[217..] == "..."
    ensures TruncateCell(TruncateCell(value)) == TruncateCell(value)
    ensures 3 <= verbosityLevel ==> TruncateByVerbosity(value, verbosityLevel) == value
    ensures verbosityLevel < 3 ==> TruncateByVerbosity(value, verbosityLevel) == TruncateCell(value)
  {
  }

  // ---------------------------------------------------------------------------
  // wrapFixedWidth

  /** `wrapFixedWidth`: "" gives one empty piece, a width of 1 or less the
      whole value. */
  function Wrapped(value: string, width: int): (r: seq<string>)
    ensures 1 <= |r|
    ensures value == "" || width <= 1 ==> |r| == 1
  {
    if value == "" then [""] else if width <= 1 then [value] else Chunks(value, width)
  }

  /** The wrapped pieces concatenate back to the value, and none is longer
      than the width when the width is above 1. */
  lemma WrappedShape(value: string, width: int)
    ensures Concat(Wrapped(value, width)) == value
    ensures 1 < width ==> forall k :: 0 <= k < |Wrapped(value, width)| ==> |Wrapped(value, width)[k]| <= width
  {
    if value != "" && 1 < width {
      ChunksShape(value, width);
    } else {
      assert Concat([value]) == value + Concat([]);
    }
  }

  /** The wrapping loop: cuts `width` characters off the front until what is
      left fits. */
  method WrapFixedWidth(value: string, width: int) returns (result: seq<string>)
    ensures result == Wrapped(value, width)
  {
    if value == "" {
      return [""];
    }
    if width <= 1 {
      return [value];
    }
    result := [];
    var rest := value;
    var done := false;
    while 0 < |rest| && !done
      invariant !done ==> rest != [] && result + Chunks(rest, width) == Chunks(value, width)
      invariant done ==> result == Chunks(value, width)
      decreases |rest|, if done then 0 else 1
    {
      if |rest| <= width {
        result := result + [rest];
        done := true;
      } else {
        assert Chunks(rest, width) == [rest[..width]] + Chunks(rest[width..], width);
        result := result + [rest[..width]];
        rest := rest[width..];
      }
    }
  }

  // ---------------------------------------------------------------------------
  // limitLinesByVerbosity

  /** `errorMaxLinesForVerbosityLevel`; 0 means no limit. */
  function MaxLines(verbosityLevel: int): nat {
    if 3 <= verbosityLevel then 0
    else if verbosityLevel == 2 then 4
    else if verbosityLevel == 1 then 2
    else 1
  }

  /** The lines kept under a limit, the last one marked with " ...". */
  function Limited(lines: seq<string>, maxLines: nat): seq<string> {
    if maxLines == 0 || |lines| <= maxLines then lines
    else lines[..maxLines - 1] + [lines[maxLines - 1] + " ..."]
  }

  /** `limitLinesByVerbosity`. */
  method LimitLinesByVerbosity(lines: seq<string>, verbosityLevel: int) returns (r: seq<string>)
    ensures r == Limited(lines, MaxLines(verbosityLevel))
  {
    var maxLines := MaxLines(verbosityLevel);
    if maxLines == 0 || |lines| <= maxLines {
      return lines;
    }
    var limited := [];
    var index := 0;
    while index < maxLines
      invariant 0 <= index <= maxLines
      invariant limited == lines[..index]
    {
      limited := limited + [lines[index]];
      index := index + 1;
    }
    r := limited[..|limited| - 1] + [limited[|limited| - 1] + " ..."];
  }

  /** A limited list has `maxLines` lines, the first `maxLines - 1` as given
      and the last one the next line with " ..." appended; without a limit or
      when the lines fit, they are unchanged. */
  lemma LimitedShape(lines: seq<string>, verbosityLevel: int)
    ensures var maxLines := MaxLines(verbosityLevel);
      var r := Limited(lines, maxLines);
      (maxLines == 0 || |lines| <= maxLines ==> r == lines)
      && (0 < maxLines < |lines| ==>
            |r| == maxLines && r[..maxLines - 1] == lines[..maxLines - 1]
            && r[maxLines - 1] == lines[maxLines - 1] + " ...")
    ensures verbosityLevel <= 0 ==> MaxLines(verbosityLevel) == 1
    ensures verbosityLevel >= 3 ==> Limited(lines, MaxLines(verbosityLevel)) == lines
  {
  }

  // ---------------------------------------------------------------------------
  // The service list's page

  /** The start of a page: the offset clamped to `[0, total]`. */
  function PageStart(total: nat, offset: int): (start: nat)
    ensures start <= total
    ensures 0 <= offset <= total ==> start == offset
    ensures offset < 0 ==> start == 0
    ensures total < offset ==> start == total
  {
    if offset < 0 then 0 else if total < offset then total else offset
  }

  /** The end of a page: `limit` names on from the start, when positive. */
  function PageEnd(total: nat, offset: int, limit: int): (end: nat)
    ensures PageStart(total, offset) <= end <= total
    ensures limit <= 0 ==> end == total
    ensures 0 < limit ==> end == if PageStart(total, offset) + limit < total then PageStart(total, offset) + limit else total
  {
    var start := PageStart(total, offset);
    if 0 < limit && start + limit < total then start + limit else total
  }

  /** `populateServiceList` paging: the names from the clamped offset, at most
      `limit` of them when the limit is positive. */
  function Page(names: seq<string>, offset: int, limit: int): (r: seq<string>)
    ensures PageStart(|names|, offset) + |r| <= |names|
    ensures forall k :: 0 <= k < |r| ==> r[k] == names[PageStart(|names|, offset) + k]
    ensures 0 < limit ==> |r| <= limit
    ensures limit <= 0 ==> PageStart(|names|, offset) + |r| == |names|
  {
    names[PageStart(|names|, offset)..PageEnd(|names|, offset, limit)]
  }

  /** Two consecutive pages of one limit make the page of twice that limit,
      so walking the offsets by the limit lists every name once, in order. */
  lemma PagesTile(names: seq<string>, offset: nat, limit: int)
    requires 0 < limit
    ensures Page(names, offset, limit) + Page(names, offset + limit, limit) == Page(names, offset, 2 * limit)
  {
    var total := |names|;
    var s := PageStart(total, offset);
    var m := PageEnd(total, offset, limit);
    var e := PageEnd(total, offset, 2 * limit);
    assert PageStart(total, offset + limit) == m;
    assert PageEnd(total, offset + limit, limit) == e;
    assert names[s..m] + names[m..e] == names[s..e];
  }

  /** A page never holds more than `limit` names, and holds all from the
      start when there is no limit. */
  lemma PageSize(names: seq<string>, offset: int, limit: int)
    ensures 0 < limit ==> |Page(names, offset, limit)| <= limit
    ensures limit <= 0 ==> Page(names, offset, limit) == names[PageStart(|names|, offset)..]
  {
  }
}
