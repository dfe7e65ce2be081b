/** The conversions of `internal/parse.go` from a dynamically typed
    configuration value to a boolean, an integer, a duration, a float or a
    string map. Each returns the value, whether one was present, and an error;
    a nil value is absent and no error. */
module Parse {
  import opened Wrappers
  import opened Strings
  import opened Strconv

  /** The dynamic types the conversions switch on. `Other` is any type none of
      them accepts; durations are counted in nanoseconds and floats are reals. */
  datatype Value =
    | Nil
    | BoolValue(b: bool)
    | IntValue(i: int)
    | Int64Value(i: int)
    | DurationValue(nanos: int)
    | Float64Value(x: real)
    | Float32Value(x: real)
    | StringValue(s: string)
    | StringMapValue(m: map<string, string>)
    | Other

  /** Why a string did not parse. */
  datatype Cause = NumberCause(e: NumError) | BoolCause(text: string) | DurationCause | FloatCause

  /** `ParseError(name, kind, value, err)`: the parameter, the target kind, the
      offending value and the parse failure behind it, if any. */
  datatype ParseError = ParseError(name: string, kind: string, value: Value, cause: Option<Cause>)

  /** The three results of a conversion. */
  datatype Parsed<T> = Parsed(value: T, found: bool, error: Option<ParseError>)

  /** What every conversion promises: a value is found iff it is not nil, nil
      gives the zero value and no error, and an error comes with the zero value
      and names the parameter, the target kind and the offending value. */
  predicate Conventional<T(==)>(r: Parsed<T>, value: Value, name: string, kind: string, zero: T) {
    && (r.found <==> value != Nil)
    && (value == Nil ==> r.value == zero && r.error.None?)
    && (r.error.Some? ==>
          r.value == zero && r.error.value.name == name && r.error.value.kind == kind && r.error.value.value == value)
  }

  // ---------------------------------------------------------------------------
  // Booleans

  predicate TrueWord(w: string) {
    w == "1" || w == "true" || w == "yes" || w == "y" || w == "on"
  }

  predicate FalseWord(w: string) {
    w == "0" || w == "false" || w == "no" || w == "n" || w == "off"
  }

  /** `BoolFromString`: trimmed and lower-cased, one of five words for each value. */
  function BoolFromString(value: string): Result<bool, Cause> {
    var lower := ToLower(TrimSpace(value));
    if TrueWord(lower) then Ok(true)
    else if FalseWord(lower) then Ok(false)
    else Err(BoolCause(value))
  }

  /** `Bool`. */
  function Bool(value: Value, name: string): (r: Parsed<bool>)
    ensures Conventional(r, value, name, "bool", false)
    ensures value.BoolValue? ==> r == Parsed(value.b, true, None)
  {
    match value
    case Nil => Parsed(false, false, None)
    case BoolValue(b) => Parsed(b, true, None)
    case StringValue(s) =>
      (match BoolFromString(s)
       case Ok(b) => Parsed(b, true, None)
       case Err(cause) => Parsed(false, true, Some(ParseError(name, "bool", value, Some(cause)))))
    case _ => Parsed(false, true, Some(ParseError(name, "bool", value, None)))
  }

  // ---------------------------------------------------------------------------
  // Integers

  /** Whether a float has no fractional part (`x == math.Trunc(x)`). */
  predicate Integral(x: real) {
    x.Floor as real == x
  }

  /** `Int`: ints pass through, an integral float is converted, a string is
      trimmed and read in base 10 as a 64-bit integer. */
  function Int(value: Value, name: string): (r: Parsed<int>)
    ensures Conventional(r, value, name, "int", 0)
    ensures value.IntValue? || value.Int64Value? ==> r == Parsed(value.i, true, None)
  {
    match value
    case Nil => Parsed(0, false, None)
    case IntValue(i) => Parsed(i, true, None)
    case Int64Value(i) => Parsed(i, true, None)
    case Float64Value(x) => if !Integral(x) then Parsed(0, true, Some(ParseError(name, "int", value, None))) else Parsed(x.Floor, true, None)
    case StringValue(s) =>
      (match ParseInt64(TrimSpace(s))
       case Ok(n) => Parsed(n, true, None)
       case Err(e) => Parsed(0, true, Some(ParseError(name, "int", value, Some(NumberCause(e))))))
    case _ => Parsed(0, true, Some(ParseError(name, "int", value, None)))
  }

  // ---------------------------------------------------------------------------
  // Durations and floats

  /** `Duration`; `time.ParseDuration` is the parameter `parseDuration`. */
  function Duration(value: Value, name: string, parseDuration: string -> Option<int>): (r: Parsed<int>)
    ensures Conventional(r, value, name, "duration", 0)
    ensures value.DurationValue? ==> r == Parsed(value.nanos, true, None)
    ensures value.IntValue? || value.Int64Value? ==> r == Parsed(value.i, true, None)
  {
    match value
    case Nil => Parsed(0, false, None)
    case DurationValue(d) => Parsed(d, true, None)
    case Int64Value(i) => Parsed(i, true, None)
    case IntValue(i) => Parsed(i, true, None)
    case StringValue(s) =>
      (match parseDuration(TrimSpace(s))
       case Some(d) => Parsed(d, true, None)
       case None => Parsed(0, true, Some(ParseError(name, "duration", value, Some(DurationCause)))))
    case _ => Parsed(0, true, Some(ParseError(name, "duration", value, None)))
  }

  /** `Float64`; `strconv.ParseFloat` is the parameter `parseFloat`. */
  function Float64(value: Value, name: string, parseFloat: string -> Option<real>): (r: Parsed<real>)
    ensures Conventional(r, value, name, "float64", 0.0)
    ensures value.Float64Value? || value.Float32Value? ==> r == Parsed(value.x, true, None)
    ensures value.IntValue? ==> r == Parsed(value.i as real, true, None)
  {
    match value
    case Nil => Parsed(0.0, false, None)
    case Float64Value(x) => Parsed(x, true, None)
    case Float32Value(x) => Parsed(x, true, None)
    case IntValue(i) => Parsed(i as real, true, None)
    case StringValue(s) =>
      (match parseFloat(TrimSpace(s))
       case Some(x) => Parsed(x, true, None)
       case None => Parsed(0.0, true, Some(ParseError(name, "float64", value, Some(FloatCause)))))
    case _ => Parsed(0.0, true, Some(ParseError(name, "float64", value, None)))
  }

  /** `MapStringString`: a copy of a string map. */
  function MapStringString(value: Value, name: string): (r: Parsed<map<string, string>>)
    ensures Conventional(r, value, name, "map[string]string", map[])
    ensures r.error.None? <==> value.Nil? || value.StringMapValue?
    ensures value.StringMapValue? ==> r == Parsed(value.m, true, None)
  {
    match value
    case Nil => Parsed(map[], false, None)
    case StringMapValue(m) => Parsed(m, true, None)
    case _ => Parsed(map[], true, Some(ParseError(name, "map[string]string", value, None)))
  }

  // ---------------------------------------------------------------------------
  // Properties

  /** A nil value is absent, with the zero value and no error, for every kind. */
  lemma NilIsAbsent(name: string, parseDuration: string -> Option<int>, parseFloat: string -> Option<real>)
    ensures Bool(Nil, name) == Parsed(false, false, None)
    ensures Int(Nil, name) == Parsed(0, false, None)
    ensures Duration(Nil, name, parseDuration) == Parsed(0, false, None)
    ensures Float64(Nil, name, parseFloat) == Parsed(0.0, false, None)
    ensures MapStringString(Nil, name) == Parsed(map[], false, None)
  {
  }

  /** A value of a type no conversion accepts is present and an error naming
      the parameter, the kind and the value. */
  lemma UnsupportedIsError(name: string, parseDuration: string -> Option<int>, parseFloat: string -> Option<real>)
    ensures Bool(Other, name) == Parsed(false, true, Some(ParseError(name, "bool", Other, None)))
    ensures Int(Other, name) == Parsed(0, true, Some(ParseError(name, "int", Other, None)))
    ensures Duration(Other, name, parseDuration) == Parsed(0, true, Some(ParseError(name, "duration", Other, None)))
    ensures Float64(Other, name, parseFloat) == Parsed(0.0, true, Some(ParseError(name, "float64", Other, None)))
    ensures MapStringString(Other, name) == Parsed(map[], true, Some(ParseError(name, "map[string]string", Other, None)))
  {
  }

  /** A word of lower-case letters and digits is left alone by trimming and lower-casing. */
  lemma LowerWord(w: string)
    requires w != [] && forall k :: 0 <= k < |w| ==> 'a' <= w[k] <= 'z' || '0' <= w[k] <= '9'
    ensures ToLower(TrimSpace(w)) == w
  {
    TrimSpaceOfTrimmed(w);
  }

  lemma WordOne()
    ensures BoolFromString("1") == Ok(true)
  {
    LowerWord("1");
  }

  lemma WordTrue()
    ensures BoolFromString("true") == Ok(true)
  {
    LowerWord("true");
  }

  lemma WordYes()
    ensures BoolFromString("yes") == Ok(true)
  {
    LowerWord("yes");
  }

  lemma WordY()
    ensures BoolFromString("y") == Ok(true)
  {
    LowerWord("y");
  }

  lemma WordOn()
    ensures BoolFromString("on") == Ok(true)
  {
    LowerWord("on");
  }

  lemma WordZero()
    ensures BoolFromString("0") == Ok(false)
  {
    LowerWord("0");
  }

  lemma WordFalse()
    ensures BoolFromString("false") == Ok(false)
  {
    LowerWord("false");
  }

  lemma WordNo()
    ensures BoolFromString("no") == Ok(false)
  {
    LowerWord("no");
  }

  lemma WordN()
    ensures BoolFromString("n") == Ok(false)
  {
    LowerWord("n");
  }

  lemma WordOff()
    ensures BoolFromString("off") == Ok(false)
  {
    LowerWord("off");
  }

  /** Each of the five true words parses as true. */
  lemma TrueWordsParse()
    ensures BoolFromString("1") == Ok(true) && BoolFromString("true") == Ok(true)
    ensures BoolFromString("yes") == Ok(true) && BoolFromString("y") == Ok(true)
    ensures BoolFromString("on") == Ok(true)
  {
    WordOne();
    WordTrue();
    WordYes();
    WordY();
    WordOn();
  }

  /** Each of the five false words parses as false. */
  lemma FalseWordsParse()
    ensures BoolFromString("0") == Ok(false) && BoolFromString("false") == Ok(false)
    ensures BoolFromString("no") == Ok(false) && BoolFromString("n") == Ok(false)
    ensures BoolFromString("off") == Ok(false)
  {
    WordZero();
    WordFalse();
    WordNo();
    WordN();
    WordOff();
  }

  /** `strconv.FormatBool`. */
  function FormatBool(b: bool): string {
    if b then "true" else "false"
  }

  /** A formatted boolean reads back, as a raw string value too. */
  lemma BoolRoundTrip(b: bool, name: string)
    ensures BoolFromString(FormatBool(b)) == Ok(b)
    ensures Bool(StringValue(FormatBool(b)), name) == Parsed(b, true, None)
  {
    if b {
      WordTrue();
    } else {
      WordFalse();
    }
    BoolOfString(FormatBool(b), name);
  }

  /** A string that parses is present with its value and no error. */
  lemma BoolOfString(s: string, name: string)
    requires BoolFromString(s).Ok?
    ensures Bool(StringValue(s), name) == Parsed(BoolFromString(s).value, true, None)
  {
  }

  /** Upper case makes no difference. */
  lemma BoolIgnoresCase(s: string)
    ensures BoolFromString(ToUpper(s)).Ok? <==> BoolFromString(s).Ok?
    ensures BoolFromString(s).Ok? ==> BoolFromString(ToUpper(s)) == BoolFromString(s)
  {
    assert ToLower(TrimSpace(ToUpper(s))) == ToLower(TrimSpace(s)) by {
      TrimSpaceOfUpper(s);
      LowerOfUpper(TrimSpace(s));
    }
    BoolSameWord(ToUpper(s), s);
  }

  /** Only the trimmed lower-case word decides the parse. */
  lemma BoolSameWord(a: string, b: string)
    requires ToLower(TrimSpace(a)) == ToLower(TrimSpace(b))
    ensures BoolFromString(a).Ok? <==> BoolFromString(b).Ok?
    ensures BoolFromString(a).Ok? ==> BoolFromString(a) == BoolFromString(b)
  {
  }

  lemma LowerOfUpper(t: string)
    ensures ToLower(ToUpper(t)) == ToLower(t)
  {
    forall k | 0 <= k < |t|
      ensures ToLower(ToUpper(t))[k] == ToLower(t)[k]
    {
      assert ToLowerChar(ToUpperChar(t[k])) == ToLowerChar(t[k]);
    }
  }

  /** Upper-casing commutes with trimming, since no letter is white space. */
  lemma TrimSpaceOfUpper(s: string)
    ensures TrimSpace(ToUpper(s)) == ToUpper(TrimSpace(s))
  {
    var n := LeadingSpaces(s);
    var t := s[n..];
    var m := TrailingSpaces(t);
    calc {
      TrimSpace(ToUpper(s));
    == { UpperLeading(s); }
      TrimRightSpace(ToUpper(s)[n..]);
    == { UpperSuffix(s, n); }
      TrimRightSpace(ToUpper(t));
    == { UpperTrailing(t); }
      ToUpper(t)[..|t| - m];
    == { UpperPrefix(t, |t| - m); }
      ToUpper(t[..|t| - m]);
    }
  }

  lemma UpperSuffix(s: string, n: nat)
    requires n <= |s|
    ensures ToUpper(s)[n..] == ToUpper(s[n..])
  {
  }

  lemma UpperPrefix(s: string, n: nat)
    requires n <= |s|
    ensures ToUpper(s)[..n] == ToUpper(s[..n])
  {
  }

  lemma {:induction false} UpperLeading(s: string)
    ensures LeadingSpaces(ToUpper(s)) == LeadingSpaces(s)
    decreases |s|
  {
    if s != [] && IsSpace(s[0]) {
      assert ToUpper(s)[1..] == ToUpper(s[1..]);
      UpperLeading(s[1..]);
    }
  }

  lemma {:induction false} UpperTrailing(s: string)
    ensures TrailingSpaces(ToUpper(s)) == TrailingSpaces(s)
    decreases |s|
  {
    if s != [] && IsSpace(s[|s| - 1]) {
      assert ToUpper(s)[..|s| - 1] == ToUpper(s[..|s| - 1]);
      UpperTrailing(s[..|s| - 1]);
    }
  }

  /** Surrounding white space makes no difference. */
  lemma BoolIgnoresPadding(p: string, s: string, q: string)
    requires AllSpace(p) && AllSpace(q) && Trimmed(s) && s != []
    ensures BoolFromString(p + s + q).Ok? <==> BoolFromString(s).Ok?
    ensures BoolFromString(s).Ok? ==> BoolFromString(p + s + q) == BoolFromString(s)
  {
    TrimSpaceOfPadded(p, s, q);
    TrimSpaceOfTrimmed(s);
  }

  /** A formatted 64-bit integer reads back, with or without surrounding white space. */
  lemma IntRoundTrip(n: int, name: string, p: string, q: string)
    requires InInt64(n) && AllSpace(p) && AllSpace(q)
    ensures Int(StringValue(FormatInt(n)), name) == Parsed(n, true, None)
    ensures Int(StringValue(p + FormatInt(n) + q), name) == Parsed(n, true, None)
  {
    var s := FormatInt(n);
    FormattedTrimmed(n);
    TrimSpaceOfTrimmed(s);
    TrimSpaceOfPadded(p, s, q);
    ParseFormatInt(n);
    IntOfString(s, name);
    IntOfString(p + s + q, name);
  }

  /** A string that is a 64-bit integer once trimmed is present with that value and no error. */
  lemma IntOfString(s: string, name: string)
    requires ParseInt64(TrimSpace(s)).Ok?
    ensures Int(StringValue(s), name) == Parsed(ParseInt64(TrimSpace(s)).value, true, None)
  {
  }

  /** A formatted integer starts with a sign or a digit and ends with a digit. */
  lemma FormattedTrimmed(n: int)
    ensures Trimmed(FormatInt(n)) && FormatInt(n) != []
  {
    var s := FormatInt(n);
    var digits := if n < 0 then s[1..] else s;
    assert digits != [] by {
      if n < 0 {
        assert s == "-" + NatToString(-n);
        assert digits == NatToString(-n);
      }
    }
    assert s[|s| - 1] == digits[|digits| - 1];
    assert IsDigit(digits[|digits| - 1]);
  }

  /** A float converts to an integer exactly when it has no fractional part. */
  lemma IntFromFloat(x: real, name: string)
    ensures Int(Float64Value(x), name).error.None? <==> Integral(x)
    ensures Integral(x) ==> Int(Float64Value(x), name) == Parsed(x.Floor, true, None)
    ensures Int(Float64Value(x), name).found
  {
  }

  /** A string that is no 64-bit integer is an error carrying the raw string. */
  lemma IntRejects(s: string, name: string)
    requires ParseInt64(TrimSpace(s)).Err?
    ensures Int(StringValue(s), name) ==
      Parsed(0, true, Some(ParseError(name, "int", StringValue(s), Some(NumberCause(ParseInt64(TrimSpace(s)).error)))))
  {
  }
}
