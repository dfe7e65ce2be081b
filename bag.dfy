/** The string-list helpers of `v2/bag/string_slice.go` over a parameter bag:
    reading a parameter as a list of strings, reading one element of it, and
    appending to it. The bag is a class holding the map from parameter names to
    dynamically typed values that its `Get` and `Set` read and write. */
module Bag {
  import opened Wrappers

  /** A parameter's value, by the dynamic types the helpers switch on. */
  datatype Entry = NilEntry | Strings(items: seq<string>) | Text(text: string) | OtherEntry

  /** The errors of the helpers, with the context they carry. */
  datatype BagError =
    | NegativeIndex(name: string, index: int)
    | IndexOutOfRange(name: string, index: int, length: nat)
    | NotStrings(name: string)

  /** `([]string, bool)`: `None` is the nil slice. */
  datatype Lookup = Lookup(values: Option<seq<string>>, found: bool)

  /** `(string, bool, error)`. */
  datatype Fetched = Fetched(value: string, found: bool, error: Option<BagError>)

  class ParameterBag {
    var parameters: map<string, Entry>

    constructor()
      ensures parameters == map[]
    {
      parameters := map[];
    }

    method Set(name: string, value: Entry)
      modifies this
      ensures parameters == old(parameters)[name := value]
    {
      parameters := parameters[name := value];
    }
  }

  /** The strings a value stands for: a list is copied, a string is a
      one-element list, anything else has none. */
  function Items(e: Entry): Option<seq<string>> {
    match e
    case Strings(items) => Some(items)
    case Text(text) => Some([text])
    case _ => None
  }

  /** `StringSlice`. */
  function StringSlice(parameters: map<string, Entry>, name: string): (r: Lookup)
    ensures r.found <==> name in parameters
    ensures r.values.Some? ==> name in parameters && (parameters[name].Strings? || parameters[name].Text?)
    ensures name in parameters && parameters[name].Text? ==> r.values == Some([parameters[name].text])
    ensures name in parameters && parameters[name].Strings? ==> r.values == Some(parameters[name].items)
  {
    if name !in parameters then Lookup(None, false)
    else Lookup(Items(parameters[name]), true)
  }

  /** The length Go's `len` gives the slice of a lookup; nil has length 0. */
  function Length(values: Option<seq<string>>): nat {
    if values.Some? then |values.value| else 0
  }

  /** `StringAt`. */
  function StringAt(parameters: map<string, Entry>, name: string, index: int): (r: Fetched)
    ensures r.found <==> name in parameters
    ensures r.error.Some? ==> r.found && r.value == ""
  {
    var lookup := StringSlice(parameters, name);
    if !lookup.found then Fetched("", false, None)
    else if index < 0 then Fetched("", true, Some(NegativeIndex(name, index)))
    else if index >= Length(lookup.values) then Fetched("", true, Some(IndexOutOfRange(name, index, Length(lookup.values))))
    else Fetched(lookup.values.value[index], true, None)
  }

  /** What `AppendString` stores, or its error: a missing or nil value starts
      a list, a list or a string is extended, anything else is refused. */
  function AppendStringTo(parameters: map<string, Entry>, name: string, value: string): Result<map<string, Entry>, BagError> {
    if name !in parameters || parameters[name].NilEntry? then Ok(parameters[name := Strings([value])])
    else
      match parameters[name]
      case Strings(items) => Ok(parameters[name := Strings(items + [value])])
      case Text(text) => Ok(parameters[name := Strings([text, value])])
      case _ => Err(NotStrings(name))
  }

  /** `AppendStringSlice`: each value in turn, stopping at the first error. */
  function AppendAll(parameters: map<string, Entry>, name: string, values: seq<string>): Result<map<string, Entry>, BagError>
    decreases |values|
  {
    if values == [] then Ok(parameters)
    else
      match AppendAll(parameters, name, values[..|values| - 1])
      case Err(e) => Err(e)
      case Ok(before) => AppendStringTo(before, name, values[|values| - 1])
  }

  /** `AppendString`. */
  method AppendString(bag: ParameterBag, name: string, value: string) returns (err: Option<BagError>)
    modifies bag
    ensures AppendStringTo(old(bag.parameters), name, value).Ok? ==>
      err == None && bag.parameters == AppendStringTo(old(bag.parameters), name, value).value
    ensures AppendStringTo(old(bag.parameters), name, value).Err? ==>
      err == Some(AppendStringTo(old(bag.parameters), name, value).error) && bag.parameters == old(bag.parameters)
  {
    err := None;
    if name !in bag.parameters {
      bag.Set(name, Strings([value]));
    } else {
      var currentValue := bag.parameters[name];
      match currentValue
      case NilEntry =>
        bag.Set(name, Strings([value]));
      case Strings(items) =>
        bag.Set(name, Strings(items + [value]));
      case Text(text) =>
        bag.Set(name, Strings([text, value]));
      case OtherEntry =>
        err := Some(NotStrings(name));
    }
  }

  /** `AppendStringSlice`. */
  method AppendStringSlice(bag: ParameterBag, name: string, values: seq<string>) returns (err: Option<BagError>)
    modifies bag
    ensures AppendAll(old(bag.parameters), name, values).Ok? ==>
      err == None && bag.parameters == AppendAll(old(bag.parameters), name, values).value
    ensures AppendAll(old(bag.parameters), name, values).Err? ==>
      err == Some(AppendAll(old(bag.parameters), name, values).error) && bag.parameters == old(bag.parameters)
  {
    err := None;
    var i := 0;
    while i < |values| && err.None?
      invariant 0 <= i <= |values|
      invariant err.None? ==> AppendAll(old(bag.parameters), name, values[..i]) == Ok(bag.parameters)
      invariant err.Some? ==> 0 < i && AppendAll(old(bag.parameters), name, values[..i]) == Err(err.value)
      invariant err.Some? ==> bag.parameters == old(bag.parameters)
    {
      AppendAllSnoc(old(bag.parameters), name, values, i);
      err := AppendString(bag, name, values[i]);
      if err.Some? {
        FirstAppendFails(old(bag.parameters), name, values, i);
      }
      i := i + 1;
    }
    if err.Some? {
      AppendAllStops(old(bag.parameters), name, values, i);
    } else {
      assert values[..i] == values;
    }
  }

  lemma AppendAllSnoc(parameters: map<string, Entry>, name: string, values: seq<string>, i: int)
    requires 0 <= i < |values|
    ensures AppendAll(parameters, name, values[..i + 1]) ==
      (match AppendAll(parameters, name, values[..i])
       case Err(e) => Err(e)
       case Ok(before) => AppendStringTo(before, name, values[i]))
  {
    assert values[..i + 1][..i] == values[..i];
  }

  /** Once an append has succeeded the value is a list, so only the first append can fail. */
  lemma FirstAppendFails(parameters: map<string, Entry>, name: string, values: seq<string>, i: int)
    requires 0 <= i < |values|
    requires AppendAll(parameters, name, values[..i]).Ok?
    requires AppendStringTo(AppendAll(parameters, name, values[..i]).value, name, values[i]).Err?
    ensures i == 0
  {
    if i > 0 {
      AppendAllShape(parameters, name, values[..i]);
    }
  }

  /** After appending at least one value without error, the parameter holds a list. */
  lemma {:induction false} AppendAllShape(parameters: map<string, Entry>, name: string, values: seq<string>)
    requires values != [] && AppendAll(parameters, name, values).Ok?
    ensures name in AppendAll(parameters, name, values).value
    ensures AppendAll(parameters, name, values).value[name].Strings?
  {
  }

  lemma {:induction false} AppendAllStops(parameters: map<string, Entry>, name: string, values: seq<string>, i: int)
    requires 0 < i <= |values| && AppendAll(parameters, name, values[..i]).Err?
    ensures AppendAll(parameters, name, values) == AppendAll(parameters, name, values[..i])
    decreases |values|
  {
    if i < |values| {
      var init := values[..|values| - 1];
      assert init[..i] == values[..i];
      AppendAllStops(parameters, name, init, i);
    } else {
      assert values[..i] == values;
    }
  }

  // ---------------------------------------------------------------------------
  // Properties

  /** An index is refused, with the parameter found, exactly when it is
      negative or not below the length; otherwise it reads that element. */
  lemma StringAtIndex(parameters: map<string, Entry>, name: string, index: int)
    requires name in parameters
    ensures StringAt(parameters, name, index).error.Some? <==>
      index < 0 || index >= Length(StringSlice(parameters, name).values)
    ensures StringAt(parameters, name, index).error.None? ==>
      StringAt(parameters, name, index).value == StringSlice(parameters, name).values.value[index]
  {
  }

  /** A missing parameter is not found and no error. */
  lemma StringAtMissing(parameters: map<string, Entry>, name: string, index: int)
    requires name !in parameters
    ensures StringAt(parameters, name, index) == Fetched("", false, None)
  {
  }

  /** An append that succeeds adds the value at the end of the strings read
      back, and changes no other parameter. */
  lemma AppendThenRead(parameters: map<string, Entry>, name: string, value: string)
    requires AppendStringTo(parameters, name, value).Ok?
    ensures var after := AppendStringTo(parameters, name, value).value;
      StringSlice(after, name).values ==
        Some((if name in parameters && Items(parameters[name]).Some? then Items(parameters[name]).value else []) + [value])
    ensures forall other :: other != name ==>
      (other in AppendStringTo(parameters, name, value).value <==> other in parameters)
    ensures forall other :: other != name && other in parameters ==>
      AppendStringTo(parameters, name, value).value[other] == parameters[other]
  {
    if name in parameters && parameters[name].Text? {
      assert [parameters[name].text] + [value] == [parameters[name].text, value];
    } else if name !in parameters || parameters[name].NilEntry? {
      assert [] + [value] == [value];
    }
  }

  /** An append fails exactly on a value that is neither nil, a string nor a list. */
  lemma AppendFailsOnOther(parameters: map<string, Entry>, name: string, value: string)
    ensures AppendStringTo(parameters, name, value).Err? <==> name in parameters && parameters[name].OtherEntry?
    ensures AppendStringTo(parameters, name, value).Err? ==> AppendStringTo(parameters, name, value).error == NotStrings(name)
  {
  }

  /** The appended value is the last element and can be read back by index. */
  lemma AppendThenStringAt(parameters: map<string, Entry>, name: string, value: string)
    requires AppendStringTo(parameters, name, value).Ok?
    ensures var after := AppendStringTo(parameters, name, value).value;
      var n := Length(StringSlice(after, name).values);
      n >= 1 && StringAt(after, name, n - 1) == Fetched(value, true, None)
  {
    AppendThenRead(parameters, name, value);
  }

  /** Appending a list appends its values in order, or fails without having
      appended anything when the first append fails. */
  lemma {:induction false} AppendAllRead(parameters: map<string, Entry>, name: string, values: seq<string>)
    requires values != [] && AppendAll(parameters, name, values).Ok?
    ensures StringSlice(AppendAll(parameters, name, values).value, name).values ==
      Some((if name in parameters && Items(parameters[name]).Some? then Items(parameters[name]).value else []) + values)
    decreases |values|
  {
    var init := values[..|values| - 1];
    var last := values[|values| - 1];
    if init == [] {
      AppendThenRead(parameters, name, last);
      assert values == [last];
    } else {
      AppendAllRead(parameters, name, init);
      var before := AppendAll(parameters, name, init).value;
      var start := if name in parameters && Items(parameters[name]).Some? then Items(parameters[name]).value else [];
      assert Items(before[name]) == Some(start + init);
      AppendThenRead(before, name, last);
      assert (start + init) + [last] == start + values;
    }
  }

  /** The failure of a list append is the failure of its first value. */
  lemma AppendAllFails(parameters: map<string, Entry>, name: string, values: seq<string>)
    requires values != []
    ensures AppendAll(parameters, name, values).Err? <==> name in parameters && parameters[name].OtherEntry?
  {
    AppendAllFirst(parameters, name, values, |values|);
  }

  lemma {:induction false} AppendAllFirst(parameters: map<string, Entry>, name: string, values: seq<string>, n: int)
    requires 0 < n <= |values|
    ensures AppendAll(parameters, name, values[..n]).Err? <==> name in parameters && parameters[name].OtherEntry?
    decreases n
  {
    if n == 1 {
      assert values[..1][..0] == [];
    } else {
      AppendAllFirst(parameters, name, values, n - 1);
      AppendAllSnoc(parameters, name, values, n - 1);
      if AppendAll(parameters, name, values[..n - 1]).Ok? {
        AppendAllShape(parameters, name, values[..n - 1]);
      }
    }
    if n == |values| {
      assert values[..n] == values;
    }
  }
}
