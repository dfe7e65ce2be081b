/** The parts of Go's `strings` and `sort` packages (and of JavaScript's
    string methods) that the core uses, on strings as character sequences.
    Byte-oriented Go operations are taken character by character, which agrees
    with Go on ASCII text. */
module Strings {

  // ---------------------------------------------------------------------------
  // White space and trimming

  /** ASCII white space, as `strings.TrimSpace` and `unicode.IsSpace` see it. */
  predicate IsSpace(c: char) {
    c == ' ' || c == '\t' || c == '\n' || c == '\r' || c == '\U{000B}' || c == '\U{000C}'
  }

  predicate AllSpace(s: string) {
    forall k :: 0 <= k < |s| ==> IsSpace(s[k])
  }

  /** True when `s` neither starts nor ends with white space. */
  predicate Trimmed(s: string) {
    s == [] || (!IsSpace(s[0]) && !IsSpace(s[|s| - 1]))
  }

  function LeadingSpaces(s: string): (n: nat)
    ensures n <= |s|
    ensures forall k :: 0 <= k < n ==> IsSpace(s[k])
    ensures n < |s| ==> !IsSpace(s[n])
  {
    if s == [] || !IsSpace(s[0]) then 0 else 1 + LeadingSpaces(s[1..])
  }

  function TrailingSpaces(s: string): (n: nat)
    ensures n <= |s|
    ensures forall k :: |s| - n <= k < |s| ==> IsSpace(s[k])
    ensures n < |s| ==> !IsSpace(s[|s| - 1 - n])
  {
    if s == [] || !IsSpace(s[|s| - 1]) then 0 else 1 + TrailingSpaces(s[..|s| - 1])
  }

  /** `strings.TrimRightFunc(s, unicode.IsSpace)`. */
  function TrimRightSpace(s: string): (r: string)
    ensures r <= s
    ensures AllSpace(s[|r|..])
    ensures r == [] || !IsSpace(r[|r| - 1])
  {
    s[..|s| - TrailingSpaces(s)]
  }

  /** `strings.TrimSpace`. */
  function TrimSpace(s: string): (r: string)
    ensures Trimmed(r)
    ensures |r| <= |s|
    ensures r == [] <==> AllSpace(s)
  {
    var n := LeadingSpaces(s);
    TrimRightSpace(s[n..])
  }

  /** Trimming removes exactly the white space around a trimmed core. */
  lemma {:induction false} TrimSpaceOfPadded(p: string, x: string, q: string)
    requires AllSpace(p) && AllSpace(q) && Trimmed(x) && x != []
    ensures TrimSpace(p + x + q) == x
  {
    var s := p + x + q;
    LeadingOfPadded(p, x + q);
    assert s == p + (x + q);
    assert s[|p|..] == x + q;
    TrailingOfPadded(x, q);
  }

  lemma {:induction false} LeadingOfPadded(p: string, y: string)
    requires AllSpace(p) && y != [] && !IsSpace(y[0])
    ensures LeadingSpaces(p + y) == |p|
  {
    if p != [] {
      assert (p + y)[1..] == p[1..] + y;
      LeadingOfPadded(p[1..], y);
    }
  }

  lemma {:induction false} TrailingOfPadded(x: string, q: string)
    requires AllSpace(q) && x != [] && !IsSpace(x[|x| - 1])
    ensures TrimRightSpace(x + q) == x
  {
    TrailingCount(x, q);
    assert (x + q)[..|x|] == x;
  }

  lemma {:induction false} TrailingCount(x: string, q: string)
    requires AllSpace(q) && x != [] && !IsSpace(x[|x| - 1])
    ensures TrailingSpaces(x + q) == |q|
  {
    if q != [] {
      assert (x + q)[..|x + q| - 1] == x + q[..|q| - 1];
      TrailingCount(x, q[..|q| - 1]);
    }
  }

  /** `strings.TrimSpace` is idempotent, and leaves a trimmed string alone. */
  lemma TrimSpaceOfTrimmed(s: string)
    requires Trimmed(s)
    ensures TrimSpace(s) == s
  {
    if s != [] {
      TrimSpaceOfPadded([], s, []);
      assert [] + s + [] == s;
    }
  }

  // ---------------------------------------------------------------------------
  // Prefixes, suffixes and single-character trimming

  predicate HasPrefix(s: string, p: string) {
    p <= s
  }

  predicate HasSuffix(s: string, p: string) {
    |p| <= |s| && s[|s| - |p|..] == p
  }

  /** `strings.TrimPrefix`: removes one leading `p` if present. */
  function TrimPrefix(s: string, p: string): (r: string)
    ensures HasPrefix(s, p) ==> p + r == s
    ensures !HasPrefix(s, p) ==> r == s
  {
    if HasPrefix(s, p) then s[|p|..] else s
  }

  /** `strings.TrimSuffix`: removes one trailing `p` if present. */
  function TrimSuffix(s: string, p: string): (r: string)
    ensures HasSuffix(s, p) ==> r + p == s
    ensures !HasSuffix(s, p) ==> r == s
  {
    if HasSuffix(s, p) then s[..|s| - |p|] else s
  }

  /** `strings.TrimRight(s, [c])`: removes every trailing `c`. */
  function TrimRightChar(s: string, c: char): (r: string)
    ensures r <= s
    ensures forall k :: |r| <= k < |s| ==> s[k] == c
    ensures r == [] || r[|r| - 1] != c
  {
    if s == [] || s[|s| - 1] != c then s else TrimRightChar(s[..|s| - 1], c)
  }

  /** `strings.TrimLeft(s, [c])`: removes every leading `c`. */
  function TrimLeftChar(s: string, c: char): (r: string)
    ensures |r| <= |s| && r == s[|s| - |r|..]
    ensures forall k :: 0 <= k < |s| - |r| ==> s[k] == c
    ensures r == [] || r[0] != c
  {
    if s == [] || s[0] != c then s else TrimLeftChar(s[1..], c)
  }

  /** `strings.Trim(s, [c])`. */
  function TrimChar(s: string, c: char): (r: string)
    ensures r == [] || (r[0] != c && r[|r| - 1] != c)
  {
    TrimRightChar(TrimLeftChar(s, c), c)
  }

  // ---------------------------------------------------------------------------
  // Splitting and joining on one character

  /** `strings.Split(s, [c])`. */
  function Split(s: string, c: char): (r: seq<string>)
    ensures |r| >= 1
    ensures forall k :: 0 <= k < |r| ==> c !in r[k]
  {
    if s == [] then [[]]
    else
      var rest := Split(s[1..], c);
      if s[0] == c then [[]] + rest else [[s[0]] + rest[0]] + rest[1..]
  }

  /** `strings.Join`. */
  function Join(parts: seq<string>, sep: string): string {
    if |parts| == 0 then []
    else if |parts| == 1 then parts[0]
    else parts[0] + sep + Join(parts[1..], sep)
  }

  /** Joining the pieces of a split gives back the input. */
  lemma {:induction false} JoinSplit(s: string, c: char)
    ensures Join(Split(s, c), [c]) == s
  {
    if s != [] {
      var rest := Split(s[1..], c);
      JoinSplit(s[1..], c);
      if s[0] == c {
        assert Split(s, c) == [[]] + rest;
        assert ([[]] + rest)[1..] == rest;
      } else {
        var r := Split(s, c);
        assert r == [[s[0]] + rest[0]] + rest[1..];
        if |rest| == 1 {
          assert Join(rest, [c]) == rest[0];
        } else {
          assert r[1..] == rest[1..];
          assert Join(rest, [c]) == rest[0] + [c] + Join(rest[1..], [c]);
        }
      }
    }
  }

  /** Splitting a join of pieces that do not contain the separator gives the pieces. */
  lemma {:induction false} SplitJoin(parts: seq<string>, c: char)
    requires |parts| >= 1
    requires forall k :: 0 <= k < |parts| ==> c !in parts[k]
    ensures Split(Join(parts, [c]), c) == parts
  {
    if |parts| == 1 {
      SplitNoSeparator(parts[0], c);
    } else {
      SplitJoin(parts[1..], c);
      SplitPrefix(parts[0], Join(parts[1..], [c]), c);
      assert [parts[0]] + parts[1..] == parts;
    }
  }

  lemma {:induction false} SplitNoSeparator(s: string, c: char)
    requires c !in s
    ensures Split(s, c) == [s]
  {
    if s != [] {
      SplitNoSeparator(s[1..], c);
      assert [s[0]] + s[1..] == s;
    }
  }

  lemma {:induction false} SplitPrefix(x: string, y: string, c: char)
    requires c !in x
    ensures Split(x + [c] + y, c) == [x] + Split(y, c)
  {
    if x == [] {
      assert ([c] + y)[1..] == y;
    } else {
      assert (x + [c] + y)[1..] == x[1..] + [c] + y;
      SplitPrefix(x[1..], y, c);
      assert [x[0]] + x[1..] == x;
    }
  }

  /** Appending a piece adds one more separator and the piece. */
  lemma {:induction false} JoinSnoc(parts: seq<string>, x: string, sep: string)
    requires |parts| >= 1
    ensures Join(parts + [x], sep) == Join(parts, sep) + sep + x
    decreases |parts|
  {
    if |parts| == 1 {
      assert (parts + [x])[1..] == [x];
    } else {
      assert (parts + [x])[1..] == parts[1..] + [x];
      JoinSnoc(parts[1..], x, sep);
    }
  }

  /** A joined string starts with its first piece. */
  lemma {:induction false} JoinStarts(parts: seq<string>, sep: string)
    requires |parts| >= 1
    ensures parts[0] <= Join(parts, sep)
  {
  }

  /** A joined string ends with its last piece. */
  lemma JoinEnds(parts: seq<string>, sep: string)
    requires |parts| >= 1
    ensures var j := Join(parts, sep); var x := parts[|parts| - 1];
      |x| <= |j| && j[|j| - |x|..] == x
  {
    var x := parts[|parts| - 1];
    if |parts| > 1 {
      var init := parts[..|parts| - 1];
      assert init + [x] == parts;
      JoinSnoc(init, x, sep);
    }
  }

  /** Every character of a joined string comes from the separator or from a piece. */
  lemma {:induction false} JoinChars(parts: seq<string>, sep: string, c: char)
    requires c in Join(parts, sep)
    ensures c in sep || exists k :: 0 <= k < |parts| && c in parts[k]
    decreases |parts|
  {
    if |parts| > 1 {
      var rest := Join(parts[1..], sep);
      assert Join(parts, sep) == parts[0] + sep + rest;
      if c in rest {
        JoinChars(parts[1..], sep, c);
        if c !in sep {
          var k :| 0 <= k < |parts[1..]| && c in parts[1..][k];
          assert parts[k + 1] == parts[1..][k];
        }
      }
    }
  }

  // ---------------------------------------------------------------------------
  // Fixed-width pieces

  /** The pieces of `value` of exactly `width` characters, and a last one of
      at most `width`. */
  function Chunks(value: string, width: int): seq<string>
    requires 1 <= width && value != []
    decreases |value|
  {
    if |value| <= width then [value] else [value[..width]] + Chunks(value[width..], width)
  }

  function Concat(parts: seq<string>): string
    decreases |parts|
  {
    if parts == [] then [] else parts[0] + Concat(parts[1..])
  }

  /** The chunks give back the value; each is non-empty and at most `width`
      long, and all but the last are exactly `width` long. */
  lemma {:induction false} ChunksShape(value: string, width: int)
    requires 1 <= width && value != []
    ensures Concat(Chunks(value, width)) == value
    ensures forall k :: 0 <= k < |Chunks(value, width)| ==> 1 <= |Chunks(value, width)[k]| <= width
    ensures forall k :: 0 <= k < |Chunks(value, width)| - 1 ==> |Chunks(value, width)[k]| == width
    decreases |value|
  {
    if |value| > width {
      var rest := Chunks(value[width..], width);
      ChunksShape(value[width..], width);
      assert Chunks(value, width) == [value[..width]] + rest;
      assert ([value[..width]] + rest)[1..] == rest;
      assert value[..width] + value[width..] == value;
    }
  }

  // ---------------------------------------------------------------------------
  // Searching

  /** `needle` occurs in `s` starting at position `i`. */
  predicate OccursAt(s: string, needle: string, i: int) {
    0 <= i && i + |needle| <= |s| && s[i..i + |needle|] == needle
  }

  /** `strings.Contains`. */
  predicate Contains(s: string, needle: string) {
    exists i :: 0 <= i <= |s| && OccursAt(s, needle, i)
  }

  lemma ContainsChar(s: string, c: char)
    ensures Contains(s, [c]) <==> c in s
  {
    if c in s {
      var i :| 0 <= i < |s| && s[i] == c;
      assert OccursAt(s, [c], i);
    }
    if Contains(s, [c]) {
      var i :| 0 <= i <= |s| && OccursAt(s, [c], i);
      assert s[i] == s[i..i + 1][0];
    }
  }

  /** `strings.Count(s, [c])`. */
  function CountChar(s: string, c: char): (n: nat)
    ensures n <= |s|
    ensures n == 0 <==> c !in s
  {
    if s == [] then 0 else (if s[0] == c then 1 else 0) + CountChar(s[1..], c)
  }

  /** Counting distributes over concatenation. */
  lemma {:induction false} CountCharAppend(a: string, b: string, c: char)
    ensures CountChar(a + b, c) == CountChar(a, c) + CountChar(b, c)
    decreases |a|
  {
    if a != [] {
      assert (a + b)[1..] == a[1..] + b;
      CountCharAppend(a[1..], b, c);
    } else {
      assert a + b == b;
    }
  }

  /** `strings.Index(s, [c])`: the first position of `c`, or -1. */
  function IndexOf(s: string, c: char): (i: int)
    ensures -1 <= i < |s|
    ensures i == -1 <==> c !in s
    ensures 0 <= i ==> s[i] == c && c !in s[..i]
  {
    if s == [] then -1
    else if s[0] == c then 0
    else
      var j := IndexOf(s[1..], c);
      if j == -1 then -1 else j + 1
  }

  /** The first occurrence is the one `strings.Index` finds. */
  lemma {:induction false} IndexOfFirst(s: string, c: char, i: int)
    requires 0 <= i < |s| && s[i] == c && c !in s[..i]
    ensures IndexOf(s, c) == i
    decreases i
  {
    if i > 0 {
      assert s[..i][0] == s[0];
      assert s[1..][..i - 1] == s[..i][1..];
      IndexOfFirst(s[1..], c, i - 1);
    }
  }


  // ---------------------------------------------------------------------------
  // Case

  function ToLowerChar(c: char): char {
    if 'A' <= c <= 'Z' then (c as int + 32) as char else c
  }

  function ToUpperChar(c: char): char {
    if 'a' <= c <= 'z' then (c as int - 32) as char else c
  }

  /** ASCII lower-casing of every character. */
  function ToLower(s: string): (r: string)
    ensures |r| == |s|
    ensures forall k :: 0 <= k < |s| ==> r[k] == ToLowerChar(s[k])
  {
    seq(|s|, k requires 0 <= k < |s| => ToLowerChar(s[k]))
  }

  function ToUpper(s: string): (r: string)
    ensures |r| == |s|
    ensures forall k :: 0 <= k < |s| ==> r[k] == ToUpperChar(s[k])
  {
    seq(|s|, k requires 0 <= k < |s| => ToUpperChar(s[k]))
  }

  /** `strings.EqualFold` on ASCII. */
  predicate EqualFold(a: string, b: string) {
    ToLower(a) == ToLower(b)
  }

  // ---------------------------------------------------------------------------
  // Replacing

  /** JavaScript `s.split(token).join(value)`: every non-overlapping occurrence of
      `token`, scanning left to right, is replaced by `value`. */
  function ReplaceAll(s: string, token: string, value: string): string
    requires token != []
    decreases |s|
  {
    if |s| < |token| then s
    else if token <= s then value + ReplaceAll(s[|token|..], token, value)
    else [s[0]] + ReplaceAll(s[1..], token, value)
  }

  /** A string that does not contain the token is left unchanged. */
  lemma {:induction false} ReplaceAllAbsent(s: string, token: string, value: string)
    requires token != [] && !Contains(s, token)
    ensures ReplaceAll(s, token, value) == s
    decreases |s|
  {
    if |s| >= |token| {
      assert !OccursAt(s, token, 0);
      assert !(token <= s);
      forall i ensures !OccursAt(s[1..], token, i) {
        if OccursAt(s[1..], token, i) {
          assert s[i + 1..i + 1 + |token|] == s[1..][i..i + |token|];
          assert OccursAt(s, token, i + 1);
        }
      }
      ReplaceAllAbsent(s[1..], token, value);
    }
  }

  /** Replacing in a concatenation whose left part ends before any occurrence. */
  lemma {:induction false} ReplaceAllToken(token: string, value: string, rest: string)
    requires token != []
    ensures ReplaceAll(token + rest, token, value) == value + ReplaceAll(rest, token, value)
  {
    assert token <= token + rest;
    assert (token + rest)[|token|..] == rest;
  }

  // ---------------------------------------------------------------------------
  // Ordering and sorting (Go's `<` on strings and `sort.Strings`)

  /** Lexicographic order by character code; on UTF-8 text this is Go's byte order. */
  predicate Less(a: string, b: string) {
    if a == [] then b != []
    else if b == [] then false
    else if a[0] != b[0] then a[0] < b[0]
    else Less(a[1..], b[1..])
  }

  predicate LessEq(a: string, b: string) {
    a == b || Less(a, b)
  }

  lemma {:induction false} LessIrreflexive(a: string)
    ensures !Less(a, a)
  {
    if a != [] { LessIrreflexive(a[1..]); }
  }

  lemma {:induction false} LessTransitive(a: string, b: string, c: string)
    requires Less(a, b) && Less(b, c)
    ensures Less(a, c)
  {
    if a != [] && b != [] && c != [] && a[0] == b[0] && b[0] == c[0] {
      LessTransitive(a[1..], b[1..], c[1..]);
    }
  }

  lemma {:induction false} LessTotal(a: string, b: string)
    ensures a == b || Less(a, b) || Less(b, a)
  {
    if a != [] && b != [] && a[0] == b[0] {
      LessTotal(a[1..], b[1..]);
      if a[1..] == b[1..] {
        assert a == [a[0]] + a[1..] && b == [b[0]] + b[1..];
      }
    }
  }

  lemma {:induction false} LessAsymmetric(a: string, b: string)
    requires Less(a, b)
    ensures !Less(b, a)
  {
    if a != [] && b != [] && a[0] == b[0] {
      LessAsymmetric(a[1..], b[1..]);
    }
  }

  /** Non-decreasing order. */
  predicate Sorted(s: seq<string>) {
    forall i, j :: 0 <= i < j < |s| ==> LessEq(s[i], s[j])
  }

  /** Strictly increasing order: sorted and free of duplicates. */
  predicate StrictlySorted(s: seq<string>) {
    forall i, j :: 0 <= i < j < |s| ==> Less(s[i], s[j])
  }

  predicate NoDuplicates<T(==)>(s: seq<T>) {
    forall i, j :: 0 <= i < j < |s| ==> s[i] != s[j]
  }

  /** Inserts `x` into a sorted sequence. */
  function Insert(x: string, s: seq<string>): (r: seq<string>)
    requires Sorted(s)
    ensures Sorted(r)
    ensures multiset(r) == multiset(s) + multiset{x}
  {
    if s == [] then [x]
    else if LessEq(x, s[0]) then
      assert forall j :: 0 <= j < |s| ==> LessEq(x, s[j]) by {
        forall j | 0 <= j < |s| ensures LessEq(x, s[j]) {
          if x != s[0] && s[0] != s[j] { LessTransitive(x, s[0], s[j]); }
        }
      }
      [x] + s
    else
      LessTotal(x, s[0]);
      var t := Insert(x, s[1..]);
      assert s == [s[0]] + s[1..];
      assert forall y :: y in multiset(t) ==> y == x || y in s[1..];
      assert forall j :: 0 <= j < |t| ==> t[j] in multiset(t);
      SortedHead(s[0], s[1..], x, t);
      [s[0]] + t
  }

  lemma SortedHead(h: string, rest: seq<string>, x: string, t: seq<string>)
    requires Sorted([h] + rest) && Sorted(t) && Less(h, x)
    requires forall j :: 0 <= j < |t| ==> t[j] == x || t[j] in rest
    ensures Sorted([h] + t)
  {
    var r := [h] + t;
    forall i, j | 0 <= i < j < |r| ensures LessEq(r[i], r[j]) {
      if i == 0 {
        if t[j - 1] != x {
          var k :| 0 <= k < |rest| && rest[k] == t[j - 1];
          assert ([h] + rest)[k + 1] == rest[k];
          assert LessEq(([h] + rest)[0], ([h] + rest)[k + 1]);
        }
        assert r[0] == h && r[j] == t[j - 1];
      } else {
        assert r[i] == t[i - 1] && r[j] == t[j - 1];
      }
    }
  }

  /** `sort.Strings`: the sorted permutation of `s`. */
  function SortStrings(s: seq<string>): (r: seq<string>)
    ensures Sorted(r)
    ensures multiset(r) == multiset(s)
    ensures |r| == |s|
  {
    if s == [] then []
    else
      var r := Insert(s[|s| - 1], SortStrings(s[..|s| - 1]));
      assert s == s[..|s| - 1] + [s[|s| - 1]];
      assert |r| == |multiset(r)|;
      r
  }

  /** A sorted sequence without duplicates is strictly sorted. */
  lemma SortedDistinctStrict(s: seq<string>)
    requires Sorted(s) && NoDuplicates(s)
    ensures StrictlySorted(s)
  {
  }

  /** Two strictly sorted sequences with the same elements are equal. */
  lemma {:induction false} StrictlySortedUnique(a: seq<string>, b: seq<string>)
    requires StrictlySorted(a) && StrictlySorted(b)
    requires forall x :: x in a <==> x in b
    ensures a == b
  {
    if a != [] && b != [] {
      assert a[0] in a && b[0] in b;
      StrictlySortedHeadMin(a);
      StrictlySortedHeadMin(b);
      if a[0] != b[0] {
        LessAsymmetric(a[0], b[0]);
      }
      forall x ensures x in a[1..] <==> x in b[1..] {
        if x in a[1..] {
          var k :| 1 <= k < |a| && a[k] == x;
          LessIrreflexive(x);
          assert x in a;
          var m :| 0 <= m < |b| && b[m] == x;
          assert b[1..][m - 1] == x;
        }
        if x in b[1..] {
          var k :| 1 <= k < |b| && b[k] == x;
          LessIrreflexive(x);
          assert x in b;
          var m :| 0 <= m < |a| && a[m] == x;
          assert a[1..][m - 1] == x;
        }
      }
      StrictlySortedUnique(a[1..], b[1..]);
      assert a == [a[0]] + a[1..] && b == [b[0]] + b[1..];
    } else {
      HeadIsElement(a);
      HeadIsElement(b);
    }
  }

  lemma HeadIsElement(s: seq<string>)
    ensures s != [] ==> s[0] in s
  {
  }

  lemma StrictlySortedHeadMin(a: seq<string>)
    requires StrictlySorted(a) && a != []
    ensures forall x :: x in a ==> LessEq(a[0], x)
  {
  }

  /** The distinct elements of `s`, first occurrences first. */
  function Distinct(s: seq<string>): (r: seq<string>)
    ensures NoDuplicates(r)
    ensures forall x :: x in r <==> x in s
    ensures |r| <= |s|
  {
    if s == [] then []
    else
      var r := Distinct(s[..|s| - 1]);
      if s[|s| - 1] in r then
        assert forall x :: x in s <==> x in s[..|s| - 1] || x == s[|s| - 1];
        r
      else
        assert forall x :: x in s <==> x in s[..|s| - 1] || x == s[|s| - 1];
        r + [s[|s| - 1]]
  }

  /** A sorted copy of the distinct elements: Go's
      "collect into a set, then `sort.Strings`". */
  function SortedDistinct(s: seq<string>): (r: seq<string>)
    ensures StrictlySorted(r)
    ensures forall x :: x in r <==> x in s
  {
    var d := Distinct(s);
    var r := SortStrings(d);
    assert forall x :: x in r <==> x in multiset(r);
    assert forall x :: x in d <==> x in multiset(d);
    MultisetNoDuplicates(d, r);
    SortedDistinctStrict(r);
    r
  }

  lemma MultisetNoDuplicates<T>(d: seq<T>, r: seq<T>)
    requires NoDuplicates(d) && multiset(d) == multiset(r)
    ensures NoDuplicates(r)
  {
    forall i, j | 0 <= i < j < |r| ensures r[i] != r[j] {
      if r[i] == r[j] {
        assert multiset(r)[r[i]] >= 2 by {
          assert r == r[..i] + [r[i]] + r[i + 1..];
          assert r[i + 1..] == r[i + 1..j] + [r[j]] + r[j + 1..];
        }
        MultisetAtMostOnce(d, r[i]);
      }
    }
  }

  lemma {:induction false} MultisetAtMostOnce<T>(d: seq<T>, x: T)
    requires NoDuplicates(d)
    ensures multiset(d)[x] <= 1
  {
    if d != [] {
      assert d == [d[0]] + d[1..];
      MultisetAtMostOnce(d[1..], x);
      if d[0] == x { assert x !in d[1..]; }
    }
  }

  /** The elements of a set, in an order the set chooses. */
  method SetToSeq(s: set<string>) returns (r: seq<string>)
    ensures NoDuplicates(r)
    ensures forall x :: x in r <==> x in s
  {
    r := [];
    var remaining := s;
    while remaining != {}
      invariant remaining <= s && NoDuplicates(r)
      invariant forall x :: x in r <==> x in s && x !in remaining
      decreases |remaining|
    {
      var x :| x in remaining;
      remaining := remaining - {x};
      r := r + [x];
    }
  }

  /** `sort.Strings` over the collected set: a strictly increasing list of its elements. */
  method SortedSetElements(s: set<string>) returns (r: seq<string>)
    ensures StrictlySorted(r)
    ensures forall x :: x in r <==> x in s
  {
    var unsorted := SetToSeq(s);
    r := SortStrings(unsorted);
    assert forall x :: x in r <==> x in multiset(r);
    assert forall x :: x in unsorted <==> x in multiset(unsorted);
    MultisetNoDuplicates(unsorted, r);
    SortedDistinctStrict(r);
  }

  /** The elements of a set in increasing order, the value `SortedSetElements` computes. */
  ghost function SortedElements(s: set<string>): (r: seq<string>)
    ensures StrictlySorted(r)
    ensures forall x :: x in r <==> x in s
  {
    SortedDistinct(Enumerate(s))
  }

  ghost function Enumerate(s: set<string>): (r: seq<string>)
    ensures forall x :: x in r <==> x in s
    decreases |s|
  {
    if s == {} then []
    else
      var x :| x in s;
      Enumerate(s - {x}) + [x]
  }
}
