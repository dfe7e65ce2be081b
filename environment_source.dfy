/** The dotenv pre-processing of `v2/config/environment_source.go`: every line
    loses its comment (an unquoted `#` and what follows) and its trailing white
    space, blank lines are dropped, and the rest are joined with newlines. */
module EnvironmentSource {
  import opened Wrappers
  import opened Strings

  // ---------------------------------------------------------------------------
  // Lines, as `bufio.ScanLines` delivers them

  /** One trailing carriage return is dropped from each line. */
  function DropCarriageReturn(line: string): (r: string)
    ensures r <= line && |line| - 1 <= |r|
  {
    if line != [] && line[|line| - 1] == '\r' then line[..|line| - 1] else line
  }

  /** The raw lines of `content`: split at each newline, with no empty last
      line after a final newline and none at all for empty content. */
  function RawLines(content: string): (r: seq<string>)
    ensures forall k :: 0 <= k < |r| ==> '\n' !in r[k]
  {
    var parts := Split(content, '\n');
    if parts[|parts| - 1] == [] then parts[..|parts| - 1] else parts
  }

  /** The lines the scanner delivers: the raw lines without a final carriage return. */
  function ScanLines(content: string): (r: seq<string>)
    ensures |r| == |RawLines(content)|
    ensures forall k :: 0 <= k < |r| ==> r[k] == DropCarriageReturn(RawLines(content)[k])
    ensures forall k :: 0 <= k < |r| ==> '\n' !in r[k]
  {
    var raw := RawLines(content);
    seq(|raw|, k requires 0 <= k < |raw| => DropCarriageReturn(raw[k]))
  }

  /** The largest token the scanner is given room for: 1 MiB. */
  const MaxTokenSize := 1024 * 1024

  /** The scanner's buffer cannot hold a line of `MaxTokenSize` characters or
      more together with what ends it, so such a line stops the scan with
      `bufio.ErrTooLong`. */
  predicate LineTooLong(line: string) {
    |line| >= MaxTokenSize
  }

  predicate TooLong(content: string) {
    exists k :: 0 <= k < |RawLines(content)| && LineTooLong(RawLines(content)[k])
  }

  /** Some line among the first `n` is too long. */
  predicate AnyTooLong(lines: seq<string>, n: nat)
    requires n <= |lines|
  {
    n > 0 && (AnyTooLong(lines, n - 1) || LineTooLong(lines[n - 1]))
  }

  lemma {:induction false} AnyTooLongExists(lines: seq<string>, n: nat)
    requires n <= |lines|
    ensures AnyTooLong(lines, n) <==> exists k :: 0 <= k < n && LineTooLong(lines[k])
  {
    if n > 0 {
      AnyTooLongExists(lines, n - 1);
    }
  }

  /** Why pre-processing fails: the scanner stopped at an over-long line. */
  datatype ScanError = ScanTooLong

  // ---------------------------------------------------------------------------
  // Quotes and comments within one line

  /** The quote a line is inside of after one more character: a quote opens
      when none is open, and only the same quote closes it. */
  function QuoteStep(open: Option<char>, c: char): Option<char> {
    if c != '"' && c != '\'' then open
    else if open.None? then Some(c)
    else if open.value == c then None
    else open
  }

  /** The quote open after reading `s` from the start of a line. */
  function QuoteAfter(s: string): Option<char>
    decreases |s|
  {
    if s == [] then None else QuoteStep(QuoteAfter(s[..|s| - 1]), s[|s| - 1])
  }

  /** A `#` at `k` that starts a comment. */
  predicate CommentStart(line: string, k: int)
    requires 0 <= k < |line|
  {
    line[k] == '#' && QuoteAfter(line[..k]).None?
  }

  /** The first comment start at or after `i`, or the line's length. */
  function CommentFrom(line: string, i: nat): (r: nat)
    requires i <= |line|
    ensures i <= r <= |line|
    ensures forall k :: i <= k < r ==> !CommentStart(line, k)
    ensures r < |line| ==> CommentStart(line, r)
    decreases |line| - i
  {
    if i == |line| then i
    else if CommentStart(line, i) then i
    else CommentFrom(line, i + 1)
  }

  /** The line up to its first comment start. */
  function Uncommented(line: string): string {
    line[..CommentFrom(line, 0)]
  }

  /** The two sides of the cut: `Uncommented` is the longest prefix holding
      no comment start, and it stops either at the end or at a comment start. */
  lemma UncommentedCharacterised(line: string)
    ensures Uncommented(line) <= line
    ensures forall k :: 0 <= k < |Uncommented(line)| ==> !CommentStart(line, k)
    ensures Uncommented(line) == line || CommentStart(line, |Uncommented(line)|)
  {
  }

  /** A `#` inside quotes is kept, provided no comment started before it. */
  lemma QuotedHashKept(line: string, k: nat)
    requires k < |line| && line[k] == '#' && QuoteAfter(line[..k]).Some?
    requires forall j :: 0 <= j < k ==> !CommentStart(line, j)
    ensures k < |Uncommented(line)| && Uncommented(line)[k] == '#'
  {
  }

  /** An unquoted `#` cuts the line there or earlier. */
  lemma UnquotedHashCuts(line: string, k: nat)
    requires k < |line| && CommentStart(line, k)
    ensures |Uncommented(line)| <= k
  {
  }

  /** A line without `#` keeps all of its characters. */
  lemma NoHashKeepsLine(line: string)
    requires '#' !in line
    ensures Uncommented(line) == line
  {
  }

  /** The quote state after one more character. */
  lemma QuoteAfterSnoc(line: string, i: nat)
    requires i < |line|
    ensures QuoteAfter(line[..i + 1]) == QuoteStep(QuoteAfter(line[..i]), line[i])
  {
    assert line[..i + 1][..i] == line[..i];
  }

  /** The character loop: builds the line up to the first quote-free `#`. */
  method StripComment(line: string) returns (r: string)
    ensures r == Uncommented(line)
  {
    var builder := [];
    var inQuotes := false;
    var quoteChar := '\0';
    var i := 0;
    var stopped := false;
    while i < |line| && !stopped
      invariant 0 <= i <= |line|
      invariant inQuotes <==> QuoteAfter(line[..i]).Some?
      invariant inQuotes ==> quoteChar == QuoteAfter(line[..i]).value
      invariant CommentFrom(line, 0) == CommentFrom(line, i)
      invariant !stopped ==> builder == line[..i]
      invariant stopped ==> builder == Uncommented(line)
      decreases |line| - i, if stopped then 0 else 1
    {
      var character := line[i];
      QuoteAfterSnoc(line, i);
      if character == '"' || character == '\'' {
        if !inQuotes {
          inQuotes := true;
          quoteChar := character;
        } else if quoteChar == character {
          inQuotes := false;
          quoteChar := '\0';
        }
        builder := builder + [character];
        assert line[..i + 1] == line[..i] + [character];
        i := i + 1;
      } else if character == '#' && !inQuotes {
        stopped := true;
      } else {
        builder := builder + [character];
        assert line[..i + 1] == line[..i] + [character];
        i := i + 1;
      }
    }
    r := builder;
  }

  // ---------------------------------------------------------------------------
  // Lines kept, and the output

  /** A line after its comment and trailing white space are removed. */
  function Processed(line: string): (r: string)
    ensures r <= line && (r == [] || !IsSpace(r[|r| - 1]))
  {
    TrimRightSpace(Uncommented(line))
  }

  /** The processed lines that are not blank, in input order. */
  function KeptLines(lines: seq<string>): seq<string>
    decreases |lines|
  {
    if lines == [] then []
    else
      var init := KeptLines(lines[..|lines| - 1]);
      var processed := Processed(lines[|lines| - 1]);
      if TrimSpace(processed) == [] then init else init + [processed]
  }

  /** The pre-processed content of a scan that reaches the end. */
  function PreprocessedContent(content: string): string {
    Join(KeptLines(ScanLines(content)), "\n")
  }

  /** `preprocessDotEnvContent`: the joined kept lines, or the scanner's error
      and no content when some line is too long. */
  function DotEnvContent(content: string): (r: Result<string, ScanError>)
    ensures r.Err? <==> TooLong(content)
    ensures r.Ok? ==> r.value == PreprocessedContent(content)
  {
    if TooLong(content) then Err(ScanTooLong) else Ok(PreprocessedContent(content))
  }

  /** Keeping lines distributes over concatenation, so the kept lines keep
      their input order. */
  lemma {:induction false} KeptLinesAppend(a: seq<string>, b: seq<string>)
    ensures KeptLines(a + b) == KeptLines(a) + KeptLines(b)
    decreases |b|
  {
    if b == [] {
      assert a + b == a;
    } else {
      var bi := b[..|b| - 1];
      var processed := Processed(b[|b| - 1]);
      assert (a + b)[..|a + b| - 1] == a + bi;
      assert (a + b)[|a + b| - 1] == b[|b| - 1];
      KeptLinesAppend(a, bi);
      var tail := if TrimSpace(processed) == [] then [] else [processed];
      assert KeptLines(b) == KeptLines(bi) + tail;
      assert KeptLines(a + b) == KeptLines(a + bi) + tail;
      assert KeptLines(a) + KeptLines(bi) + tail == KeptLines(a) + (KeptLines(bi) + tail);
    }
  }

  /** One line is kept, as processed, exactly when it is not blank. */
  lemma KeptLine(line: string)
    ensures TrimSpace(Processed(line)) == [] ==> KeptLines([line]) == []
    ensures TrimSpace(Processed(line)) != [] ==> KeptLines([line]) == [Processed(line)]
  {
    assert [line][..0] == [];
  }

  /** Every kept line is non-blank, ends in no white space and holds no
      newline, when the input lines hold none. */
  lemma {:induction false} KeptLinesShape(lines: seq<string>)
    requires forall k :: 0 <= k < |lines| ==> '\n' !in lines[k]
    ensures forall k :: 0 <= k < |KeptLines(lines)| ==>
      var l := KeptLines(lines)[k];
      !AllSpace(l) && !IsSpace(l[|l| - 1]) && '\n' !in l
    decreases |lines|
  {
    if lines != [] {
      var init := lines[..|lines| - 1];
      KeptLinesShape(init);
    }
  }

  /** A line that has no comment, no trailing white space and is not blank
      passes through unchanged. */
  lemma CleanLineKept(line: string)
    requires '#' !in line && line != [] && !IsSpace(line[|line| - 1])
    ensures KeptLines([line]) == [line]
  {
    NoHashKeepsLine(line);
    assert TrailingSpaces(line) == 0;
    assert !AllSpace(line);
    KeptLine(line);
  }

  /** The output's newline-separated pieces are the kept lines, in order;
      with no kept line the output is empty. */
  lemma OutputLines(content: string)
    ensures KeptLines(ScanLines(content)) == [] ==> PreprocessedContent(content) == []
    ensures KeptLines(ScanLines(content)) != [] ==>
      Split(PreprocessedContent(content), '\n') == KeptLines(ScanLines(content))
  {
    var kept := KeptLines(ScanLines(content));
    KeptLinesShape(ScanLines(content));
    if kept != [] {
      SplitJoin(kept, '\n');
    }
  }

  /** `preprocessDotEnvContent`, over the scanned lines. */
  method Preprocess(content: string) returns (r: Result<string, ScanError>)
    ensures r == DotEnvContent(content)
  {
    var raw := RawLines(content);
    var scanned := ScanLines(content);
    assert |scanned| == |raw|;
    var lines := [];
    var failed := false;
    var i := 0;
    while i < |scanned|
      invariant 0 <= i <= |scanned|
      invariant lines == KeptLines(scanned[..i])
      invariant failed == AnyTooLong(raw, i)
    {
      if LineTooLong(raw[i]) {
        failed := true;
      }
      var stripped := StripComment(scanned[i]);
      var processed := TrimRightSpace(stripped);
      assert scanned[..i + 1][..i] == scanned[..i];
      if TrimSpace(processed) != [] {
        lines := lines + [processed];
      }
      i := i + 1;
    }
    assert scanned[..i] == scanned;
    AnyTooLongExists(raw, |raw|);
    if failed {
      r := Err(ScanTooLong);
    } else {
      r := Ok(Join(lines, "\n"));
    }
  }
}
