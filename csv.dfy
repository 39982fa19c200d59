/**
 * `parseCSV`: the text is split on '\n' and every line is cut into fields by a
 * per-character loop that keeps the field being built and an `inQuotes` flag.
 * A '"' only flips the flag and is dropped, a ',' outside quotes ends the
 * field, and every other character (a '\r' included) is kept. There is no
 * `""` escape and no line break inside quotes.
 *
 * `Scan` is the loop written as a left fold; `ParseLine` and `ParseCsv` are
 * the loops themselves, proved equal to it.
 */
module Csv {
  import opened Strings

  /** The variables of the per-character loop: the finished fields, `currentField`, `inQuotes`. */
  datatype LineState = LineState(fields: seq<string>, current: string, inQuotes: bool)

  /** One iteration of the per-character loop. */
  function Step(st: LineState, c: char): LineState
  {
    if c == '"' then st.(inQuotes := !st.inQuotes)
    else if c == ',' && !st.inQuotes then LineState(st.fields + [st.current], "", st.inQuotes)
    else st.(current := st.current + [c])
  }

  /** The loop state after reading all of `line`. */
  function Scan(line: string): LineState
  {
    if line == [] then LineState([], "", false)
    else Step(Scan(line[..|line| - 1]), line[|line| - 1])
  }

  /** The fields of one line: the finished ones and then the last, always pushed. */
  function LineFields(line: string): seq<string>
  {
    var st := Scan(line);
    st.fields + [st.current]
  }

  /**
   * `text.split('\n')`: the maximal newline-free pieces, in order. A text
   * ending in '\n' has an empty last piece, and the empty text has one.
   */
  function SplitLines(text: string): (lines: seq<string>)
    ensures |lines| == CountChar(text, '\n') + 1
    ensures forall i :: 0 <= i < |lines| ==> '\n' !in lines[i]
    ensures Join(lines, "\n") == text
  {
    if text == [] then [""]
    else
      var init := SplitLines(text[..|text| - 1]);
      var c := text[|text| - 1];
      assert text[..|text| - 1] + [c] == text;
      if c == '\n' then
        JoinNewPart(init, "\n");
        init + [""]
      else
        var last := init[|init| - 1];
        assert init == init[..|init| - 1] + [last];
        JoinExtendLast(init[..|init| - 1], last, "\n", c);
        init[..|init| - 1] + [last + [c]]
  }

  /** A newline-free text is one line. */
  lemma {:induction false} SplitSingleLine(s: string)
    requires '\n' !in s
    ensures SplitLines(s) == [s]
  {
    if s != [] {
      var init := s[..|s| - 1];
      assert forall k :: 0 <= k < |init| ==> init[k] == s[k];
      SplitSingleLine(init);
      assert init + [s[|s| - 1]] == s;
    }
  }

  /** A newline followed by a newline-free `last` adds `last` as one more line. */
  lemma {:induction false} SplitAppendLine(text: string, last: string)
    requires '\n' !in last
    ensures SplitLines(text + ['\n'] + last) == SplitLines(text) + [last]
  {
    var head := text + ['\n'];
    if last == [] {
      assert head + last == head && head[..|text|] == text;
    } else {
      var init, c := last[..|last| - 1], last[|last| - 1];
      assert forall k :: 0 <= k < |init| ==> init[k] == last[k];
      SplitAppendLine(text, init);
      assert head + last == (head + init) + [c];
      assert ((head + init) + [c])[..|head + init|] == head + init;
      assert (SplitLines(text) + [init])[..|SplitLines(text)|] == SplitLines(text);
      assert init + [c] == last;
    }
  }

  /** Splitting undoes joining: the other half of the round trip `SplitLines` ensures. */
  lemma {:induction false} SplitJoin(lines: seq<string>)
    requires |lines| >= 1
    requires forall i :: 0 <= i < |lines| ==> '\n' !in lines[i]
    ensures SplitLines(Join(lines, "\n")) == lines
  {
    if |lines| == 1 {
      SplitSingleLine(lines[0]);
    } else {
      var init, last := lines[..|lines| - 1], lines[|lines| - 1];
      assert SplitLines(Join(init, "\n") + ['\n'] + last) == init + [last] by {
        SplitJoin(init);
        SplitAppendLine(Join(init, "\n"), last);
      }
      assert init + [last] == lines;
    }
  }

  /**
   * The commas that end a field: those preceded by an even number of '"'
   * characters, that is, outside every quoted span.
   */
  function SeparatorCount(line: string): nat
  {
    if line == [] then 0
    else
      var init := line[..|line| - 1];
      SeparatorCount(init) + (if line[|line| - 1] == ',' && CountChar(init, '"') % 2 == 0 then 1 else 0)
  }

  /** The loop is inside quotes exactly when it has seen an odd number of '"'. */
  lemma {:induction false} QuoteParity(line: string)
    ensures Scan(line).inQuotes <==> CountChar(line, '"') % 2 == 1
  {
    if line != [] {
      QuoteParity(line[..|line| - 1]);
    }
  }

  /** Every line has one more field than it has commas outside quotes. */
  lemma {:induction false} FieldCount(line: string)
    ensures |LineFields(line)| == SeparatorCount(line) + 1
  {
    if line != [] {
      var init := line[..|line| - 1];
      QuoteParity(init);
      FieldCount(init);
    }
  }

  predicate QuoteFree(st: LineState)
  {
    '"' !in st.current && forall k :: 0 <= k < |st.fields| ==> '"' !in st.fields[k]
  }

  lemma {:induction false} ScanQuoteFree(line: string)
    ensures QuoteFree(Scan(line))
  {
    if line != [] {
      ScanQuoteFree(line[..|line| - 1]);
    }
  }

  /** No field contains '"': quote characters only toggle `inQuotes`. */
  lemma NoQuoteInFields(line: string)
    ensures forall k :: 0 <= k < |LineFields(line)| ==> '"' !in LineFields(line)[k]
  {
    ScanQuoteFree(line);
  }

  /**
   * Joining the fields with "," gives the line without its '"' characters:
   * nothing else is lost or added. Which commas separate is `SplitAtSeparator`.
   */
  lemma {:induction false} JoinFields(line: string)
    ensures Join(LineFields(line), ",") == RemoveChar(line, '"')
  {
    if line != [] {
      var init := line[..|line| - 1];
      var c := line[|line| - 1];
      var st := Scan(init);
      JoinFields(init);
      if c == '"' {
      } else if c == ',' && !st.inQuotes {
        JoinNewPart(st.fields + [st.current], ",");
      } else {
        JoinExtendLast(st.fields, st.current, ",", c);
      }
    }
  }

  /**
   * Reading a separator outside quotes and then `b` starts afresh: the fields
   * of `a` are finished, and the loop goes on as it would on `b` alone.
   */
  lemma {:induction false} ScanAfterSeparator(a: string, b: string)
    requires CountChar(a, '"') % 2 == 0
    ensures var sa, sb := Scan(a), Scan(b);
      Scan(a + [','] + b) == LineState(sa.fields + [sa.current] + sb.fields, sb.current, sb.inQuotes)
  {
    QuoteParity(a);
    if b == [] {
      assert a + [','] + b == a + [','];
      assert (a + [','])[..|a|] == a;
    } else {
      var init, c := b[..|b| - 1], b[|b| - 1];
      var head := a + [','] + init;
      ScanAfterSeparator(a, init);
      assert a + [','] + b == head + [c];
      assert (head + [c])[..|head|] == head;
      var sa, si := Scan(a), Scan(init);
      var done := sa.fields + [sa.current];
      assert (done + si.fields) + [si.current] == done + (si.fields + [si.current]);
    }
  }

  /**
   * A line is cut at every comma outside quotes, and only there: the fields
   * of `a,b`, where `a` has an even number of '"', are those of `a` followed
   * by those of `b`. A comma inside quotes is no separator (`FieldCount`).
   */
  lemma SplitAtSeparator(a: string, b: string)
    requires CountChar(a, '"') % 2 == 0
    ensures LineFields(a + [','] + b) == LineFields(a) + LineFields(b)
  {
    ScanAfterSeparator(a, b);
    var sa, sb := Scan(a), Scan(b);
    assert (sa.fields + [sa.current] + sb.fields) + [sb.current]
        == (sa.fields + [sa.current]) + (sb.fields + [sb.current]);
  }

  /** A line without a separator is one field: the line with its '"' deleted. */
  lemma SingleField(line: string)
    requires SeparatorCount(line) == 0
    ensures LineFields(line) == [RemoveChar(line, '"')]
  {
    FieldCount(line);
    JoinFields(line);
  }

  /** For a line without '"', joining its fields with "," gives the line back. */
  lemma RoundTrip(line: string)
    requires '"' !in line
    ensures Join(LineFields(line), ",") == line
  {
    JoinFields(line);
    RemoveAbsentChar(line, '"');
  }

  /** A '\r' left by CRLF input ends the last field rather than being dropped. */
  lemma CarriageReturnKept(line: string)
    requires |line| > 0 && line[|line| - 1] == '\r'
    ensures var fields := LineFields(line);
      fields[|fields| - 1] == LineFields(line[..|line| - 1])[|fields| - 1] + ['\r']
  {
  }

  /** `parseCSV`: one row of fields per line. */
  function ParsedCsv(text: string): seq<seq<string>>
  {
    var lines := SplitLines(text);
    seq(|lines|, i requires 0 <= i < |lines| => LineFields(lines[i]))
  }

  /** A text that ends in '\n' gives a last row holding one empty field. */
  lemma TrailingNewline(text: string)
    requires |text| > 0 && text[|text| - 1] == '\n'
    ensures var rows := ParsedCsv(text); rows[|rows| - 1] == [""]
  {
    assert text[..|text| - 1] + ['\n'] == text;
  }

  /** The per-character loop over one line. */
  method ParseLine(line: string) returns (result: seq<string>)
    ensures result == LineFields(line)
    ensures |result| == SeparatorCount(line) + 1
    ensures forall k :: 0 <= k < |result| ==> '"' !in result[k]
    ensures Join(result, ",") == RemoveChar(line, '"')
  {
    var fields: seq<string> := [];
    var current := "";
    var inQuotes := false;
    for i := 0 to |line|
      invariant Scan(line[..i]) == LineState(fields, current, inQuotes)
    {
      var c := line[i];
      assert line[..i + 1][..i] == line[..i];
      if c == '"' {
        inQuotes := !inQuotes;
      } else if c == ',' && !inQuotes {
        fields := fields + [current];
        current := "";
      } else {
        current := current + [c];
      }
    }
    assert line[..|line|] == line;
    result := fields + [current];
    FieldCount(line);
    NoQuoteInFields(line);
    JoinFields(line);
  }

  /** `parseCSV`: split into lines, then run `ParseLine` on each. */
  method ParseCsv(csvText: string) returns (rows: seq<seq<string>>)
    ensures rows == ParsedCsv(csvText)
    ensures |rows| == CountChar(csvText, '\n') + 1
    ensures forall i :: 0 <= i < |rows| ==> |rows[i]| >= 1
    ensures forall i, k :: 0 <= i < |rows| && 0 <= k < |rows[i]| ==> '"' !in rows[i][k]
  {
    var lines := SplitLines(csvText);
    rows := [];
    for i := 0 to |lines|
      invariant |rows| == i
      invariant forall j :: 0 <= j < i ==> rows[j] == LineFields(lines[j])
    {
      var fields := ParseLine(lines[i]);
      rows := rows + [fields];
    }
    forall i | 0 <= i < |rows|
      ensures |rows[i]| >= 1
      ensures forall k :: 0 <= k < |rows[i]| ==> '"' !in rows[i][k]
    {
      FieldCount(lines[i]);
      NoQuoteInFields(lines[i]);
    }
  }
}
