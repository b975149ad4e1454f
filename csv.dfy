/** The quote-aware value reader of the translation file and the line splitting
    that precedes it (Localization/Translation.cs). A line is a `string`; the
    reader's cursor is a position in it. */
module Csv {
  import opened Seqs

  /** One value read from a line, and the cursor position after it. */
  datatype Scanned = Scanned(value: string, next: nat)

  /** The reader's automaton from position `i` with quoting state `inQuotes`:
      a quote outside quotes opens quoted mode; inside quotes, two quotes stand
      for one and a single quote closes quoted mode; no quote is copied; a comma
      outside quotes ends the value and is consumed; everything else is copied. */
  function Scan(s: string, i: nat, inQuotes: bool): (r: Scanned)
    requires i <= |s|
    ensures i <= r.next <= |s|
    ensures i < |s| ==> i < r.next
    ensures i == |s| ==> r == Scanned([], i)
    ensures |r.value| <= r.next - i
    decreases |s| - i
  {
    if i == |s| then Scanned([], i)
    else if s[i] == '"' then
      if inQuotes then
        if i + 1 < |s| && s[i + 1] == '"' then
          var rest := Scan(s, i + 2, true);
          Scanned(['"'] + rest.value, rest.next)
        else
          Scan(s, i + 1, false)
      else
        Scan(s, i + 1, true)
    else if s[i] == ',' && !inQuotes then
      Scanned([], i + 1)
    else
      var rest := Scan(s, i + 1, inQuotes);
      Scanned([s[i]] + rest.value, rest.next)
  }

  /** The value that starts at `start`, read outside quotes. */
  function Field(s: string, start: nat): (r: Scanned)
    requires start <= |s|
    ensures start <= r.next <= |s|
    ensures r.value != [] ==> start < r.next
  {
    Scan(s, start, false)
  }

  /** ReadCSVValue: reads one value from the cursor and advances the cursor past
      the value and past the comma that ended it, if any. */
  method ReadCsvValue(line: string, start: nat) returns (value: string, next: nat)
    requires start <= |line|
    ensures Scanned(value, next) == Field(line, start)
  {
    value := [];
    var inQuotes := false;
    var pos := start;
    while pos < |line|
      invariant start <= pos <= |line|
      invariant Field(line, start) == Scanned(value + Scan(line, pos, inQuotes).value, Scan(line, pos, inQuotes).next)
      decreases |line| - pos
    {
      var c := line[pos];
      ghost var at := pos;
      pos := pos + 1;
      if c == '"' {
        if inQuotes {
          if pos < |line| && line[pos] == '"' {
            // Two quotes inside quotes: consume both, keep one.
            ScanDoubledQuote(line, at);
            pos := pos + 1;
            AppendAssoc(value, [c], Scan(line, pos, true).value);
            value := value + [c];
          } else {
            // A closing quote, not copied.
            ScanClosingQuote(line, at);
            inQuotes := false;
          }
        } else {
          // An opening quote, not copied.
          ScanOpeningQuote(line, at);
          inQuotes := true;
        }
      } else {
        if c == ',' && !inQuotes {
          ScanComma(line, at);
          assert value + [] == value;
          next := pos;
          return;
        }
        ScanChar(line, at, inQuotes);
        AppendAssoc(value, [c], Scan(line, pos, inQuotes).value);
        value := value + [c];
      }
    }
    assert value + [] == value;
    next := pos;
  }

  /** Outside quotes, a quote opens them and is not copied. */
  lemma ScanOpeningQuote(s: string, i: nat)
    requires i < |s| && s[i] == '"'
    ensures Scan(s, i, false) == Scan(s, i + 1, true)
  {
  }

  /** Outside quotes, a comma ends the value and is consumed. */
  lemma ScanComma(s: string, i: nat)
    requires i < |s| && s[i] == ','
    ensures Scan(s, i, false) == Scanned([], i + 1)
  {
  }

  /** Inside quotes, a quote not followed by another one closes the quotes. */
  lemma ScanClosingQuote(s: string, i: nat)
    requires i < |s| && s[i] == '"' && (i + 1 == |s| || s[i + 1] != '"')
    ensures Scan(s, i, true) == Scan(s, i + 1, false)
  {
  }

  /** Inside quotes, two quotes read as one. */
  lemma ScanDoubledQuote(s: string, i: nat)
    requires i + 1 < |s| && s[i] == '"' && s[i + 1] == '"'
    ensures Scan(s, i, true) == Scanned(['"'] + Scan(s, i + 2, true).value, Scan(s, i + 2, true).next)
  {
  }

  /** A character that is neither a quote nor a comma outside quotes is copied. */
  lemma ScanChar(s: string, i: nat, inQuotes: bool)
    requires i < |s| && s[i] != '"' && (s[i] != ',' || inQuotes)
    ensures Scan(s, i, inQuotes) == Scanned([s[i]] + Scan(s, i + 1, inQuotes).value, Scan(s, i + 1, inQuotes).next)
  {
  }

  /** A value with every quote doubled, as written inside a quoted field. */
  function Escape(x: string): string
  {
    if x == [] then []
    else (if x[0] == '"' then ['"', '"'] else [x[0]]) + Escape(x[1..])
  }

  /** A value written as a quoted field. */
  function Quote(x: string): string
  {
    ['"'] + Escape(x) + ['"']
  }

  /** Reading inside quotes over an escaped value and its closing quote yields the
      value, and reading then goes on outside quotes after the closing quote. */
  lemma {:induction false} ScanEscaped(p: string, x: string, q: string)
    requires q == [] || q[0] != '"'
    ensures var s := p + Escape(x) + ['"'] + q;
            var r := Scan(s, |s| - |q|, false);
            Scan(s, |p|, true) == Scanned(x + r.value, r.next)
    decreases |x|
  {
    var s := p + Escape(x) + ['"'] + q;
    if x == [] {
      assert s == p + ['"'] + q;
      ScanClosingQuote(s, |p|);
    } else {
      var a: string := if x[0] == '"' then ['"', '"'] else [x[0]];
      EscapeFirst(x);
      EscapeSplit(p, a, Escape(x[1..]), q);
      ScanEscaped(p + a, x[1..], q);
      ScanEscapedHead(s, |p|, x, Scan(s, |s| - |q|, false));
    }
  }

  /** Regrouping the text around the escape of the first character. */
  lemma EscapeSplit(p: string, a: string, e: string, q: string)
    ensures p + (a + e) + ['"'] + q == (p + a) + e + ['"'] + q
    ensures |p + a| == |p| + |a|
  {
    AppendAssoc(p, a, e);
  }

  /** Reading the escape of the first character inside quotes yields it. */
  lemma ScanEscapedHead(s: string, i: nat, x: string, rest: Scanned)
    requires x != [] && i < |s| && s[i] == x[0]
    requires x[0] == '"' ==> i + 1 < |s| && s[i + 1] == '"'
    requires var d := if x[0] == '"' then 2 else 1;
             i + d <= |s| && Scan(s, i + d, true) == Scanned(x[1..] + rest.value, rest.next)
    ensures Scan(s, i, true) == Scanned(x + rest.value, rest.next)
  {
    var d := if x[0] == '"' then 2 else 1;
    var r := Scan(s, i + d, true);
    if x[0] == '"' {
      ScanDoubledQuote(s, i);
    } else {
      ScanChar(s, i, true);
    }
    assert Scan(s, i, true) == Scanned([x[0]] + r.value, r.next);
    ConsAppend(x, rest.value);
  }

  lemma ConsAppend(x: string, y: string)
    requires x != []
    ensures [x[0]] + (x[1..] + y) == x + y
  {
    assert x == [x[0]] + x[1..];
  }

  lemma EscapeFirst(x: string)
    requires x != []
    ensures Escape(x) == (if x[0] == '"' then ['"', '"'] else [x[0]]) + Escape(x[1..])
    ensures |Escape(x)| == (if x[0] == '"' then 2 else 1) + |Escape(x[1..])|
  {
  }

  /** Round trip: a quoted field followed by a comma or by the end of the line
      reads back as the original value, and the comma is consumed. */
  lemma QuotedField(s: string, start: nat, x: string)
    requires start + |Quote(x)| <= |s|
    requires s[start..start + |Quote(x)|] == Quote(x)
    requires start + |Quote(x)| == |s| || s[start + |Quote(x)|] == ','
    ensures var end := start + |Quote(x)|;
            Field(s, start) == Scanned(x, if end == |s| then end else end + 1)
  {
    var end := start + |Quote(x)|;
    var p := s[..start + 1];
    var q := s[end..];
    QuoteSplit(s, start, x);
    assert s[start] == '"';
    ScanOpeningQuote(s, start);
    ScanEscaped(p, x, q);
    var after := Scan(s, end, false);
    assert after == Scanned([], if end == |s| then end else end + 1);
    assert x + [] == x;
  }

  /** A line holding a quoted field at `start`, cut around the field's escaped text. */
  lemma QuoteSplit(s: string, start: nat, x: string)
    requires start + |Quote(x)| <= |s|
    requires s[start..start + |Quote(x)|] == Quote(x)
    ensures var end := start + |Quote(x)|;
            s == s[..start + 1] + Escape(x) + ['"'] + s[end..] && |s[..start + 1]| == start + 1
    ensures s[start] == '"'
  {
    var end := start + |Quote(x)|;
    var e := Escape(x);
    assert s == s[..start] + s[start..end] + s[end..];
    assert s[start..end] == ['"'] + e + ['"'];
    assert s[..start + 1] == s[..start] + ['"'];
    assert s[start] == s[start..end][0];
  }

  /** A value with no quote and no comma is read verbatim, spaces included, up to
      the next comma, which is consumed, or up to the end of the line. */
  lemma {:induction false} PlainField(s: string, start: nat, end: nat)
    requires start <= end <= |s|
    requires forall k :: start <= k < end ==> s[k] != '"' && s[k] != ','
    requires end == |s| || s[end] == ','
    ensures Field(s, start) == Scanned(s[start..end], if end == |s| then end else end + 1)
    decreases end - start
  {
    if start < end {
      PlainField(s, start + 1, end);
      assert s[start..end] == [s[start]] + s[start + 1..end];
    }
  }

  /** Reading past the end of a line keeps giving an empty value. */
  lemma ReadPastEnd(s: string)
    ensures Field(s, |s|) == Scanned([], |s|)
    ensures Field(s, Field(s, |s|).next) == Scanned([], |s|)
  {
  }

  lemma QuotedExamples()
    ensures Field("\"a, b\"", 0).value == "a, b"
    ensures Field("\"a\"\"b\"", 0).value == "a\"b"
  {
    assert Quote("a, b") == "\"a, b\"";
    QuotedField("\"a, b\"", 0, "a, b");
    assert Escape("a\"b") == "a\"\"b";
    QuotedField("\"a\"\"b\"", 0, "a\"b");
  }

  /** The values read by `n` successive calls from `pos`, and the final cursor. */
  datatype Values = Values(values: seq<string>, next: nat)

  function ReadValues(s: string, pos: nat, n: nat): (r: Values)
    requires pos <= |s|
    ensures |r.values| == n && pos <= r.next <= |s|
  {
    if n == 0 then Values([], pos)
    else
      var r := ReadValues(s, pos, n - 1);
      var f := Field(s, r.next);
      Values(r.values + [f.value], f.next)
  }

  /** Reading fewer values reads a prefix of the same values. */
  lemma {:induction false} ReadValuesPrefix(s: string, pos: nat, m: nat, n: nat)
    requires pos <= |s| && m <= n
    ensures ReadValues(s, pos, m).values == ReadValues(s, pos, n).values[..m]
    decreases n - m
  {
    if m < n {
      ReadValuesPrefix(s, pos, m, n - 1);
      var r := ReadValues(s, pos, n - 1);
      assert ReadValues(s, pos, n).values[..n - 1] == r.values;
    }
  }

  /** The value read by call number `i` (from 0) is the field at the cursor the
      earlier calls left, and the cursor moves past it. */
  lemma ReadValuesNext(s: string, pos: nat, i: nat, n: nat)
    requires pos <= |s| && i < n
    ensures var f := Field(s, ReadValues(s, pos, i).next);
            && ReadValues(s, pos, n).values[i] == f.value
            && ReadValues(s, pos, i + 1).next == f.next
  {
    ReadValuesPrefix(s, pos, i + 1, n);
    assert ReadValues(s, pos, n).values[i] == ReadValues(s, pos, n).values[..i + 1][i];
  }

  /** Characters that .NET's String.Trim removes (Char.IsWhiteSpace). */
  predicate IsWhiteSpace(c: char)
  {
    ('\t' <= c <= '\r') || c == ' ' || c as int == 0x85 || c as int == 0xA0
    || c as int == 0x1680 || (0x2000 <= c as int <= 0x200A)
    || c as int == 0x2028 || c as int == 0x2029 || c as int == 0x202F
    || c as int == 0x205F || c as int == 0x3000
  }

  /** `s.Trim().Length == 0`. */
  predicate IsBlank(s: string)
    ensures s == [] ==> IsBlank(s)
  {
    forall i :: 0 <= i < |s| ==> IsWhiteSpace(s[i])
  }

  /** A blank line holds no comma, quote or '#'. */
  lemma BlankHasNoSeparator(s: string)
    requires IsBlank(s)
    ensures ',' !in s && '"' !in s && '#' !in s
  {
  }

  /** String.Split on the separators "\n" and "\r\n" without removing empty
      entries: at each position, a line feed, or a carriage return immediately
      followed by a line feed, ends the current line. */
  function SplitLines(t: string): (lines: seq<string>)
    ensures |lines| > 0
    ensures forall i :: 0 <= i < |lines| ==> '\n' !in lines[i]
    decreases |t|
  {
    if t == [] then [[]]
    else if t[0] == '\n' then [[]] + SplitLines(t[1..])
    else if |t| >= 2 && t[0] == '\r' && t[1] == '\n' then [[]] + SplitLines(t[2..])
    else
      var rest := SplitLines(t[1..]);
      [[t[0]] + rest[0]] + rest[1..]
  }

  /** Joins lines with "\n" separators. */
  function JoinLines(lines: seq<string>): string
    requires |lines| > 0
  {
    if |lines| == 1 then lines[0] else lines[0] + "\n" + JoinLines(lines[1..])
  }

  /** The text with every "\r\n" read as a single "\n", scanning left to right. */
  function NormalizeNewlines(t: string): string
    decreases |t|
  {
    if t == [] then []
    else if |t| >= 2 && t[0] == '\r' && t[1] == '\n' then "\n" + NormalizeNewlines(t[2..])
    else [t[0]] + NormalizeNewlines(t[1..])
  }

  /** Splitting loses nothing but the choice between "\n" and "\r\n". */
  lemma {:induction false} SplitLinesJoin(t: string)
    ensures JoinLines(SplitLines(t)) == NormalizeNewlines(t)
    decreases |t|
  {
    if t == [] {
    } else if t[0] == '\n' {
      SplitLinesJoin(t[1..]);
      assert !(|t| >= 2 && t[0] == '\r');
    } else if |t| >= 2 && t[0] == '\r' && t[1] == '\n' {
      SplitLinesJoin(t[2..]);
    } else {
      var rest := SplitLines(t[1..]);
      SplitLinesJoin(t[1..]);
      if |rest| == 1 {
      } else {
        assert JoinLines([[t[0]] + rest[0]] + rest[1..]) == [t[0]] + rest[0] + "\n" + JoinLines(rest[1..]);
        assert JoinLines(rest) == rest[0] + "\n" + JoinLines(rest[1..]);
      }
    }
  }

  /** Splitting recovers lines that contain no line feed and, except for the
      last, do not end with a carriage return. */
  lemma {:induction false} JoinLinesSplit(lines: seq<string>)
    requires |lines| > 0
    requires forall i :: 0 <= i < |lines| ==> '\n' !in lines[i]
    requires forall i :: 0 <= i < |lines| - 1 ==> lines[i] == [] || lines[i][|lines[i]| - 1] != '\r'
    ensures SplitLines(JoinLines(lines)) == lines
    decreases |lines|, |lines[0]|
  {
    var l := lines[0];
    if |lines| == 1 {
      SplitLineNoFeed(l);
    } else if l == [] {
      JoinLinesSplit(lines[1..]);
      assert JoinLines(lines) == "\n" + JoinLines(lines[1..]);
      assert lines == [[]] + lines[1..];
    } else {
      var t := JoinLines(lines);
      var shorter := [l[1..]] + lines[1..];
      ShorterLines(lines);
      JoinLinesSplit(shorter);
      JoinFirstChar(lines);
      SplitLinesCons(t);
      assert l == [l[0]] + l[1..];
      assert lines == [l] + shorter[1..];
    }
  }

  /** Joining lines whose first line is not empty starts with that line's first
      character, which does not begin a line break, and goes on with the
      shortened lines joined. */
  lemma JoinFirstChar(lines: seq<string>)
    requires |lines| > 1 && lines[0] != []
    requires forall i :: 0 <= i < |lines| ==> '\n' !in lines[i]
    requires lines[0][|lines[0]| - 1] != '\r'
    ensures var t := JoinLines(lines);
            && t != [] && t[0] == lines[0][0] && t[0] != '\n'
            && !(|t| >= 2 && t[0] == '\r' && t[1] == '\n')
            && t[1..] == JoinLines([lines[0][1..]] + lines[1..])
  {
    var l := lines[0];
    var t := JoinLines(lines);
    var shorter := [l[1..]] + lines[1..];
    assert shorter[1..] == lines[1..];
    assert JoinLines(shorter) == l[1..] + "\n" + JoinLines(lines[1..]);
    assert t == [l[0]] + JoinLines(shorter);
    assert l[0] in l;
    if |l| == 1 {
      assert l[|l| - 1] == l[0];
    } else {
      assert t[1] == l[1] && l[1] in l;
    }
  }

  /** A text that does not start with a line break: its first character belongs
      to the first line. */
  lemma SplitLinesCons(t: string)
    requires t != [] && t[0] != '\n' && !(|t| >= 2 && t[0] == '\r' && t[1] == '\n')
    ensures SplitLines(t) == [[t[0]] + SplitLines(t[1..])[0]] + SplitLines(t[1..])[1..]
  {
  }

  /** Dropping the first character of the first line keeps the conditions of
      JoinLinesSplit. */
  lemma ShorterLines(lines: seq<string>)
    requires |lines| > 1 && lines[0] != []
    requires forall i :: 0 <= i < |lines| ==> '\n' !in lines[i]
    requires forall i :: 0 <= i < |lines| - 1 ==> lines[i] == [] || lines[i][|lines[i]| - 1] != '\r'
    ensures var shorter := [lines[0][1..]] + lines[1..];
            && (forall i :: 0 <= i < |shorter| ==> '\n' !in shorter[i])
            && (forall i :: 0 <= i < |shorter| - 1 ==> shorter[i] == [] || shorter[i][|shorter[i]| - 1] != '\r')
  {
    var l := lines[0];
    var shorter := [l[1..]] + lines[1..];
    assert forall c :: c in l[1..] ==> c in l;
    forall i | 0 <= i < |shorter| - 1
      ensures shorter[i] == [] || shorter[i][|shorter[i]| - 1] != '\r'
    {
      if i == 0 {
        assert l[1..] == [] || l[1..][|l[1..]| - 1] == l[|l| - 1];
      } else {
        assert shorter[i] == lines[i];
      }
    }
  }

  lemma {:induction false} SplitLineNoFeed(l: string)
    requires '\n' !in l
    ensures SplitLines(l) == [l]
    decreases |l|
  {
    if l != [] {
      assert forall c :: c in l[1..] ==> c in l;
      SplitLineNoFeed(l[1..]);
      assert l == [l[0]] + l[1..];
    }
  }
}
