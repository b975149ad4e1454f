/** What building the translation table guarantees (Localization/Translation.cs,
    Initialize and Get): the seeding invariant, how each cell of a row is
    resolved, which rows win, what the count checks report, and what a lookup
    returns on the finished table. */
module TableProperties {
  import opened Seqs
  import opened Csv
  import opened TranslationTable

  // ------------------------------------------------------- fallback tables

  /** A missing resource, or a first line that is blank or a comment, leaves the
      default language alone, seeded with identity text, and logs one error. */
  lemma FallbackTable(keys: seq<string>, resource: Option<string>)
    requires resource.None? || !HeaderUsable(SplitLines(resource.value)[0])
    ensures var t := Build(keys, resource);
            && t.codes == [DefaultLanguageCode]
            && t.langs == map[DefaultLanguageCode := Identity(keys)]
            && |t.log| == 2 && t.log[1].Level() == Error
  {
  }

  /** With the fallback table every lookup of a known key, in any language,
      returns the key itself. */
  lemma FallbackLookup(keys: seq<string>, resource: Option<string>, key: string, code: string)
    requires resource.None? || !HeaderUsable(SplitLines(resource.value)[0])
    requires key in keys
    ensures Lookup(Build(keys, resource).langs, key, code) == Some(key)
  {
    FallbackTable(keys, resource);
  }

  /** With a usable first line, Initialize logs that it starts and then loads
      the lines of the resource. */
  lemma BuildLoad(keys: seq<string>, text: string)
    requires HeaderUsable(SplitLines(text)[0])
    ensures var t := Build(keys, Some(text));
            var l := Load(keys, SplitLines(text));
            t == Table(l.codes, l.langs, [Initializing] + l.log)
  {
  }

  // ------------------------------------------------------------ the header

  /** The loaded languages are the default first, then the header's codes in
      first-seen order, each once. */
  lemma LoadedLanguages(keys: seq<string>, lines: seq<string>)
    requires |lines| > 0 && HeaderUsable(lines[0])
    ensures Load(keys, lines).codes == LanguageOrder(HeaderCodes(lines[0]))
    ensures forall c :: c in Load(keys, lines).langs <==> c == DefaultLanguageCode || c in HeaderCodes(lines[0])
  {
    ReadCodesOrder(keys, HeaderCodes(lines[0]));
  }

  /** Processing rows only appends to the log, and what it appends holds no
      count warning. */
  lemma {:induction false} RowsNoCount(keys: seq<string>, codes: seq<string>, st: RowState, lines: seq<string>)
    requires RowReady(keys, codes, st)
    ensures var log := Rows(keys, codes, st, lines).log;
            && st.log <= log
            && forall d :: d in log[|st.log|..] ==> !d.CountNotOne?
    decreases |lines|
  {
    if lines != [] {
      var prefix := lines[..|lines| - 1];
      var line := lines[|lines| - 1];
      var mid := Rows(keys, codes, st, prefix);
      var r := LineStep(keys, codes, mid, line);
      RowsNoCount(keys, codes, st, prefix);
      LineNoCount(keys, codes, mid, line);
      NoCountAppended(st.log, mid.log, r.log);
    }
  }

  /** Two extensions of a log that hold no count warning make one. */
  lemma NoCountAppended(a: seq<Diagnostic>, b: seq<Diagnostic>, c: seq<Diagnostic>)
    requires a <= b && b <= c
    requires forall d :: d in b[|a|..] ==> !d.CountNotOne?
    requires forall d :: d in c[|b|..] ==> !d.CountNotOne?
    ensures a <= c && forall d :: d in c[|a|..] ==> !d.CountNotOne?
  {
    assert c[|a|..] == b[|a|..] + c[|b|..];
  }

  /** Processing one line only appends to the log, and never a count warning. */
  lemma LineNoCount(keys: seq<string>, codes: seq<string>, st: RowState, line: string)
    requires RowReady(keys, codes, st)
    ensures var log := LineStep(keys, codes, st, line).log;
            && st.log <= log
            && forall d :: d in log[|st.log|..] ==> !d.CountNotOne?
  {
    if RowKey(line).Some? && RowKey(line).value in keys {
      LineStored(keys, codes, st, line);
      var cells := ReadValues(line, Field(line, 0).next, |codes|).values;
      assert LineStep(keys, codes, st, line).log[|st.log|..]
             == RowDiagnostics(st.langs, codes, RowKey(line).value, cells, |codes|);
    }
  }

  /** A count warning occurs in a log made of warnings without counts, the
      language counts, more warnings without counts and the key counts, as often
      as it occurs in the counts of its own kind. */
  lemma CountOccurrences(header: seq<Diagnostic>, codeWarnings: seq<Diagnostic>, rows: seq<Diagnostic>,
                         keyWarnings: seq<Diagnostic>, d: Diagnostic)
    requires d.CountNotOne?
    requires forall x :: x in header + rows ==> !x.CountNotOne?
    requires forall x :: x in codeWarnings ==> x.CountNotOne? && x.kind == LanguageCodeCount
    requires forall x :: x in keyWarnings ==> x.CountNotOne? && x.kind == TranslationKeyCount
    ensures var n := Occurrences(header + codeWarnings + rows + keyWarnings, d);
            n == if d.kind == LanguageCodeCount then Occurrences(codeWarnings, d) else Occurrences(keyWarnings, d)
  {
    OccurrencesAppend(header + codeWarnings + rows, keyWarnings, d);
    OccurrencesAppend(header + codeWarnings, rows, d);
    OccurrencesAppend(header, codeWarnings, d);
    assert d !in header && d !in rows;
    OccurrencesZero(header, d);
    OccurrencesZero(rows, d);
    if d.kind == LanguageCodeCount {
      OccurrencesZero(keyWarnings, d);
    } else {
      OccurrencesZero(codeWarnings, d);
    }
  }

  /** The state once every line after the header is read. */
  ghost function LoadedRows(keys: seq<string>, lines: seq<string>): (st: RowState)
    requires |lines| > 0
    ensures forall k :: k in keys ==> k in st.counts
  {
    var hc := HeaderCodes(lines[0]);
    Rows(keys, ReadCodes(keys, hc).codes, AfterHeader(keys, hc), lines[1..])
  }

  /** The warnings that the lines after the header add to the log. */
  ghost function RowsTail(keys: seq<string>, lines: seq<string>): (rows: seq<Diagnostic>)
    requires |lines| > 0
    ensures forall x :: x in rows ==> !x.CountNotOne?
  {
    var hc := HeaderCodes(lines[0]);
    var start := AfterHeader(keys, hc);
    RowsNoCount(keys, ReadCodes(keys, hc).codes, start, lines[1..]);
    LoadedRows(keys, lines).log[|start.log|..]
  }

  /** The count warnings of one kind that loading the lines logs. */
  ghost function KindWarnings(keys: seq<string>, lines: seq<string>, kind: CountKind): (ws: seq<Diagnostic>)
    requires |lines| > 0
    ensures forall x :: x in ws ==> x.CountNotOne? && x.kind == kind
  {
    var hc := HeaderCodes(lines[0]);
    var h := ReadCodes(keys, hc);
    if kind == LanguageCodeCount then
      ReadCodesShape(keys, hc);
      assert forall i :: 0 <= i < |h.codes| ==> h.codes[i] in h.codes;
      CountWarnings(LanguageCodeCount, h.codes, h.counts)
    else
      CountWarnings(TranslationKeyCount, keys, LoadedRows(keys, lines).counts)
  }

  /** The loaded log in four parts: the header's warning, the language count
      warnings, the rows' warnings and the key count warnings. */
  lemma LoadLog(keys: seq<string>, lines: seq<string>)
    requires |lines| > 0 && HeaderUsable(lines[0])
    ensures Load(keys, lines).log
            == HeaderDiagnostics(HeaderCodes(lines[0])) + KindWarnings(keys, lines, LanguageCodeCount)
               + RowsTail(keys, lines) + KindWarnings(keys, lines, TranslationKeyCount)
  {
    var hc := HeaderCodes(lines[0]);
    var h := ReadCodes(keys, hc);
    var start := AfterHeader(keys, hc);
    var st := Rows(keys, h.codes, start, lines[1..]);
    RowsNoCount(keys, h.codes, start, lines[1..]);
    assert st == LoadedRows(keys, lines);
    assert st.log == start.log + RowsTail(keys, lines);
    ReadCodesShape(keys, hc);
    assert forall i :: 0 <= i < |h.codes| ==> h.codes[i] in h.codes;
    assert start.log == HeaderDiagnostics(hc) + KindWarnings(keys, lines, LanguageCodeCount);
    assert Load(keys, lines).log == st.log + KindWarnings(keys, lines, TranslationKeyCount);
  }

  /** How often a count warning occurs in the loaded log: as often as in the
      count warnings of its own kind. */
  lemma LoadLogOccurrences(keys: seq<string>, lines: seq<string>, d: Diagnostic)
    requires |lines| > 0 && HeaderUsable(lines[0]) && d.CountNotOne?
    ensures Occurrences(Load(keys, lines).log, d) == Occurrences(KindWarnings(keys, lines, d.kind), d)
    ensures d in Load(keys, lines).log <==> d in KindWarnings(keys, lines, d.kind)
  {
    LoadLog(keys, lines);
    CountOccurrences(HeaderDiagnostics(HeaderCodes(lines[0])), KindWarnings(keys, lines, LanguageCodeCount),
                     RowsTail(keys, lines), KindWarnings(keys, lines, TranslationKeyCount), d);
    OccurrencesZero(Load(keys, lines).log, d);
    OccurrencesZero(KindWarnings(keys, lines, d.kind), d);
  }

  /** No count warning of a kind is listed twice: the loaded codes are
      distinct, and the known keys are when the caller's are. */
  lemma KindWarningsOnce(keys: seq<string>, lines: seq<string>, kind: CountKind, d: Diagnostic)
    requires |lines| > 0
    requires kind == TranslationKeyCount ==> Distinct(keys)
    ensures Occurrences(KindWarnings(keys, lines, kind), d) <= 1
  {
    var hc := HeaderCodes(lines[0]);
    var h := ReadCodes(keys, hc);
    if kind == LanguageCodeCount {
      ReadCodesShape(keys, hc);
      assert forall i :: 0 <= i < |h.codes| ==> h.codes[i] in h.codes;
      CountWarningsOnce(LanguageCodeCount, h.codes, h.counts, d);
    } else {
      CountWarningsOnce(TranslationKeyCount, keys, LoadedRows(keys, lines).counts, d);
    }
  }

  /** A count warning is logged at most once: the loaded codes are distinct,
      and so are the known keys. */
  lemma LoggedOnce(keys: seq<string>, lines: seq<string>, d: Diagnostic)
    requires |lines| > 0 && HeaderUsable(lines[0]) && d.CountNotOne?
    requires d.kind == TranslationKeyCount ==> Distinct(keys)
    ensures Occurrences(Load(keys, lines).log, d) == if d in Load(keys, lines).log then 1 else 0
  {
    LoadLogOccurrences(keys, lines, d);
    KindWarningsOnce(keys, lines, d.kind, d);
    OccurrencesZero(Load(keys, lines).log, d);
  }

  /** The language count warnings of a header: one for each loaded code that
      the header does not list exactly once. */
  lemma HeaderCountWarning(keys: seq<string>, hc: seq<string>, c: string, n: int)
    ensures var h := ReadCodes(keys, hc);
            && (forall i :: 0 <= i < |h.codes| ==> h.codes[i] in h.counts)
            && (CountNotOne(LanguageCodeCount, c, n) in CountWarnings(LanguageCodeCount, h.codes, h.counts)
                <==> (c == DefaultLanguageCode || c in hc) && n == Occurrences(hc, c) && n != 1)
  {
    var h := ReadCodes(keys, hc);
    var d := CountNotOne(LanguageCodeCount, c, n);
    ReadCodesShape(keys, hc);
    ReadCodesOrder(keys, hc);
    assert forall i :: 0 <= i < |h.codes| ==> h.codes[i] in h.codes;
    CountWarningsExact(LanguageCodeCount, h.codes, h.counts, d);
    if c in h.codes {
      ReadCodesCounts(keys, hc, c);
      var i := IndexOf(h.codes, c);
      if (c == DefaultLanguageCode || c in hc) && n == Occurrences(hc, c) && n != 1 {
        assert h.counts[h.codes[i]] == n;
      }
    }
  }

  /** A language count warning is logged exactly for the loaded codes that the
      header does not list exactly once, the default included, with the number
      of times it lists them. */
  lemma LanguageCountWarning(keys: seq<string>, lines: seq<string>, c: string, n: int)
    requires |lines| > 0 && HeaderUsable(lines[0])
    ensures var hc := HeaderCodes(lines[0]);
            CountNotOne(LanguageCodeCount, c, n) in Load(keys, lines).log
            <==> (c == DefaultLanguageCode || c in hc) && n == Occurrences(hc, c) && n != 1
    ensures var hc := HeaderCodes(lines[0]);
            Occurrences(Load(keys, lines).log, CountNotOne(LanguageCodeCount, c, n))
            == if (c == DefaultLanguageCode || c in hc) && n == Occurrences(hc, c) && n != 1 then 1 else 0
  {
    var hc := HeaderCodes(lines[0]);
    var d := CountNotOne(LanguageCodeCount, c, n);
    var expected := (c == DefaultLanguageCode || c in hc) && n == Occurrences(hc, c) && n != 1;
    LoadLogOccurrences(keys, lines, d);
    assert d in KindWarnings(keys, lines, LanguageCodeCount) <==> expected by {
      var h := ReadCodes(keys, hc);
      HeaderCountWarning(keys, hc, c, n);
      assert KindWarnings(keys, lines, LanguageCodeCount) == CountWarnings(LanguageCodeCount, h.codes, h.counts);
    }
    LoggedOnce(keys, lines, d);
  }

  /** Counting rows: every row for a known key counts once for that key. */
  lemma {:induction false} RowsCounts(keys: seq<string>, codes: seq<string>, st: RowState, lines: seq<string>, k: string)
    requires RowReady(keys, codes, st) && k in keys
    ensures Rows(keys, codes, st, lines).counts[k] == st.counts[k] + Occurrences(AcceptedKeys(keys, lines), k)
    decreases |lines|
  {
    if lines != [] {
      var prefix := lines[..|lines| - 1];
      var line := lines[|lines| - 1];
      RowsCounts(keys, codes, st, prefix, k);
      var accepted := if RowKey(line).Some? && RowKey(line).value in keys then [RowKey(line).value] else [];
      OccurrencesAppend(AcceptedKeys(keys, prefix), accepted, k);
    }
  }

  /** A key count warning is logged exactly for the known keys that do not have
      exactly one row, with their number of rows. */
  lemma KeyCountWarning(keys: seq<string>, lines: seq<string>, k: string, n: int)
    requires |lines| > 0 && HeaderUsable(lines[0])
    ensures CountNotOne(TranslationKeyCount, k, n) in Load(keys, lines).log
            <==> k in keys && n == Occurrences(AcceptedKeys(keys, lines[1..]), k) && n != 1
    ensures Distinct(keys) ==>
              Occurrences(Load(keys, lines).log, CountNotOne(TranslationKeyCount, k, n))
              == if k in keys && n == Occurrences(AcceptedKeys(keys, lines[1..]), k) && n != 1 then 1 else 0
  {
    var d := CountNotOne(TranslationKeyCount, k, n);
    var expected := k in keys && n == Occurrences(AcceptedKeys(keys, lines[1..]), k) && n != 1;
    LoadLogOccurrences(keys, lines, d);
    assert d in KindWarnings(keys, lines, TranslationKeyCount) <==> expected by {
      var hc := HeaderCodes(lines[0]);
      var h := ReadCodes(keys, hc);
      var start := AfterHeader(keys, hc);
      var st := Rows(keys, h.codes, start, lines[1..]);
      assert st == LoadedRows(keys, lines);
      CountWarningsExact(TranslationKeyCount, keys, st.counts, d);
      if k in keys {
        RowsCounts(keys, h.codes, start, lines[1..], k);
        var i :| 0 <= i < |keys| && keys[i] == k;
        if n == Occurrences(AcceptedKeys(keys, lines[1..]), k) && n != 1 {
          assert st.counts[keys[i]] == n;
        }
      }
    }
    if Distinct(keys) {
      LoggedOnce(keys, lines, d);
    }
  }

  // ---------------------------------------------------------------- cells

  /** How a cell is resolved, in terms of the known keys and column positions:
      column 0 is the default language. A blank default cell stores the key and
      warns; a blank cell of another column stores what the row stored for the
      default language; `@@X` with X a known key stores X's current text in the
      same language; `@@` followed by nothing or by an unknown key is stored as
      written, with a warning; anything else is stored verbatim. */
  lemma CellResolution(keys: seq<string>, codes: seq<string>, langs: Languages, key: string, cells: seq<string>, i: nat)
    requires TableInvariant(keys, codes, langs) && |cells| == |codes| && i < |codes|
    ensures RowShape(langs, codes, cells)
    ensures var t := StoredText(langs, codes, key, cells, i);
            var w := CellDiagnostics(langs, codes, key, cells, i);
            var text := cells[i];
            var alias := text != [] && "@@" <= text;
            var target := if alias then text[2..] else [];
            && (text == [] && i == 0 ==> t == key && w == [DefaultTextMissing(key)])
            && (text == [] && i > 0 ==> t == StoredText(langs, codes, key, cells, 0) && w == [])
            && (alias && target != [] && target in keys ==> t == langs[codes[i]][target] && w == [])
            && (alias && (target == [] || target !in keys) ==> t == text && w == [InvalidAlias(key, codes[i], target)])
            && (text != [] && !alias ==> t == text && w == [])
  {
    InvariantGivesShape(keys, codes, langs, cells);
    if i > 0 {
      assert codes[i] != codes[0];
    }
  }

  /** A row stores cell i under the i-th loaded language, for its own key only. */
  lemma ApplyRowAt(langs: Languages, codes: seq<string>, key: string, cells: seq<string>, i: nat, k: string, c: string)
    requires RowShape(langs, codes, cells) && Distinct(codes) && i < |codes|
    requires c in langs && k in langs[c]
    ensures var r := ApplyRow(langs, codes, key, cells);
            && key in r[codes[i]] && r[codes[i]][key] == StoredText(langs, codes, key, cells, i)
            && k in r[c] && (k != key ==> r[c][k] == langs[c][k])
  {
    IndexOfDistinct(codes, i);
  }

  /** Every stored text is non-empty when no known key is the empty string. */
  lemma {:induction false} StoredTextNonEmpty(langs: Languages, codes: seq<string>, key: string, cells: seq<string>, i: nat)
    requires RowShape(langs, codes, cells) && i < |codes| && key != [] && TextsNonEmpty(langs)
    ensures StoredText(langs, codes, key, cells, i) != []
  {
    if cells[i] == [] && codes[i] != DefaultLanguageCode {
      StoredTextNonEmpty(langs, codes, key, cells, 0);
    }
  }

  lemma LineNonEmpty(keys: seq<string>, codes: seq<string>, st: RowState, line: string)
    requires RowReady(keys, codes, st) && TableInvariant(keys, codes, st.langs) && TextsNonEmpty(st.langs)
    requires forall k :: k in keys ==> k != []
    ensures TextsNonEmpty(LineStep(keys, codes, st, line).langs)
  {
    if RowKey(line).Some? && RowKey(line).value in keys {
      var key := RowKey(line).value;
      var cells := ReadValues(line, Field(line, 0).next, |codes|).values;
      LineStored(keys, codes, st, line);
      var r := ApplyRow(st.langs, codes, key, cells);
      forall c, k | c in r && k in r[c]
        ensures r[c][k] != []
      {
        if k == key {
          StoredTextNonEmpty(st.langs, codes, key, cells, IndexOf(codes, c));
        }
      }
    }
  }

  lemma {:induction false} RowsNonEmpty(keys: seq<string>, codes: seq<string>, st: RowState, lines: seq<string>)
    requires RowReady(keys, codes, st) && TableInvariant(keys, codes, st.langs) && TextsNonEmpty(st.langs)
    requires forall k :: k in keys ==> k != []
    ensures TextsNonEmpty(Rows(keys, codes, st, lines).langs)
    decreases |lines|
  {
    if lines != [] {
      var prefix := lines[..|lines| - 1];
      RowsNonEmpty(keys, codes, st, prefix);
      RowsInvariant(keys, codes, st, prefix);
      LineNonEmpty(keys, codes, Rows(keys, codes, st, prefix), lines[|lines| - 1]);
    }
  }

  /** When no known key is the empty string, every lookup of a known key in any
      language returns a non-empty text. */
  lemma LookupNonEmpty(keys: seq<string>, resource: Option<string>, key: string, code: string)
    requires forall k :: k in keys ==> k != []
    requires key in keys
    ensures var r := Lookup(Build(keys, resource).langs, key, code);
            r.Some? && r.value != []
  {
    var t := Build(keys, resource);
    LookupTotal(keys, t.codes, t.langs, key, code);
    if resource.Some? && HeaderUsable(SplitLines(resource.value)[0]) {
      var lines := SplitLines(resource.value);
      var hc := HeaderCodes(lines[0]);
      var codes := ReadCodes(keys, hc).codes;
      var start := AfterHeader(keys, hc);
      ReadCodesShape(keys, hc);
      RowsNonEmpty(keys, codes, start, lines[1..]);
    }
  }

  // ----------------------------------------------------------------- rows

  /** The state just before line n of the file (n >= 1) is processed. */
  ghost function Before(keys: seq<string>, lines: seq<string>, n: nat): (st: RowState)
    requires |lines| > 0 && HeaderUsable(lines[0]) && 1 <= n <= |lines|
    ensures RowReady(keys, LanguageOrder(HeaderCodes(lines[0])), st)
    ensures TableInvariant(keys, LanguageOrder(HeaderCodes(lines[0])), st.langs)
  {
    var hc := HeaderCodes(lines[0]);
    var codes := ReadCodes(keys, hc).codes;
    ReadCodesOrder(keys, hc);
    RowsInvariant(keys, codes, AfterHeader(keys, hc), lines[1..n]);
    Rows(keys, codes, AfterHeader(keys, hc), lines[1..n])
  }

  lemma {:induction false} RowsAppend(keys: seq<string>, codes: seq<string>, st: RowState, a: seq<string>, b: seq<string>)
    requires RowReady(keys, codes, st)
    ensures Rows(keys, codes, st, a + b) == Rows(keys, codes, Rows(keys, codes, st, a), b)
    decreases |b|
  {
    if b == [] {
      assert a + b == a;
    } else {
      var b' := b[..|b| - 1];
      assert (a + b)[..|a + b| - 1] == a + b';
      assert (a + b)[|a + b| - 1] == b[|b| - 1];
      RowsAppend(keys, codes, st, a, b');
    }
  }

  /** Lines without a row for key k leave k's text in every language as it was. */
  lemma {:induction false} OtherRowsKeep(keys: seq<string>, codes: seq<string>, st: RowState, lines: seq<string>, k: string, c: string)
    requires RowReady(keys, codes, st) && Distinct(codes) && c in st.langs && k in st.langs[c]
    requires k !in AcceptedKeys(keys, lines)
    ensures var r := Rows(keys, codes, st, lines).langs;
            c in r && k in r[c] && r[c][k] == st.langs[c][k]
    decreases |lines|
  {
    if lines != [] {
      var prefix := lines[..|lines| - 1];
      var line := lines[|lines| - 1];
      var mid := Rows(keys, codes, st, prefix);
      RowsOneLine(keys, codes, st, prefix, line, lines);
      OtherRowsKeep(keys, codes, st, prefix, k, c);
      if RowKey(line).Some? && RowKey(line).value in keys {
        var cells := ReadValues(line, Field(line, 0).next, |codes|).values;
        LineStored(keys, codes, mid, line);
        ApplyRowAt(mid.langs, codes, RowKey(line).value, cells, 0, k, c);
      }
    }
  }

  /** The last line of a non-empty list, split off. */
  lemma RowsOneLine(keys: seq<string>, codes: seq<string>, st: RowState, prefix: seq<string>, line: string, lines: seq<string>)
    requires RowReady(keys, codes, st) && lines == prefix + [line]
    ensures AcceptedKeys(keys, lines) == AcceptedKeys(keys, prefix)
              + (if RowKey(line).Some? && RowKey(line).value in keys then [RowKey(line).value] else [])
  {
    assert lines[..|lines| - 1] == prefix;
  }

  /** Line n, a row for the known key `key`, followed by the lines after it. */
  lemma SplitAt(keys: seq<string>, lines: seq<string>, n: nat)
    requires |lines| > 0 && HeaderUsable(lines[0]) && 1 <= n < |lines|
    ensures var codes := ReadCodes(keys, HeaderCodes(lines[0])).codes;
            && Load(keys, lines).langs == Rows(keys, codes, Before(keys, lines, n + 1), lines[n + 1..]).langs
            && Before(keys, lines, n + 1) == LineStep(keys, codes, Before(keys, lines, n), lines[n])
  {
    var hc := HeaderCodes(lines[0]);
    var codes := ReadCodes(keys, hc).codes;
    var start := AfterHeader(keys, hc);
    var a, b, c := lines[1..n], lines[1..n + 1], lines[n + 1..];
    assert b == a + [lines[n]];
    assert lines[1..] == b + c;
    RowsAppend(keys, codes, start, b, c);
    RowsSnoc(keys, codes, start, a, lines[n]);
    assert Before(keys, lines, n + 1) == Rows(keys, codes, start, b);
    assert Before(keys, lines, n) == Rows(keys, codes, start, a);
    assert Load(keys, lines).langs == Rows(keys, codes, start, lines[1..]).langs;
  }

  /** The last row for a key wins: if line n is a row for the known key `key`
      and no later line is, the finished table holds what line n stored, in
      every language. */
  lemma LastRowWins(keys: seq<string>, lines: seq<string>, n: nat, key: string, i: nat)
    requires |lines| > 0 && HeaderUsable(lines[0]) && 1 <= n < |lines|
    requires RowKey(lines[n]) == Some(key) && key in keys
    requires key !in AcceptedKeys(keys, lines[n + 1..])
    requires i < |LanguageOrder(HeaderCodes(lines[0]))|
    ensures var codes := LanguageOrder(HeaderCodes(lines[0]));
            var cells := ReadValues(lines[n], Field(lines[n], 0).next, |codes|).values;
            var before := Before(keys, lines, n).langs;
            var r := Load(keys, lines).langs;
            && RowShape(before, codes, cells)
            && codes[i] in r && key in r[codes[i]]
            && r[codes[i]][key] == StoredText(before, codes, key, cells, i)
  {
    var hc := HeaderCodes(lines[0]);
    var codes := LanguageOrder(hc);
    ReadCodesOrder(keys, hc);
    var cells := ReadValues(lines[n], Field(lines[n], 0).next, |codes|).values;
    var before := Before(keys, lines, n);
    var after := Before(keys, lines, n + 1);
    SplitAt(keys, lines, n);
    assert after == LineStep(keys, codes, before, lines[n]);
    LineStoresAt(keys, codes, before, lines[n], key, i);
    var stored := after.langs[codes[i]][key];
    assert stored == StoredText(before.langs, codes, key, cells, i);
    var fin := Rows(keys, codes, after, lines[n + 1..]);
    assert Load(keys, lines).langs == fin.langs;
    OtherRowsKeep(keys, codes, after, lines[n + 1..], key, codes[i]);
    assert fin.langs[codes[i]][key] == stored;
  }

  /** A row for the known key `key` stores cell i under the i-th loaded language. */
  lemma LineStoresAt(keys: seq<string>, codes: seq<string>, st: RowState, line: string, key: string, i: nat)
    requires RowReady(keys, codes, st) && TableInvariant(keys, codes, st.langs)
    requires RowKey(line) == Some(key) && key in keys && i < |codes|
    ensures var cells := ReadValues(line, Field(line, 0).next, |codes|).values;
            var r := LineStep(keys, codes, st, line).langs;
            && RowShape(st.langs, codes, cells)
            && codes[i] in r && key in r[codes[i]]
            && r[codes[i]][key] == StoredText(st.langs, codes, key, cells, i)
  {
    var cells := ReadValues(line, Field(line, 0).next, |codes|).values;
    LineStored(keys, codes, st, line);
    assert codes[i] in codes;
    ApplyRowAt(st.langs, codes, key, cells, i, key, codes[i]);
  }

  /** A cell that is neither blank nor an `@@` reference, on the last row for its
      key, is the key's text in the finished table for that column's language. */
  lemma VerbatimCellStored(keys: seq<string>, lines: seq<string>, n: nat, key: string, i: nat)
    requires |lines| > 0 && HeaderUsable(lines[0]) && 1 <= n < |lines|
    requires RowKey(lines[n]) == Some(key) && key in keys
    requires key !in AcceptedKeys(keys, lines[n + 1..])
    requires i < |LanguageOrder(HeaderCodes(lines[0]))|
    ensures var codes := LanguageOrder(HeaderCodes(lines[0]));
            var text := ReadValues(lines[n], Field(lines[n], 0).next, |codes|).values[i];
            var r := Load(keys, lines).langs;
            text != [] && !("@@" <= text) ==> codes[i] in r && key in r[codes[i]] && r[codes[i]][key] == text
  {
    LastRowWins(keys, lines, n, key, i);
  }

  /** An `@@X` cell with X a known key stores the text X holds in the same
      language when the row is read, whether X's own row came earlier (its
      resolved text) or has not come yet (its identity seed). */
  lemma AliasResolves(keys: seq<string>, lines: seq<string>, n: nat, key: string, i: nat, target: string)
    requires |lines| > 0 && HeaderUsable(lines[0]) && 1 <= n < |lines|
    requires RowKey(lines[n]) == Some(key) && key in keys && target in keys && target != []
    requires i < |LanguageOrder(HeaderCodes(lines[0]))|
    requires ReadValues(lines[n], Field(lines[n], 0).next, |LanguageOrder(HeaderCodes(lines[0]))|).values[i] == "@@" + target
    ensures var c := LanguageOrder(HeaderCodes(lines[0]))[i];
            Before(keys, lines, n + 1).langs[c][key] == Before(keys, lines, n).langs[c][target]
  {
    var hc := HeaderCodes(lines[0]);
    var codes := LanguageOrder(hc);
    ReadCodesOrder(keys, hc);
    var cells := ReadValues(lines[n], Field(lines[n], 0).next, |codes|).values;
    var before := Before(keys, lines, n);
    SplitAt(keys, lines, n);
    LineStored(keys, codes, before, lines[n]);
    assert codes[i] in codes && codes[0] in codes;
    ApplyRowAt(before.langs, codes, key, cells, i, key, codes[i]);
    CellResolution(keys, codes, before.langs, key, cells, i);
    assert "@@" <= cells[i] && cells[i][2..] == target;
  }

  /** A forward reference: when X has no row before line n, an `@@X` cell on line
      n stores X's identity seed, the text X, and logs nothing. */
  lemma ForwardAliasSeed(keys: seq<string>, lines: seq<string>, n: nat, key: string, i: nat, target: string)
    requires |lines| > 0 && HeaderUsable(lines[0]) && 1 <= n < |lines|
    requires RowKey(lines[n]) == Some(key) && key in keys && target in keys && target != []
    requires target !in AcceptedKeys(keys, lines[1..n])
    requires i < |LanguageOrder(HeaderCodes(lines[0]))|
    requires ReadValues(lines[n], Field(lines[n], 0).next, |LanguageOrder(HeaderCodes(lines[0]))|).values[i] == "@@" + target
    ensures var c := LanguageOrder(HeaderCodes(lines[0]))[i];
            Before(keys, lines, n + 1).langs[c][key] == target
  {
    var hc := HeaderCodes(lines[0]);
    var codes := LanguageOrder(hc);
    var c := codes[i];
    ReadCodesOrder(keys, hc);
    ReadCodesShape(keys, hc);
    var start := AfterHeader(keys, hc);
    assert c in codes;
    AliasResolves(keys, lines, n, key, i, target);
    OtherRowsKeep(keys, codes, start, lines[1..n], target, c);
  }

  /** Alias by an earlier row: when line n's cell for language c is `@@X` and
      neither the key nor X has a later row, the finished table gives both keys
      the same text in c. */
  lemma AliasSameText(keys: seq<string>, lines: seq<string>, n: nat, key: string, i: nat, target: string)
    requires |lines| > 0 && HeaderUsable(lines[0]) && 1 <= n < |lines|
    requires RowKey(lines[n]) == Some(key) && key in keys && target in keys && target != [] && target != key
    requires i < |LanguageOrder(HeaderCodes(lines[0]))|
    requires ReadValues(lines[n], Field(lines[n], 0).next, |LanguageOrder(HeaderCodes(lines[0]))|).values[i] == "@@" + target
    requires key !in AcceptedKeys(keys, lines[n + 1..]) && target !in AcceptedKeys(keys, lines[n + 1..])
    ensures var c := LanguageOrder(HeaderCodes(lines[0]))[i];
            var r := Load(keys, lines).langs;
            c in r && key in r[c] && target in r[c] && r[c][key] == r[c][target]
  {
    var hc := HeaderCodes(lines[0]);
    var codes := LanguageOrder(hc);
    var c := codes[i];
    ReadCodesOrder(keys, hc);
    var before := Before(keys, lines, n);
    var after := Before(keys, lines, n + 1);
    assert c in codes && codes[0] in codes;
    AliasResolves(keys, lines, n, key, i, target);
    SplitAt(keys, lines, n);
    var cells := ReadValues(lines[n], Field(lines[n], 0).next, |codes|).values;
    LineStored(keys, codes, before, lines[n]);
    ApplyRowAt(before.langs, codes, key, cells, i, target, c);
    OtherRowsKeep(keys, codes, after, lines[n + 1..], key, c);
    OtherRowsKeep(keys, codes, after, lines[n + 1..], target, c);
  }
}

