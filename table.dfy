/** The meaning of building the translation table (Localization/Translation.cs,
    Initialize): the languages the header declares, the text each data row
    stores, and the diagnostics logged along the way, as functions of the key
    list and the resource text. The class in translation.dfy is proved to
    compute exactly this. */
module TranslationTable {
  import opened Seqs
  import opened Csv

  /** The language that is always loaded and that unknown languages fall back to. */
  const DefaultLanguageCode: string := "en-US"

  /** One language: translation key to translated text (SingleLanguage). */
  type Language = map<string, string>

  /** All loaded languages: language code to its translations. */
  type Languages = map<string, Language>

  datatype CountKind = LanguageCodeCount | TranslationKeyCount

  datatype Severity = Info | Warning | Error

  /** What Initialize logs. */
  datatype Diagnostic =
    | Initializing
    | ResourceMissing
    | HeaderBlankOrComment
    | DefaultNotFirst
    | CountNotOne(kind: CountKind, name: string, count: int)
    | UnknownKey(key: string)
    | DefaultTextMissing(key: string)
    | InvalidAlias(key: string, languageCode: string, target: string)
  {
    function Level(): Severity
    {
      match this
      case Initializing => Info
      case ResourceMissing => Error
      case HeaderBlankOrComment => Error
      case _ => Warning
    }
  }

  function KeySet(keys: seq<string>): set<string>
  {
    set k | k in keys
  }

  /** A freshly created language: every known key translates to its own name. */
  function Identity(keys: seq<string>): (language: Language)
    ensures language.Keys == KeySet(keys)
    ensures forall k :: k in language ==> language[k] == k
  {
    map k | k in keys :: k
  }

  /** The table's invariant: the default language is loaded and listed first,
      `codes` lists every loaded language once, in the order in which they were
      added, and every language holds an entry for every known key and for
      nothing else. */
  ghost predicate TableInvariant(keys: seq<string>, codes: seq<string>, langs: Languages)
  {
    && |codes| > 0 && codes[0] == DefaultLanguageCode
    && Distinct(codes)
    && (forall c :: c in langs <==> c in codes)
    && (forall c :: c in langs ==> langs[c].Keys == KeySet(keys))
  }

  /** `text` is held by some language of the table. */
  ghost predicate HeldText(langs: Languages, text: string)
  {
    exists c, k :: c in langs && k in langs[c] && langs[c][k] == text
  }

  /** Every stored text is non-empty. */
  ghost predicate TextsNonEmpty(langs: Languages)
  {
    forall c, k :: c in langs && k in langs[c] ==> langs[c][k] != []
  }

  // ---------------------------------------------------------------- header

  /** The first line is usable: neither blank nor a comment. */
  predicate HeaderUsable(header: string)
    ensures HeaderUsable(header) ==> header != [] && header[0] != '#'
    ensures header != [] && header[0] != '#' && !IsWhiteSpace(header[0]) ==> HeaderUsable(header)
  {
    !IsBlank(header) && !("#" <= header)
  }

  /** The values read from `pos` up to, not including, the first empty one. */
  function ValuesUntilEmpty(s: string, pos: nat): (vs: seq<string>)
    requires pos <= |s|
    ensures forall i :: 0 <= i < |vs| ==> vs[i] != []
    ensures |vs| <= |s| - pos
    decreases |s| - pos
  {
    var f := Field(s, pos);
    if f.value == [] then [] else [f.value] + ValuesUntilEmpty(s, f.next)
  }

  /** The language codes of the header: its first value is a placeholder and is
      ignored; codes are read up to the first empty value. */
  function HeaderCodes(header: string): (codes: seq<string>)
    ensures forall i :: 0 <= i < |codes| ==> codes[i] != []
    ensures |codes| <= |header|
  {
    ValuesUntilEmpty(header, Field(header, 0).next)
  }

  /** Reading one more code of the header. */
  lemma HeaderCodesStep(header: string, seen: seq<string>, pos: nat)
    requires pos <= |header| && HeaderCodes(header) == seen + ValuesUntilEmpty(header, pos)
    requires Field(header, pos).value != []
    ensures var f := Field(header, pos);
            HeaderCodes(header) == (seen + [f.value]) + ValuesUntilEmpty(header, f.next)
  {
    var f := Field(header, pos);
    AppendAssoc(seen, [f.value], ValuesUntilEmpty(header, f.next));
  }

  /** The loaded languages in insertion order: the default first, then each code
      of the header that is not loaded yet. */
  function LanguageOrder(headerCodes: seq<string>): seq<string>
  {
    Dedup([DefaultLanguageCode] + headerCodes)
  }

  /** The warning for a header whose first code is not the default. */
  function HeaderDiagnostics(headerCodes: seq<string>): (ws: seq<Diagnostic>)
    ensures forall d :: d in ws ==> d == DefaultNotFirst
    ensures DefaultNotFirst in ws <==> |headerCodes| > 0 && headerCodes[0] != DefaultLanguageCode
    ensures |ws| <= 1
  {
    if |headerCodes| > 0 && headerCodes[0] != DefaultLanguageCode then [DefaultNotFirst] else []
  }

  /** Reading one more header code: a new code is appended to the loaded
      languages, a known one leaves them as they are. */
  lemma HeaderOrderStep(seen: seq<string>, code: string)
    ensures var codes := LanguageOrder(seen);
            && LanguageOrder(seen + [code]) == (if code in codes then codes else codes + [code])
            && (code !in codes ==> code !in seen)
  {
    var codes := LanguageOrder(seen);
    var all := [DefaultLanguageCode] + (seen + [code]);
    assert all == ([DefaultLanguageCode] + seen) + [code];
    assert all[..|all| - 1] == [DefaultLanguageCode] + seen;
    if code !in codes {
      forall j | 0 <= j < |seen|
        ensures seen[j] != code
      {
        assert seen[j] == ([DefaultLanguageCode] + seen)[j + 1];
      }
    }
  }

  /** The warning about the default can only come from the first code. */
  lemma HeaderDiagnosticsStep(seen: seq<string>, code: string)
    ensures HeaderDiagnostics(seen + [code])
            == HeaderDiagnostics(seen) + (if seen == [] && code != DefaultLanguageCode then [DefaultNotFirst] else [])
  {
    if seen != [] {
      assert (seen + [code])[0] == seen[0];
    }
  }

  /** The header's codes read into the table one after the other, as
      Initialize does: the table starts with the default language alone, at
      count 0; a code already loaded is counted once more; a new code is
      appended to the loaded languages with the identity seed and count 1. */
  datatype HeaderState = HeaderState(codes: seq<string>, langs: Languages, counts: map<string, int>)

  function ReadCodes(keys: seq<string>, headerCodes: seq<string>): (r: HeaderState)
    ensures forall c :: c in r.counts <==> c in r.langs
  {
    if headerCodes == [] then
      HeaderState([DefaultLanguageCode], map[DefaultLanguageCode := Identity(keys)], map[DefaultLanguageCode := 0])
    else
      AddCode(keys, ReadCodes(keys, headerCodes[..|headerCodes| - 1]), headerCodes[|headerCodes| - 1])
  }

  /** One code of the header: a loaded code is counted once more; a new one is
      loaded, seeded with every key's name and counted once. */
  function AddCode(keys: seq<string>, st: HeaderState, code: string): (r: HeaderState)
    requires forall c :: c in st.counts <==> c in st.langs
    ensures forall c :: c in r.counts <==> c in r.langs
  {
    if code in st.langs then HeaderState(st.codes, st.langs, st.counts[code := st.counts[code] + 1])
    else HeaderState(st.codes + [code], st.langs[code := Identity(keys)], st.counts[code := 1])
  }

  /** Reading the header keeps the default first, lists every loaded language once,
      counts exactly the loaded languages and seeds each with every key's name. */
  lemma {:induction false} ReadCodesShape(keys: seq<string>, headerCodes: seq<string>)
    ensures var r := ReadCodes(keys, headerCodes);
            && |r.codes| > 0 && r.codes[0] == DefaultLanguageCode && Distinct(r.codes)
            && (forall c :: c in r.langs <==> c in r.codes)
            && (forall c :: c in r.langs ==> r.langs[c] == Identity(keys))
  {
    if headerCodes != [] {
      var seen := headerCodes[..|headerCodes| - 1];
      var code := headerCodes[|headerCodes| - 1];
      var st := ReadCodes(keys, seen);
      assert headerCodes == seen + [code];
      ReadCodesShape(keys, seen);
      ReadCodesSnoc(keys, seen, code);
      if code !in st.langs {
        assert Distinct(st.codes + [code]) by {
          assert forall j :: 0 <= j < |st.codes| ==> (st.codes + [code])[j] == st.codes[j];
        }
      }
    }
  }

  lemma {:induction false} ReadCodesOrder(keys: seq<string>, headerCodes: seq<string>)
    ensures ReadCodes(keys, headerCodes).codes == LanguageOrder(headerCodes)
  {
    if headerCodes != [] {
      var seen := headerCodes[..|headerCodes| - 1];
      var code := headerCodes[|headerCodes| - 1];
      var st := ReadCodes(keys, seen);
      assert headerCodes == seen + [code];
      calc {
        ReadCodes(keys, seen + [code]).codes;
        == { ReadCodesSnoc(keys, seen, code); ReadCodesShape(keys, seen); }
        if code in st.codes then st.codes else st.codes + [code];
        == { ReadCodesOrder(keys, seen); }
        if code in LanguageOrder(seen) then LanguageOrder(seen) else LanguageOrder(seen) + [code];
        == { HeaderOrderStep(seen, code); }
        LanguageOrder(seen + [code]);
      }
    }
  }

  /** Reading one more code, as the body of ReadCodes states it. */
  lemma ReadCodesSnoc(keys: seq<string>, seen: seq<string>, code: string)
    ensures ReadCodes(keys, seen + [code]) == AddCode(keys, ReadCodes(keys, seen), code)
  {
    assert (seen + [code])[..|seen|] == seen;
  }


  /** Each loaded language is counted as often as the header lists it. */
  lemma {:induction false} ReadCodesCounts(keys: seq<string>, headerCodes: seq<string>, c: string)
    requires c in ReadCodes(keys, headerCodes).counts
    ensures ReadCodes(keys, headerCodes).counts[c] == Occurrences(headerCodes, c)
  {
    if headerCodes != [] {
      var seen := headerCodes[..|headerCodes| - 1];
      var code := headerCodes[|headerCodes| - 1];
      var st := ReadCodes(keys, seen);
      assert headerCodes == seen + [code];
      ReadCodesSnoc(keys, seen, code);
      OccurrencesSnoc(seen, code, c);
      if c in st.counts {
        ReadCodesCounts(keys, seen, c);
      } else {
        // A code seen for the first time.
        assert c == code;
        assert Occurrences(seen, code) == 0 by {
          ReadCodesShape(keys, seen);
          FirstSeen(keys, seen, code);
          OccurrencesZero(seen, code);
        }
      }
    }
  }

  /** A code that is not loaded yet has not been read yet. */
  lemma FirstSeen(keys: seq<string>, seen: seq<string>, code: string)
    requires code !in ReadCodes(keys, seen).codes
    ensures code !in seen
  {
    ReadCodesOrder(keys, seen);
    forall j | 0 <= j < |seen|
      ensures seen[j] != code
    {
      assert ([DefaultLanguageCode] + seen)[j + 1] == seen[j];
    }
  }

  /** The table right after the header satisfies the table invariant. */
  lemma HeaderTable(keys: seq<string>, headerCodes: seq<string>)
    ensures var st := ReadCodes(keys, headerCodes);
            TableInvariant(keys, st.codes, st.langs)
  {
    ReadCodesShape(keys, headerCodes);
  }

  /** One warning per name whose count is not exactly 1, in the order of `names`. */
  function CountWarnings(kind: CountKind, names: seq<string>, counts: map<string, int>): (ws: seq<Diagnostic>)
    requires forall i :: 0 <= i < |names| ==> names[i] in counts
    ensures |ws| <= |names|
    ensures forall d :: d in ws ==>
              d.CountNotOne? && d.kind == kind && d.name in names && d.count == counts[d.name] && d.count != 1
  {
    if names == [] then []
    else
      var n := names[|names| - 1];
      CountWarnings(kind, names[..|names| - 1], counts)
        + (if counts[n] != 1 then [CountNotOne(kind, n, counts[n])] else [])
  }

  /** When no name is listed twice, no warning is logged twice. */
  lemma {:induction false} CountWarningsOnce(kind: CountKind, names: seq<string>, counts: map<string, int>, d: Diagnostic)
    requires forall i :: 0 <= i < |names| ==> names[i] in counts
    requires Distinct(names)
    ensures Occurrences(CountWarnings(kind, names, counts), d) <= 1
    decreases |names|
  {
    if names != [] {
      var p := names[..|names| - 1];
      var n := names[|names| - 1];
      var ws := CountWarnings(kind, p, counts);
      var last := if counts[n] != 1 then [CountNotOne(kind, n, counts[n])] else [];
      assert Distinct(p);
      CountWarningsOnce(kind, p, counts, d);
      OccurrencesAppend(ws, last, d);
      if d in last {
        assert n !in p;
        OccurrencesZero(ws, d);
      }
    }
  }

  /** A count warning is logged exactly for the names whose count is not 1. */
  lemma CountWarningsExact(kind: CountKind, names: seq<string>, counts: map<string, int>, d: Diagnostic)
    requires forall i :: 0 <= i < |names| ==> names[i] in counts
    ensures d in CountWarnings(kind, names, counts) <==>
            exists i :: 0 <= i < |names| && counts[names[i]] != 1 && d == CountNotOne(kind, names[i], counts[names[i]])
  {
    if d in CountWarnings(kind, names, counts) {
      CountWarningsSound(kind, names, counts, d);
    }
    if exists i :: 0 <= i < |names| && counts[names[i]] != 1 && d == CountNotOne(kind, names[i], counts[names[i]]) {
      var i :| 0 <= i < |names| && counts[names[i]] != 1 && d == CountNotOne(kind, names[i], counts[names[i]]);
      CountWarningsComplete(kind, names, counts, i);
    }
  }

  /** Every count warning is about a listed name whose count is not 1. */
  lemma {:induction false} CountWarningsSound(kind: CountKind, names: seq<string>, counts: map<string, int>, d: Diagnostic)
    requires forall i :: 0 <= i < |names| ==> names[i] in counts
    requires d in CountWarnings(kind, names, counts)
    ensures exists i :: 0 <= i < |names| && counts[names[i]] != 1 && d == CountNotOne(kind, names[i], counts[names[i]])
    decreases |names|
  {
    var p := names[..|names| - 1];
    var n := names[|names| - 1];
    assert forall i :: 0 <= i < |p| ==> p[i] == names[i];
    if d in CountWarnings(kind, p, counts) {
      CountWarningsSound(kind, p, counts, d);
      var i :| 0 <= i < |p| && counts[p[i]] != 1 && d == CountNotOne(kind, p[i], counts[p[i]]);
      assert names[i] == p[i];
    } else {
      assert counts[n] != 1 && d == CountNotOne(kind, n, counts[n]);
      assert names[|names| - 1] == n;
    }
  }

  /** Every listed name whose count is not 1 gets its warning. */
  lemma {:induction false} CountWarningsComplete(kind: CountKind, names: seq<string>, counts: map<string, int>, i: nat)
    requires forall i :: 0 <= i < |names| ==> names[i] in counts
    requires i < |names| && counts[names[i]] != 1
    ensures CountNotOne(kind, names[i], counts[names[i]]) in CountWarnings(kind, names, counts)
    decreases |names|
  {
    var p := names[..|names| - 1];
    if i < |p| {
      assert p[i] == names[i];
      CountWarningsComplete(kind, p, counts, i);
    }
  }


  // ------------------------------------------------------------------ rows

  /** The key of a data row: None for a blank line and for a line whose first
      value is empty or starts with '#'. */
  function RowKey(line: string): (key: Option<string>)
    ensures key.Some? ==> key.value != [] && key.value[0] != '#'
    ensures IsBlank(line) ==> key.None?
  {
    if IsBlank(line) then None
    else
      var key := Field(line, 0).value;
      if key == [] || "#" <= key then None else Some(key)
  }

  /** A line has a key exactly when it is not blank and its first value is
      neither empty nor a comment; the key is that first value. */
  lemma RowKeyField(line: string)
    ensures RowKey(line).Some? <==> !IsBlank(line) && Field(line, 0).value != [] && Field(line, 0).value[0] != '#'
    ensures RowKey(line).Some? ==> RowKey(line).value == Field(line, 0).value
  {
  }

  /** What a row's cells are resolved against. */
  ghost predicate RowShape(langs: Languages, codes: seq<string>, cells: seq<string>)
  {
    && |codes| > 0 && codes[0] == DefaultLanguageCode
    && |cells| == |codes|
    && (forall j :: 0 <= j < |codes| ==> codes[j] in langs)
  }

  /** The text stored for language `codes[i]` by the row for `key` whose text
      cells are `cells`, against the table `langs` as it was before the row:
      a blank default cell stores the key's own name; a blank cell of another
      language stores what the row stored for the default language (which is
      always the first column); `@@X` stores the text the language held for X
      when X is a key of that language, and stays literal otherwise; anything
      else is stored verbatim. */
  function StoredText(langs: Languages, codes: seq<string>, key: string, cells: seq<string>, i: nat): (t: string)
    requires RowShape(langs, codes, cells) && i < |codes|
    ensures cells[i] != [] && !("@@" <= cells[i]) ==> t == cells[i]
    decreases i
  {
    var text := cells[i];
    if text == [] then
      if codes[i] == DefaultLanguageCode then key else StoredText(langs, codes, key, cells, 0)
    else if "@@" <= text then
      var target := text[2..];
      if target == [] || target !in langs[codes[i]] then text else langs[codes[i]][target]
    else text
  }

  /** No stored text is invented: it is the row's key, one of the row's cells,
      or a text the table already held. */
  lemma {:induction false} StoredTextOrigin(langs: Languages, codes: seq<string>, key: string, cells: seq<string>, i: nat)
    requires RowShape(langs, codes, cells) && i < |codes|
    ensures var t := StoredText(langs, codes, key, cells, i);
            t == key || t in cells || HeldText(langs, t)
  {
    var text := cells[i];
    if text == [] && codes[i] != DefaultLanguageCode {
      StoredTextOrigin(langs, codes, key, cells, 0);
    } else if text != [] && "@@" <= text {
      var target := text[2..];
      if target != [] && target in langs[codes[i]] {
        assert codes[i] in langs && langs[codes[i]][target] == StoredText(langs, codes, key, cells, i);
      }
    }
  }

  /** The warnings logged while resolving cell `i`. */
  function CellDiagnostics(langs: Languages, codes: seq<string>, key: string, cells: seq<string>, i: nat): (ws: seq<Diagnostic>)
    requires RowShape(langs, codes, cells) && i < |codes|
    ensures |ws| <= 1
    ensures forall d :: d in ws ==>
              (d.DefaultTextMissing? || (d.InvalidAlias? && d.languageCode == codes[i])) && d.key == key
    ensures ws != [] ==> StoredText(langs, codes, key, cells, i) == (if cells[i] == [] then key else cells[i])
    ensures ws == [] && cells[i] == [] ==> codes[i] != DefaultLanguageCode
  {
    var text := cells[i];
    if text == [] then
      if codes[i] == DefaultLanguageCode then [DefaultTextMissing(key)] else []
    else if "@@" <= text then
      var target := text[2..];
      if target == [] || target !in langs[codes[i]] then [InvalidAlias(key, codes[i], target)] else []
    else []
  }

  /** The warnings logged while resolving the first `n` cells, in column order. */
  function RowDiagnostics(langs: Languages, codes: seq<string>, key: string, cells: seq<string>, n: nat): (ws: seq<Diagnostic>)
    requires RowShape(langs, codes, cells) && n <= |codes|
    ensures |ws| <= n
    ensures forall d :: d in ws ==> (d.DefaultTextMissing? || d.InvalidAlias?) && d.key == key
  {
    if n == 0 then []
    else RowDiagnostics(langs, codes, key, cells, n - 1) + CellDiagnostics(langs, codes, key, cells, n - 1)
  }

  /** The table after the row for `key`: the i-th text cell goes to the i-th
      loaded language; no other key changes. */
  function ApplyRow(langs: Languages, codes: seq<string>, key: string, cells: seq<string>): (r: Languages)
    requires RowShape(langs, codes, cells)
    ensures r.Keys == langs.Keys
  {
    map c | c in langs ::
      if c in codes then langs[c][key := StoredText(langs, codes, key, cells, IndexOf(codes, c))]
      else langs[c]
  }

  /** The table while a row is being stored, after its first `n` columns. */
  function PartialRow(langs: Languages, codes: seq<string>, key: string, cells: seq<string>, n: nat): (r: Languages)
    requires RowShape(langs, codes, cells) && n <= |codes|
    ensures r.Keys == langs.Keys
  {
    map c | c in langs ::
      if c in codes[..n] then langs[c][key := StoredText(langs, codes, key, cells, IndexOf(codes, c))]
      else langs[c]
  }

  /** Storing column `n` of a row: the column's language has not been touched
      yet in this row, the default language (column 0) already holds the row's
      text, and the column's text is added. */
  lemma PartialRowStep(langs: Languages, codes: seq<string>, key: string, cells: seq<string>, n: nat)
    requires RowShape(langs, codes, cells) && Distinct(codes) && n < |codes|
    ensures var p := PartialRow(langs, codes, key, cells, n);
            && p[codes[n]] == langs[codes[n]]
            && (n > 0 ==> key in p[DefaultLanguageCode] && p[DefaultLanguageCode][key] == StoredText(langs, codes, key, cells, 0))
            && PartialRow(langs, codes, key, cells, n + 1) == p[codes[n] := p[codes[n]][key := StoredText(langs, codes, key, cells, n)]]
  {
    var p := PartialRow(langs, codes, key, cells, n);
    var q := PartialRow(langs, codes, key, cells, n + 1);
    var u := p[codes[n] := p[codes[n]][key := StoredText(langs, codes, key, cells, n)]];
    PrefixStep(codes, n);
    if n > 0 {
      assert codes[0] in codes[..n];
      IndexOfDistinct(codes, 0);
    }
    forall c | c in langs
      ensures q[c] == u[c]
    {
      PartialRowAt(langs, codes, key, cells, n, c);
    }
  }

  /** The first n + 1 codes are the first n ones and then code n, which is not
      among them. */
  lemma PrefixStep(codes: seq<string>, n: nat)
    requires Distinct(codes) && n < |codes|
    ensures forall c :: c in codes[..n + 1] <==> c in codes[..n] || c == codes[n]
    ensures codes[n] !in codes[..n]
  {
    assert codes[..n + 1] == codes[..n] + [codes[n]];
  }

  lemma PartialRowAt(langs: Languages, codes: seq<string>, key: string, cells: seq<string>, n: nat, c: string)
    requires RowShape(langs, codes, cells) && Distinct(codes) && n < |codes| && c in langs
    ensures var p := PartialRow(langs, codes, key, cells, n);
            PartialRow(langs, codes, key, cells, n + 1)[c]
            == p[codes[n] := p[codes[n]][key := StoredText(langs, codes, key, cells, n)]][c]
  {
    PrefixStep(codes, n);
    if c == codes[n] {
      IndexOfDistinct(codes, n);
    }
  }

  /** A row stored up to its last column is the table ApplyRow describes. */
  lemma PartialRowDone(langs: Languages, codes: seq<string>, key: string, cells: seq<string>)
    requires RowShape(langs, codes, cells)
    ensures PartialRow(langs, codes, key, cells, |codes|) == ApplyRow(langs, codes, key, cells)
  {
    assert codes[..|codes|] == codes;
  }

  /** Storing a row for a known key keeps the table invariant. */
  lemma ApplyRowInvariant(keys: seq<string>, langs: Languages, codes: seq<string>, key: string, cells: seq<string>)
    requires TableInvariant(keys, codes, langs) && RowShape(langs, codes, cells) && key in keys
    ensures TableInvariant(keys, codes, ApplyRow(langs, codes, key, cells))
  {
    var r := ApplyRow(langs, codes, key, cells);
    forall c | c in r
      ensures r[c].Keys == KeySet(keys)
    {
      assert key in KeySet(keys);
    }
  }

  /** Resolving a row: the table, the per-key row counts and the log. */
  datatype RowState = RowState(langs: Languages, counts: map<string, int>, log: seq<Diagnostic>)

  /** What processing a line needs: the default language is the first column,
      every column's language is loaded and every known key has a counter. */
  ghost predicate RowReady(keys: seq<string>, codes: seq<string>, st: RowState)
  {
    && |codes| > 0 && codes[0] == DefaultLanguageCode
    && (forall j :: 0 <= j < |codes| ==> codes[j] in st.langs)
    && (forall k :: k in keys ==> k in st.counts)
  }

  lemma InvariantGivesShape(keys: seq<string>, codes: seq<string>, langs: Languages, cells: seq<string>)
    requires TableInvariant(keys, codes, langs) && |cells| == |codes|
    ensures RowShape(langs, codes, cells)
  {
    assert forall j :: 0 <= j < |codes| ==> codes[j] in codes;
  }

  /** A known key's row stored: its cells resolved into the table, its counter
      raised by one and its cell warnings logged in column order. */
  function StoreStep(st: RowState, codes: seq<string>, key: string, cells: seq<string>): RowState
    requires RowShape(st.langs, codes, cells) && key in st.counts
  {
    RowState(ApplyRow(st.langs, codes, key, cells), st.counts[key := st.counts[key] + 1],
             st.log + RowDiagnostics(st.langs, codes, key, cells, |codes|))
  }

  /** A state whose three parts are those of a stored row is that row stored. */
  lemma StoreStepParts(langs: Languages, counts: map<string, int>, log: seq<Diagnostic>,
                       codes: seq<string>, key: string, cells: seq<string>,
                       langs': Languages, counts': map<string, int>, warnings: seq<Diagnostic>)
    requires RowShape(langs, codes, cells) && key in counts
    requires langs' == ApplyRow(langs, codes, key, cells)
    requires counts' == counts[key := counts[key] + 1]
    requires warnings == RowDiagnostics(langs, codes, key, cells, |codes|)
    ensures RowState(langs', counts', log + warnings) == StoreStep(RowState(langs, counts, log), codes, key, cells)
  {
  }

  /** One line of the file after the header: skipped, warned about as an
      unknown key, or resolved into the table. */
  function LineStep(keys: seq<string>, codes: seq<string>, st: RowState, line: string): (r: RowState)
    requires RowReady(keys, codes, st)
    ensures RowReady(keys, codes, r)
  {
    match RowKey(line)
    case None => st
    case Some(key) =>
      if key !in keys then RowState(st.langs, st.counts, st.log + [UnknownKey(key)])
      else
        StoreStep(st, codes, key, ReadValues(line, Field(line, 0).next, |codes|).values)
  }

  /** A blank line, a comment and a row without a key change nothing. */
  lemma LineSkipped(keys: seq<string>, codes: seq<string>, st: RowState, line: string)
    requires RowReady(keys, codes, st) && RowKey(line).None?
    ensures LineStep(keys, codes, st, line) == st
  {
  }

  /** A row for a key that is not known only logs a warning. */
  lemma LineUnknown(keys: seq<string>, codes: seq<string>, st: RowState, line: string)
    requires RowReady(keys, codes, st) && RowKey(line).Some? && RowKey(line).value !in keys
    ensures LineStep(keys, codes, st, line) == RowState(st.langs, st.counts, st.log + [UnknownKey(RowKey(line).value)])
  {
  }

  /** A row for a known key is stored, counted and its warnings logged. */
  lemma LineStored(keys: seq<string>, codes: seq<string>, st: RowState, line: string)
    requires RowReady(keys, codes, st) && RowKey(line).Some? && RowKey(line).value in keys
    ensures var key := RowKey(line).value;
            var cells := ReadValues(line, Field(line, 0).next, |codes|).values;
            && RowShape(st.langs, codes, cells)
            && LineStep(keys, codes, st, line)
               == RowState(ApplyRow(st.langs, codes, key, cells), st.counts[key := st.counts[key] + 1],
                           st.log + RowDiagnostics(st.langs, codes, key, cells, |codes|))
  {
    var cells := ReadValues(line, Field(line, 0).next, |codes|).values;
    assert RowShape(st.langs, codes, cells);
    assert LineStep(keys, codes, st, line) == StoreStep(st, codes, RowKey(line).value, cells);
  }

  /** The lines after the header, processed in order. */
  function Rows(keys: seq<string>, codes: seq<string>, st: RowState, lines: seq<string>): (r: RowState)
    requires RowReady(keys, codes, st)
    ensures RowReady(keys, codes, r)
    decreases |lines|
  {
    if lines == [] then st
    else LineStep(keys, codes, Rows(keys, codes, st, lines[..|lines| - 1]), lines[|lines| - 1])
  }

  /** The keys of the lines that are rows for a known key, in file order. */
  function AcceptedKeys(keys: seq<string>, lines: seq<string>): seq<string>
  {
    if lines == [] then []
    else
      var line := lines[|lines| - 1];
      AcceptedKeys(keys, lines[..|lines| - 1])
        + (if RowKey(line).Some? && RowKey(line).value in keys then [RowKey(line).value] else [])
  }

  function ZeroCounts(keys: seq<string>): map<string, int>
  {
    map k | k in keys :: 0
  }

  /** Processing one more line extends the processing of the earlier ones. */
  lemma RowsSnoc(keys: seq<string>, codes: seq<string>, st: RowState, lines: seq<string>, line: string)
    requires RowReady(keys, codes, st)
    ensures Rows(keys, codes, st, lines + [line]) == LineStep(keys, codes, Rows(keys, codes, st, lines), line)
  {
    assert (lines + [line])[..|lines|] == lines;
  }

  /** A map with exactly the keys, all at 0, is the zero counters. */
  lemma ZeroCountsExt(counts: map<string, int>, keys: seq<string>)
    requires counts.Keys == KeySet(keys) && forall k :: k in counts ==> counts[k] == 0
    ensures counts == ZeroCounts(keys)
  {
  }

  /** A map with exactly the keys, each to itself, is the identity seed. */
  lemma IdentityExt(language: Language, keys: seq<string>)
    requires language.Keys == KeySet(keys) && forall k :: k in language ==> language[k] == k
    ensures language == Identity(keys)
  {
  }

  /** After the header, rows can be stored: the table keeps its invariant and
      every known key has a counter. */
  lemma HeaderStart(keys: seq<string>, hc: seq<string>, log: seq<Diagnostic>)
    ensures var h := ReadCodes(keys, hc);
            RowReady(keys, h.codes, RowState(h.langs, ZeroCounts(keys), log))
  {
    var codes := ReadCodes(keys, hc).codes;
    ReadCodesShape(keys, hc);
    assert forall j :: 0 <= j < |codes| ==> codes[j] in codes;
  }

  /** Processing lines keeps the table invariant. */
  lemma {:induction false} RowsInvariant(keys: seq<string>, codes: seq<string>, st: RowState, lines: seq<string>)
    requires RowReady(keys, codes, st) && TableInvariant(keys, codes, st.langs)
    ensures TableInvariant(keys, codes, Rows(keys, codes, st, lines).langs)
    decreases |lines|
  {
    if lines != [] {
      var prefix := lines[..|lines| - 1];
      var line := lines[|lines| - 1];
      RowsInvariant(keys, codes, st, prefix);
      LineInvariant(keys, codes, Rows(keys, codes, st, prefix), line);
    }
  }

  /** Processing one line keeps the table invariant. */
  lemma LineInvariant(keys: seq<string>, codes: seq<string>, st: RowState, line: string)
    requires RowReady(keys, codes, st) && TableInvariant(keys, codes, st.langs)
    ensures TableInvariant(keys, codes, LineStep(keys, codes, st, line).langs)
  {
    if RowKey(line).Some? && RowKey(line).value in keys {
      LineStored(keys, codes, st, line);
      var cells := ReadValues(line, Field(line, 0).next, |codes|).values;
      ApplyRowInvariant(keys, st.langs, codes, RowKey(line).value, cells);
    }
  }

  /** A table that keeps its invariant, with a counter for every known key, is
      ready for rows. */
  lemma InvariantReady(keys: seq<string>, codes: seq<string>, st: RowState)
    requires TableInvariant(keys, codes, st.langs) && st.counts.Keys == KeySet(keys)
    ensures RowReady(keys, codes, st)
  {
    assert forall j :: 0 <= j < |codes| ==> codes[j] in codes;
  }

  /** What was logged before a line plays no part in how the line is processed. */
  lemma LineStepLog(keys: seq<string>, codes: seq<string>, st: RowState, p: seq<Diagnostic>, line: string)
    requires RowReady(keys, codes, st)
    ensures var r := LineStep(keys, codes, st, line);
            LineStep(keys, codes, RowState(st.langs, st.counts, p + st.log), line) == RowState(r.langs, r.counts, p + r.log)
  {
    match RowKey(line)
    case None =>
    case Some(key) =>
      if key !in keys {
        AppendAssoc(p, st.log, [UnknownKey(key)]);
      } else {
        var cells := ReadValues(line, Field(line, 0).next, |codes|).values;
        AppendAssoc(p, st.log, RowDiagnostics(st.langs, codes, key, cells, |codes|));
      }
  }

  /** What was logged before the rows plays no part in how they are processed. */
  lemma {:induction false} RowsLog(keys: seq<string>, codes: seq<string>, st: RowState, p: seq<Diagnostic>, lines: seq<string>)
    requires RowReady(keys, codes, st)
    ensures var r := Rows(keys, codes, st, lines);
            Rows(keys, codes, RowState(st.langs, st.counts, p + st.log), lines) == RowState(r.langs, r.counts, p + r.log)
    decreases |lines|
  {
    if lines != [] {
      var prefix := lines[..|lines| - 1];
      RowsLog(keys, codes, st, p, prefix);
      LineStepLog(keys, codes, Rows(keys, codes, st, prefix), p, lines[|lines| - 1]);
    }
  }

  // ----------------------------------------------------------------- build

  /** The finished table: the loaded languages in insertion order, their
      translations, and everything Initialize logged. */
  datatype Table = Table(codes: seq<string>, langs: Languages, log: seq<Diagnostic>)

  /** The state once the header is read: the languages it loads, every known key
      at 0 rows, and what reading the header logged, which ends with the language
      count warnings. */
  function AfterHeader(keys: seq<string>, hc: seq<string>): (st: RowState)
    ensures var codes := ReadCodes(keys, hc).codes;
            RowReady(keys, codes, st) && TableInvariant(keys, codes, st.langs)
  {
    var h := ReadCodes(keys, hc);
    ReadCodesShape(keys, hc);
    assert forall j :: 0 <= j < |h.codes| ==> h.codes[j] in h.codes;
    var log := HeaderDiagnostics(hc) + CountWarnings(LanguageCodeCount, h.codes, h.counts);
    HeaderStart(keys, hc, log);
    HeaderTable(keys, hc);
    RowState(h.langs, ZeroCounts(keys), log)
  }

  /** Reading a file whose first line is a usable header: the header, then every
      later line, then the key count warnings. */
  function Load(keys: seq<string>, lines: seq<string>): (t: Table)
    requires |lines| > 0 && HeaderUsable(lines[0])
    ensures TableInvariant(keys, t.codes, t.langs)
  {
    var hc := HeaderCodes(lines[0]);
    var codes := ReadCodes(keys, hc).codes;
    var start := AfterHeader(keys, hc);
    RowsInvariant(keys, codes, start, lines[1..]);
    var st := Rows(keys, codes, start, lines[1..]);
    Table(codes, st.langs, st.log + CountWarnings(TranslationKeyCount, keys, st.counts))
  }

  /** Initialize, for the key list `keys` and the resource text (None when the
      resource is not in the assembly). */
  function Build(keys: seq<string>, resource: Option<string>): (t: Table)
    ensures TableInvariant(keys, t.codes, t.langs)
  {
    var seed := map[DefaultLanguageCode := Identity(keys)];
    match resource
    case None => Table([DefaultLanguageCode], seed, [Initializing, ResourceMissing])
    case Some(text) =>
      var lines := SplitLines(text);
      if !HeaderUsable(lines[0]) then
        Table([DefaultLanguageCode], seed, [Initializing, HeaderBlankOrComment])
      else
        var t := Load(keys, lines);
        Table(t.codes, t.langs, [Initializing] + t.log)
  }

  // ---------------------------------------------------------------- lookup

  /** Get(translationKey, languageCode): a language that is not loaded falls
      back to the default one; None stands for the KeyNotFoundException that a
      key missing from the language raises. */
  function Lookup(langs: Languages, key: string, code: string): (r: Option<string>)
    ensures code in langs && key in langs[code] ==> r == Some(langs[code][key])
    ensures code in langs && key !in langs[code] ==> r == None
  {
    var c := if code in langs then code else DefaultLanguageCode;
    if c in langs && key in langs[c] then Some(langs[c][key]) else None
  }

  /** A language that is not loaded reads as the default language. */
  lemma LookupFallback(langs: Languages, key: string, code: string)
    requires code !in langs
    ensures Lookup(langs, key, code) == Lookup(langs, key, DefaultLanguageCode)
  {
  }

  /** Under the table invariant the lookup succeeds exactly for the known keys,
      whatever language is asked for. */
  lemma LookupTotal(keys: seq<string>, codes: seq<string>, langs: Languages, key: string, code: string)
    requires TableInvariant(keys, codes, langs)
    ensures Lookup(langs, key, code).Some? <==> key in keys
  {
    assert DefaultLanguageCode in codes;
  }
}
