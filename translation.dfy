/** The Translation object (Localization/Translation.cs): the table built in
    place by Initialize and the lookups over it. Each state-changing method is
    proved to produce exactly the state that the functions of TranslationTable
    describe. */
module Translation {
  import opened Seqs
  import opened Csv
  import opened TranslationTable

  /** The SingleLanguage constructor: a language seeded with every key's own name. */
  method NewSingleLanguage(translationKeys: seq<string>) returns (language: Language)
    ensures language.Keys == KeySet(translationKeys)
    ensures forall k :: k in language ==> language[k] == k
  {
    language := map[];
    for i := 0 to |translationKeys|
      invariant language.Keys == KeySet(translationKeys[..i])
      invariant forall k :: k in language ==> language[k] == k
    {
      assert translationKeys[..i + 1] == translationKeys[..i] + [translationKeys[i]];
      language := language[translationKeys[i] := translationKeys[i]];
    }
    assert translationKeys[..|translationKeys|] == translationKeys;
  }

  /** The row counters before any row is read: every known key at 0. */
  method NewKeyCounts(translationKeys: seq<string>) returns (counts: map<string, int>)
    ensures counts.Keys == KeySet(translationKeys)
    ensures forall k :: k in counts ==> counts[k] == 0
  {
    counts := map[];
    for i := 0 to |translationKeys|
      invariant counts.Keys == KeySet(translationKeys[..i])
      invariant forall k :: k in counts ==> counts[k] == 0
    {
      assert translationKeys[..i + 1] == translationKeys[..i] + [translationKeys[i]];
      counts := counts[translationKeys[i] := 0];
    }
    assert translationKeys[..|translationKeys|] == translationKeys;
  }

  /** The "each ... must be defined exactly once" checks: one warning per name
      whose count is not 1, in the order of `names`. */
  method CheckCounts(kind: CountKind, names: seq<string>, counts: map<string, int>) returns (warnings: seq<Diagnostic>)
    requires forall i :: 0 <= i < |names| ==> names[i] in counts
    ensures warnings == CountWarnings(kind, names, counts)
  {
    warnings := [];
    for i := 0 to |names|
      invariant warnings == CountWarnings(kind, names[..i], counts)
    {
      assert names[..i + 1][..i] == names[..i];
      if counts[names[i]] != 1 {
        warnings := warnings + [CountNotOne(kind, names[i], counts[names[i]])];
      }
    }
    assert names[..|names|] == names;
  }

  /** The loop of Initialize over the text cells of the row for `key`, which
      start at `start`: column i goes to the i-th loaded language. Returns the
      updated languages and the warnings logged. */
  method ResolveRow(line: string, start: nat, key: string, languageCodes: seq<string>,
                    languages: Languages, ghost keys: seq<string>)
    returns (langs: Languages, warnings: seq<Diagnostic>)
    requires TableInvariant(keys, languageCodes, languages) && key in keys && start <= |line|
    ensures var cells := ReadValues(line, start, |languageCodes|).values;
            && langs == PartialRow(languages, languageCodes, key, cells, |languageCodes|)
            && warnings == RowDiagnostics(languages, languageCodes, key, cells, |languageCodes|)
  {
    ghost var cells := ReadValues(line, start, |languageCodes|).values;
    InvariantGivesShape(keys, languageCodes, languages, cells);
    langs, warnings := languages, [];
    var pos := start;
    for i := 0 to |languageCodes|
      invariant pos == ReadValues(line, start, i).next
      invariant langs == PartialRow(languages, languageCodes, key, cells, i)
      invariant warnings == RowDiagnostics(languages, languageCodes, key, cells, i)
    {
      var languageCode := languageCodes[i];
      var translatedText;
      ReadValuesNext(line, start, i, |languageCodes|);
      translatedText, pos := ReadCsvValue(line, pos);
      PartialRowStep(languages, languageCodes, key, cells, i);
      var cellWarnings;
      translatedText, cellWarnings := ResolveText(langs, languageCode, key, translatedText, languages, languageCodes, cells, i);
      warnings := warnings + cellWarnings;
      langs := langs[languageCode := langs[languageCode][key := translatedText]];
    }
  }

  /** The text stored for one cell of the row for `key` in column `i`, and the
      warning it logs, if any: a blank cell takes the key's name (default
      language) or what the default language now holds for the key; an `@@`
      reference takes the referenced key's current text in the same language
      when that key is present, and stays literal otherwise. `languages` is the
      table as it is now, `table` the table before the row, `cells` the row's
      text cells. */
  method ResolveText(languages: Languages, languageCode: string, key: string, text: string,
                     ghost table: Languages, ghost codes: seq<string>, ghost cells: seq<string>, ghost i: nat)
    returns (translatedText: string, warnings: seq<Diagnostic>)
    requires RowShape(table, codes, cells) && Distinct(codes) && i < |codes|
    requires languageCode == codes[i] && text == cells[i]
    requires languageCode in languages && DefaultLanguageCode in languages
    requires languages[languageCode] == table[languageCode]
    requires i > 0 ==> (key in languages[DefaultLanguageCode]
                        && languages[DefaultLanguageCode][key] == StoredText(table, codes, key, cells, 0))
    ensures translatedText == StoredText(table, codes, key, cells, i)
    ensures warnings == CellDiagnostics(table, codes, key, cells, i)
  {
    translatedText, warnings := text, [];
    if translatedText == [] {
      if languageCode == DefaultLanguageCode {
        warnings := [DefaultTextMissing(key)];
        translatedText := key;
      } else {
        // The default language is the first column, so this row has already resolved it.
        translatedText := languages[DefaultLanguageCode][key];
      }
    } else if "@@" <= translatedText {
      var atAtKey := translatedText[2..];
      if atAtKey == [] || atAtKey !in languages[languageCode] {
        warnings := [InvalidAlias(key, languageCode, atAtKey)];
      } else {
        translatedText := languages[languageCode][atAtKey];
      }
    }
  }

  /** The start of a line's processing in Initialize: a blank line, and a line
      whose first value is empty or starts with '#', have no key; otherwise the
      key is the first value and the cursor is left after it. */
  method ReadRowKey(line: string) returns (key: Option<string>, pos: nat)
    ensures key == RowKey(line) && pos <= |line|
    ensures key.Some? ==> pos == Field(line, 0).next
  {
    key, pos := None, 0;
    if !IsBlank(line) {
      var keyFromFile;
      keyFromFile, pos := ReadCsvValue(line, 0);
      if keyFromFile != [] && !("#" <= keyFromFile) {
        key := Some(keyFromFile);
      }
    }
  }

  class Translation {
    /** The known translation keys (the constant names of UITranslationKey). */
    var translationKeys: seq<string>
    /** The loaded language codes in the order the dictionary enumerates them. */
    var codes: seq<string>
    /** Language code to its translations. */
    var languages: Languages
    /** Everything logged so far. */
    var diagnostics: seq<Diagnostic>

    ghost predicate Valid()
      reads this`translationKeys, this`codes, this`languages
    {
      Distinct(translationKeys) && TableInvariant(translationKeys, codes, languages)
    }

    /** The singleton's constructor, which runs Initialize: builds the table
        from the key list and the resource text (None when the resource is not
        in the assembly). */
    constructor (fieldNames: seq<string>, resource: Option<string>)
      requires Distinct(fieldNames)
      ensures Valid() && translationKeys == fieldNames
      ensures var t := Build(fieldNames, resource);
              codes == t.codes && languages == t.langs && diagnostics == t.log
    {
      diagnostics := [Initializing];
      translationKeys := fieldNames;

      // Start with just the default language.
      var single := NewSingleLanguage(fieldNames);
      IdentityExt(single, fieldNames);
      languages := map[DefaultLanguageCode := single];
      codes := [DefaultLanguageCode];
      new;

      if resource.None? {
        diagnostics := diagnostics + [ResourceMissing];
        return;
      }
      var lines := SplitLines(resource.value);

      if !HeaderUsable(lines[0]) {
        diagnostics := diagnostics + [HeaderBlankOrComment];
        return;
      }
      ReadLines(lines);
    }

    /** The part of Initialize after a usable header line: reads the header, checks
        the language counts, reads the rows and checks the key counts. */
    method ReadLines(lines: seq<string>)
      requires Valid() && |lines| > 0 && HeaderUsable(lines[0])
      requires codes == [DefaultLanguageCode] && languages == map[DefaultLanguageCode := Identity(translationKeys)]
      modifies this
      ensures Valid() && translationKeys == old(translationKeys)
      ensures var t := Load(translationKeys, lines);
              codes == t.codes && languages == t.langs && diagnostics == old(diagnostics) + t.log
    {
      ghost var p := diagnostics;
      ghost var hc := HeaderCodes(lines[0]);
      var languageCodeCount := ReadHeader(lines[0]);
      var warnings := CheckCounts(LanguageCodeCount, codes, languageCodeCount);
      diagnostics := diagnostics + warnings;
      AppendAssoc(p, HeaderDiagnostics(hc), warnings);

      var translationKeyCount := NewKeyCounts(translationKeys);
      ZeroCountsExt(translationKeyCount, translationKeys);
      ghost var start := AfterHeader(translationKeys, hc);
      InvariantReady(translationKeys, codes, RowState(languages, translationKeyCount, diagnostics));
      translationKeyCount := ReadRows(lines[1..], translationKeyCount);
      RowsLog(translationKeys, codes, start, p, lines[1..]);
      ghost var st := Rows(translationKeys, codes, start, lines[1..]);

      warnings := CheckCounts(TranslationKeyCount, translationKeys, translationKeyCount);
      diagnostics := diagnostics + warnings;
      AppendAssoc(p, st.log, warnings);
    }

    /** The loop of Initialize over the lines after the header; returns the
        updated row counters. */
    method ReadRows(lines: seq<string>, translationKeyCount: map<string, int>) returns (counts: map<string, int>)
      requires Valid() && RowReady(translationKeys, codes, RowState(languages, translationKeyCount, diagnostics))
      modifies this
      ensures Valid() && codes == old(codes) && translationKeys == old(translationKeys)
      ensures RowState(languages, counts, diagnostics)
              == Rows(translationKeys, codes, RowState(old(languages), translationKeyCount, old(diagnostics)), lines)
    {
      counts := translationKeyCount;
      ghost var start := RowState(languages, counts, diagnostics);
      for i := 0 to |lines|
        invariant Valid() && codes == old(codes) && translationKeys == old(translationKeys)
        invariant RowState(languages, counts, diagnostics) == Rows(translationKeys, codes, start, lines[..i])
      {
        RowsSnoc(translationKeys, codes, start, lines[..i], lines[i]);
        assert lines[..i + 1] == lines[..i] + [lines[i]];
        counts := ProcessLine(lines[i], codes, counts);
      }
      assert lines[..|lines|] == lines;
    }

    /** Reads the language codes of the first line into the table and returns
        how often each loaded language was listed. */
    method ReadHeader(header: string) returns (languageCodeCount: map<string, int>)
      requires Valid() && codes == [DefaultLanguageCode]
      requires languages == map[DefaultLanguageCode := Identity(translationKeys)]
      modifies this
      ensures Valid() && translationKeys == old(translationKeys)
      ensures var hc := HeaderCodes(header);
              var h := ReadCodes(translationKeys, hc);
              && codes == h.codes && languages == h.langs && languageCodeCount == h.counts
              && diagnostics == old(diagnostics) + HeaderDiagnostics(hc)
    {
      languageCodeCount := map[DefaultLanguageCode := 0];

      // The first value is a placeholder.
      var placeholder, pos := ReadCsvValue(header, 0);
      ghost var before := pos;
      ghost var seen: seq<string> := [];
      var count := 0;
      var languageCode;
      languageCode, pos := ReadCsvValue(header, pos);
      while languageCode != []
        invariant before <= |header| && Scanned(languageCode, pos) == Field(header, before)
        invariant HeaderCodes(header) == seen + ValuesUntilEmpty(header, before)
        invariant count == |seen|
        invariant translationKeys == old(translationKeys)
        invariant HeaderState(codes, languages, languageCodeCount) == ReadCodes(translationKeys, seen)
        invariant diagnostics == old(diagnostics) + HeaderDiagnostics(seen)
        decreases |header| - before
      {
        ReadCodesSnoc(translationKeys, seen, languageCode);
        HeaderDiagnosticsStep(seen, languageCode);
        languageCodeCount := AddLanguageCode(languageCode, languageCodeCount);
        if count == 0 && languageCode != DefaultLanguageCode {
          diagnostics := diagnostics + [DefaultNotFirst];
        }
        HeaderCodesStep(header, seen, before);
        count := count + 1;
        seen := seen + [languageCode];
        before := pos;
        languageCode, pos := ReadCsvValue(header, pos);
      }
      assert seen + [] == seen;
      HeaderTable(translationKeys, seen);
    }

    /** One code of the header: a loaded code is counted once more; a new one is
        added to the table with a fresh SingleLanguage and counted once. */
    method AddLanguageCode(languageCode: string, languageCodeCount: map<string, int>) returns (counts: map<string, int>)
      requires forall c :: c in languageCodeCount <==> c in languages
      modifies this
      ensures translationKeys == old(translationKeys) && diagnostics == old(diagnostics)
      ensures HeaderState(codes, languages, counts)
              == AddCode(translationKeys, HeaderState(old(codes), old(languages), languageCodeCount), languageCode)
    {
      if languageCode in languages {
        counts := languageCodeCount[languageCode := languageCodeCount[languageCode] + 1];
      } else {
        var single := NewSingleLanguage(translationKeys);
        IdentityExt(single, translationKeys);
        languages := languages[languageCode := single];
        codes := codes + [languageCode];
        counts := languageCodeCount[languageCode := 1];
      }
    }

    /** Processes one line after the header and returns the updated row counters. */
    method ProcessLine(line: string, languageCodes: seq<string>, translationKeyCount: map<string, int>)
      returns (counts: map<string, int>)
      requires Valid() && languageCodes == codes
      requires RowReady(translationKeys, codes, RowState(languages, translationKeyCount, diagnostics))
      modifies this
      ensures Valid() && codes == old(codes) && translationKeys == old(translationKeys)
      ensures RowState(languages, counts, diagnostics)
              == LineStep(translationKeys, languageCodes, RowState(old(languages), translationKeyCount, old(diagnostics)), line)
    {
      ghost var st := RowState(languages, translationKeyCount, diagnostics);
      counts := translationKeyCount;
      var key, pos := ReadRowKey(line);
      if key.None? {
        assert st == LineStep(translationKeys, languageCodes, st, line) by {
          LineSkipped(translationKeys, languageCodes, st, line);
        }
      } else if key.value !in translationKeys {
        diagnostics := diagnostics + [UnknownKey(key.value)];
        assert RowState(languages, counts, diagnostics) == LineStep(translationKeys, languageCodes, st, line) by {
          LineUnknown(translationKeys, languageCodes, st, line);
        }
      } else {
        counts := StoreRow(line, pos, key.value, languageCodes, counts);
        assert key.value == RowKey(line).value && pos == Field(line, 0).next;
      }
    }

    /** Counts the row for the known key `key` and resolves its text cells, which
        start at `start`, into the loaded languages, column i to the i-th loaded
        language. Returns the updated row counters. */
    method StoreRow(line: string, start: nat, key: string, languageCodes: seq<string>, translationKeyCount: map<string, int>)
      returns (counts: map<string, int>)
      requires Valid() && languageCodes == codes && key in translationKeys && start <= |line|
      requires key in translationKeyCount
      modifies this
      ensures Valid() && codes == old(codes) && translationKeys == old(translationKeys)
      ensures RowState(languages, counts, diagnostics)
              == StoreStep(RowState(old(languages), translationKeyCount, old(diagnostics)),
                           languageCodes, key, ReadValues(line, start, |languageCodes|).values)
    {
      counts := translationKeyCount[key := translationKeyCount[key] + 1];
      ghost var cells := ReadValues(line, start, |languageCodes|).values;
      var langs, warnings := ResolveRow(line, start, key, languageCodes, languages, translationKeys);
      InvariantGivesShape(translationKeys, languageCodes, languages, cells);
      PartialRowDone(languages, languageCodes, key, cells);
      StoreStepParts(languages, translationKeyCount, diagnostics, languageCodes, key, cells, langs, counts, warnings);
      ApplyRowInvariant(translationKeys, languages, languageCodes, key, cells);
      languages, diagnostics := langs, diagnostics + warnings;
    }

    /** The language codes that are loaded, the default among them. */
    function LanguageCodes(): (r: seq<string>)
      reads this
      requires Valid()
      ensures forall c :: c in r <==> c in languages
      ensures Distinct(r) && |r| > 0 && r[0] == DefaultLanguageCode
    {
      codes
    }

    /** The text of `translationKey` in `languageCode`, or in the default language
        when `languageCode` is not loaded; None stands for the
        KeyNotFoundException that an unknown key raises. */
    function Get(translationKey: string, languageCode: string): (r: Option<string>)
      reads this
      ensures r == Lookup(languages, translationKey, languageCode)
      ensures Valid() ==> (r.Some? <==> translationKey in translationKeys)
    {
      LookupTotalFor(translationKey, languageCode);
      Lookup(languages, translationKey, languageCode)
    }

    lemma LookupTotalFor(translationKey: string, languageCode: string)
      ensures Valid() ==> (Lookup(languages, translationKey, languageCode).Some? <==> translationKey in translationKeys)
    {
      if Valid() {
        LookupTotal(translationKeys, codes, languages, translationKey, languageCode);
      }
    }
  }
}
