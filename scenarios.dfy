/** A worked resource: the header `,en-US,fr-FR` and the row `MyKey,"a, b",1`
    read end to end, from the resource text to the lookups. */
module TableExamples {
  import opened Seqs
  import opened Csv
  import opened TranslationTable
  import opened TableProperties

  const Header: string := ",en-US,fr-FR"
  const Row: string := "MyKey,\"a, b\",1"

  /** The header `,en-US,fr-FR` declares en-US and then fr-FR. */
  lemma ExampleHeader()
    ensures HeaderUsable(Header)
    ensures HeaderCodes(Header) == ["en-US", "fr-FR"]
    ensures LanguageOrder(HeaderCodes(Header)) == ["en-US", "fr-FR"]
  {
    ExampleHeaderCodes();
    assert [DefaultLanguageCode] + ["en-US", "fr-FR"] == ["en-US", "en-US", "fr-FR"];
    assert ["en-US", "en-US", "fr-FR"][..2] == ["en-US", "en-US"];
    assert ["en-US", "en-US"][..1] == ["en-US"];
    assert ["en-US"][..0] == [];
  }

  /** The header's values after its empty first one are en-US and fr-FR. */
  lemma ExampleHeaderCodes()
    ensures HeaderUsable(Header)
    ensures HeaderCodes(Header) == ["en-US", "fr-FR"]
  {
    assert Header[0] == ',' && Header[6] == ',';
    assert Header[1..6] == "en-US" && Header[7..12] == "fr-FR";
    assert !IsBlank(Header) by { assert !IsWhiteSpace(Header[0]); }
    PlainField(Header, 0, 0);
    PlainField(Header, 1, 6);
    PlainField(Header, 7, 12);
    ReadPastEnd(Header);
  }

  /** The row `MyKey,"a, b",1` is the row for MyKey with the cells `a, b` and `1`:
      the quoted cell keeps its comma and loses its quotes. */
  lemma ExampleRow()
    ensures RowKey(Row) == Some("MyKey")
    ensures ReadValues(Row, Field(Row, 0).next, 2).values == ["a, b", "1"]
  {
    ExampleRowKey();
    ExampleRowCells();
  }

  /** The row's first value is its key, `MyKey`; the cursor stops after its comma. */
  lemma ExampleRowKey()
    ensures RowKey(Row) == Some("MyKey") && Field(Row, 0).next == 6
  {
    assert !IsBlank(Row) by { assert !IsWhiteSpace(Row[0]); }
    PlainField(Row, 0, 5);
    assert Row[0..5] == "MyKey";
  }

  /** After the key, the row's cells are `a, b` and `1`. */
  lemma ExampleRowCells()
    ensures ReadValues(Row, 6, 2).values == ["a, b", "1"]
  {
    assert Quote("a, b") == "\"a, b\"";
    assert Row[6..12] == Quote("a, b");
    QuotedField(Row, 6, "a, b");
    PlainField(Row, 13, 14);
    assert Row[13..14] == "1";
    assert ReadValues(Row, 6, 1) == Values(["a, b"], 13);
  }

  /** The resource made of that header and that row splits into those two lines,
      and Initialize loads exactly en-US and fr-FR from them. */
  lemma ExampleLines(keys: seq<string>, text: string, lines: seq<string>)
    requires keys == ["MyKey"] && text == Header + "\n" + Row && lines == [Header, Row]
    ensures SplitLines(text) == lines && HeaderUsable(lines[0])
    ensures Build(keys, Some(text)).langs == Load(keys, lines).langs
    ensures forall c :: c in Load(keys, lines).langs <==> c == "en-US" || c == "fr-FR"
  {
    ExampleSplit(text, lines);
    ExampleHeader();
    BuildLoad(keys, text);
    LoadedLanguages(keys, lines);
  }

  /** The resource splits into the header and the row. */
  lemma ExampleSplit(text: string, lines: seq<string>)
    requires text == Header + "\n" + Row && lines == [Header, Row]
    ensures SplitLines(text) == lines
  {
    assert JoinLines(lines) == text;
    assert '\n' !in Header && '\n' !in Row;
    JoinLinesSplit(lines);
  }

  /** Loading those two lines stores cell i of the row under language i. */
  lemma ExampleCell(keys: seq<string>, lines: seq<string>, codes: seq<string>, cells: seq<string>, i: nat)
    requires keys == ["MyKey"] && lines == [Header, Row] && i < 2
    requires codes == ["en-US", "fr-FR"] && cells == ["a, b", "1"]
    ensures HeaderUsable(lines[0])
    ensures var r := Load(keys, lines).langs;
            codes[i] in r && "MyKey" in r[codes[i]] && r[codes[i]]["MyKey"] == cells[i]
  {
    ExampleFacts(keys, lines, codes, cells);
    assert cells[i] != [] && cells[i][0] != '@';
    VerbatimCellStored(keys, lines, 1, "MyKey", i);
  }

  lemma ExampleFacts(keys: seq<string>, lines: seq<string>, codes: seq<string>, cells: seq<string>)
    requires keys == ["MyKey"] && lines == [Header, Row]
    requires codes == ["en-US", "fr-FR"] && cells == ["a, b", "1"]
    ensures |lines| == 2 && HeaderUsable(lines[0]) && lines[2..] == []
    ensures LanguageOrder(HeaderCodes(lines[0])) == codes
    ensures RowKey(lines[1]) == Some("MyKey") && "MyKey" in keys
    ensures ReadValues(lines[1], Field(lines[1], 0).next, |codes|).values == cells
  {
    ExampleHeader();
    ExampleRow();
  }

  /** Loading those two lines stores `a, b` for en-US and `1` for fr-FR. */
  lemma ExampleStored(keys: seq<string>, lines: seq<string>)
    requires keys == ["MyKey"] && lines == [Header, Row]
    ensures HeaderUsable(lines[0])
    ensures var r := Load(keys, lines).langs;
            && "en-US" in r && "MyKey" in r["en-US"] && r["en-US"]["MyKey"] == "a, b"
            && "fr-FR" in r && "MyKey" in r["fr-FR"] && r["fr-FR"]["MyKey"] == "1"
  {
    ExampleCell(keys, lines, ["en-US", "fr-FR"], ["a, b", "1"], 0);
    ExampleCell(keys, lines, ["en-US", "fr-FR"], ["a, b", "1"], 1);
  }

  /** Lookups in a table that holds exactly en-US and fr-FR. */
  lemma ExampleLookups(langs: Languages)
    requires forall c :: c in langs <==> c == "en-US" || c == "fr-FR"
    requires "MyKey" in langs["en-US"] && langs["en-US"]["MyKey"] == "a, b"
    requires "MyKey" in langs["fr-FR"] && langs["fr-FR"]["MyKey"] == "1"
    ensures Lookup(langs, "MyKey", "en-US") == Some("a, b")
    ensures Lookup(langs, "MyKey", "fr-FR") == Some("1")
    ensures Lookup(langs, "MyKey", "de-DE") == Some("a, b")
  {
    assert "de-DE" !in langs by {
      assert "de-DE"[0] != "en-US"[0] && "de-DE"[0] != "fr-FR"[0];
    }
    LookupFallback(langs, "MyKey", "de-DE");
  }

  /** The whole resource: the quoted cell goes to the default language, the
      second cell to fr-FR, and a language the file does not declare reads as
      the default. */
  lemma QuotedCellRoundTrip(keys: seq<string>, text: string)
    requires keys == ["MyKey"] && text == Header + "\n" + Row
    ensures var t := Build(keys, Some(text));
            && Lookup(t.langs, "MyKey", "en-US") == Some("a, b")
            && Lookup(t.langs, "MyKey", "fr-FR") == Some("1")
            && Lookup(t.langs, "MyKey", "de-DE") == Some("a, b")
  {
    var lines := [Header, Row];
    ExampleLines(keys, text, lines);
    ExampleStored(keys, lines);
    ExampleLookups(Build(keys, Some(text)).langs);
  }
}
