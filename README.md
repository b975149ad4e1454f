# Translation table of the performance-monitor mod, in Dafny

This project models the mod's translation table, `Localization/Translation.cs`.
At start-up the table reads a CSV-like resource. The first line lists language
codes. Every later line holds a translation key followed by one text per
language. The table then answers `Get(key, languageCode)`.

The model has five parts:

- `Csv` (csv.dfy): the quote-aware value reader `ReadCSVValue` and the line splitting. The reader is a method over a line and a cursor, proved equal to a small automaton (`Scan`/`Field`).
- `TranslationTable` (table.dfy): what `Initialize` means, as functions of the key list and the resource text. It covers:
  - the header's languages (`ReadCodes`) and their dictionary order (`LanguageOrder`);
  - the text each cell stores (`StoredText`) and the effect of a row (`ApplyRow`, `LineStep`, `Rows`);
  - the log (`Diagnostic`);
  - the whole build (`Build`) and the lookup (`Lookup`).
- `Translation` (translation.dfy): the `Translation` object itself. It is a class whose fields `languages`, `codes` and `diagnostics` are updated in place by the constructor and its helper methods. Each method follows the loops of `Initialize`, and each is proved to leave exactly the state that the `TranslationTable` functions describe. `Get` and `LanguageCodes` are read-only functions of the fields.
- `TableProperties` (properties.dfy): what the build guarantees. It covers the seeding invariant, the fallback table, the header's languages and their counts, how cells and `@@` aliases resolve, that the last row for a key wins, the key counts, and non-empty lookups.
- `TableExamples` (scenarios.dfy): one resource read end to end, from the text `,en-US,fr-FR` / `MyKey,"a, b",1` to the lookups.

Inputs that the program gets from outside are parameters here:

- The known translation keys are a sequence without repetitions. The program gets them by reflection over `UITranslationKey`.
- The resource is `Option<string>`. `None` stands for a resource that is not in the assembly.
- The log is a sequence of `Diagnostic` values, appended in the order `LogUtil` would print them.

Two consequences of the code that its own file notes do not spell out:

- **Forward `@@` references.** The file note at Localization/Translation.cs:51 asks that a key referenced with `@@` be read before the line that references it. The code does not enforce this. Every known key is seeded into every language before any row is read (lines 69-72 and 155), so the validity test at line 238 accepts any known key. A forward reference therefore stores X's current text, which is its identity seed `X` unless X already had a row. `ForwardAliasSeed` proves this. Only an empty reference or an unknown key stays literal, with a warning.
- **Column order.** Text column i goes to the i-th entry of `_languages.Keys` (line 188). That list starts with the default code, inserted at line 102, followed by the header's new codes in first-seen order. The file notes at lines 37-38 ask that the default code come first and that no code repeat; with such a header, column i is the header's i-th code. The code does not enforce either note (it only warns), and `ApplyRowAt` states the rule as the code applies it. So the first text column always feeds the default language, and a repeated header code shifts the later columns. The blank-cell fallback therefore always reads the default text that the same row has already stored.

## Model

| member | source | states |
|---|---|---|
| `Csv.ReadCsvValue` | Localization/Translation.cs:277-333 | The reader loop returns exactly the value and cursor of the reading automaton `Field`: quotes toggle quoted mode and are dropped, `""` inside quotes gives one `"`, and a comma outside quotes ends the value and is consumed. |
| `Csv.Field` | Localization/Translation.cs:277-333 | The value read from a cursor, starting outside quotes. The cursor after it never moves back or past the end of the line, and a non-empty value consumes at least one character. The `Scan*` lemmas and the round-trip lemmas below say what the value is. |
| `Csv.Scan` | Localization/Translation.cs:283-329 | The reader's automaton from a position and a quoting state. The cursor stays within the line and advances whenever a character is left. At the end of the line the value is empty. The value is never longer than the characters consumed. |
| `Csv.ScanOpeningQuote` | Localization/Translation.cs:308-313 | A quote outside quotes opens quoted mode and is not copied. |
| `Csv.ScanClosingQuote` | Localization/Translation.cs:301-306 | Inside quotes, a quote not followed by another quote closes quoted mode and is not copied. |
| `Csv.ScanDoubledQuote` | Localization/Translation.cs:294-300 | Inside quotes, two quotes consume both characters and emit one quote. |
| `Csv.ScanComma` | Localization/Translation.cs:317-321 | A comma outside quotes ends the value, is consumed and is not copied. |
| `Csv.ScanChar` | Localization/Translation.cs:323-324 | Every other character, a comma inside quotes included, is copied. |
| `Csv.PlainField` | Localization/Translation.cs:282-332 | A value without quotes or commas is read verbatim, spaces included, up to the next comma (consumed) or the end of the line. |
| `Csv.QuotedField` | Localization/Translation.cs:288-324 | Round trip: a value written as a quoted field, with every quote doubled, reads back as the value, and the following comma is consumed. |
| `Csv.ReadPastEnd` | Localization/Translation.cs:284-285 | At the end of the line the reader returns the empty value and leaves the cursor at the end, so later reads return the empty value again. |
| `Csv.QuotedExamples` | Localization/Translation.cs:46-49 | `"a, b"` reads as `a, b` and `"a""b"` reads as `a"b`. |
| `Csv.ReadValuesNext` | Localization/Translation.cs:214-217 | The i-th of successive reads is the field at the cursor that the earlier reads left. |
| `Csv.SplitLinesJoin` | Localization/Translation.cs:118 | Splitting on `\n` and `\r\n` and joining with `\n` loses only the difference between the two separators. |
| `Csv.JoinLinesSplit` | Localization/Translation.cs:118 | Splitting recovers any lines that hold no line feed and, except the last, do not end with a carriage return. |
| `Csv.SplitLines` | Localization/Translation.cs:118 | Splitting the resource text on `\n` and `\r\n` yields at least one line, and no line holds a line feed. `SplitLinesJoin` and `JoinLinesSplit` relate it to joining. |
| `Csv.IsBlank` | Localization/Translation.cs:123 | `Trim().Length == 0`, as also used at line 193. The empty line is blank. |
| `Csv.BlankHasNoSeparator` | Localization/Translation.cs:123 | A blank line holds no comma, quote or `#`, so it carries neither a key nor a code. |
| `TranslationTable.Identity` | Localization/Translation.cs:64-74 | A new language maps exactly the known keys, each to its own name. |
| `TranslationTable.HeaderUsable` | Localization/Translation.cs:123 | A usable first line is not empty and does not start with `#`. Any line whose first character is neither white space nor `#` is usable. |
| `TranslationTable.ValuesUntilEmpty` | Localization/Translation.cs:141-168 | The values read from a cursor up to the first empty one. None of them is empty, and there are no more of them than characters left. |
| `TranslationTable.HeaderCodes` | Localization/Translation.cs:138-168 | The header's codes: the first value is ignored and codes are read up to the first empty value. No code is empty, and there are no more codes than the header has characters. |
| `TranslationTable.ReadCodes` | Localization/Translation.cs:129-157 | Reading the header's codes one after the other keeps a counter for exactly the loaded languages. The three lemmas below give the result's shape, order and counts. |
| `TranslationTable.AddCode` | Localization/Translation.cs:146-157 | One more code keeps a counter for exactly the loaded languages. `Translation.Translation.AddLanguageCode` is proved to compute it. |
| `TranslationTable.HeaderDiagnostics` | Localization/Translation.cs:159-163 | Reading the header logs at most one warning, `DefaultNotFirst`, and logs it exactly when the first code is not the default. |
| `TranslationTable.ReadCodesShape` | Localization/Translation.cs:100-169 | After the header, the default language is loaded and listed first, every loaded code is listed once, and every loaded language maps each known key to its own name. |
| `TranslationTable.ReadCodesOrder` | Localization/Translation.cs:102-157 | The loaded languages, in dictionary order, are the default code followed by the header's new codes in first-seen order. |
| `TranslationTable.ReadCodesCounts` | Localization/Translation.cs:129-157 | Each loaded code is counted exactly as often as the header lists it. The default code starts at 0. |
| `Seqs.DedupFirstSeenOrder` | Localization/Translation.cs:155 | A code listed earlier among the loaded languages first occurs earlier in the header. |
| `TranslationTable.CountWarnings` | Localization/Translation.cs:171-178 | Every warning is a count warning of the loop's kind, for a listed name, and carries that name's count, which is not 1. There are no more warnings than names. The key loop at lines 259-266 is the same function over the known keys. |
| `TranslationTable.CountWarningsExact` | Localization/Translation.cs:171-178 | A count warning is logged for a name exactly when its count is not 1, and it carries that count. |
| `TranslationTable.CountWarningsOnce` | Localization/Translation.cs:259-266 | When no name is listed twice, no warning is logged twice. |
| `TranslationTable.RowKey` | Localization/Translation.cs:191-201 | A key is never empty and never starts with `#`, and a blank line has no key. |
| `TranslationTable.RowKeyField` | Localization/Translation.cs:191-201 | A line has a key exactly when it is not blank and its first value is non-empty and does not start with `#`. The key is that first value. |
| `TranslationTable.StoredText` | Localization/Translation.cs:216-248 | A non-blank cell that does not start with `@@` is stored as written. `CellResolution` gives the other cases. |
| `TranslationTable.StoredTextOrigin` | Localization/Translation.cs:216-248 | No stored text is invented: it is the row's key, one of the row's cells, or a text the table already held. |
| `TranslationTable.CellDiagnostics` | Localization/Translation.cs:216-248 | At most one warning per cell, about the row's key: a missing default text, or an invalid `@@` reference in that column's language. A warned cell stores the key (a blank default cell) or its own text as written (an invalid reference). A blank cell without a warning is not the default language's. |
| `TranslationTable.RowDiagnostics` | Localization/Translation.cs:213-252 | A row logs at most one warning per column. Each one is a missing-default or invalid-reference warning about the row's key, never a count warning. |
| `TranslationTable.ApplyRow` | Localization/Translation.cs:214-251 | Storing a row keeps the set of loaded languages. `TableProperties.ApplyRowAt` says where each cell goes. |
| `TranslationTable.LineStep` | Localization/Translation.cs:189-256 | Processing one line leaves the table ready for the next: the default is the first column, every column's language is loaded and every known key has a counter. `LineSkipped`, `LineUnknown` and `LineStored` give its three cases. |
| `TranslationTable.ApplyRowInvariant` | Localization/Translation.cs:214-251 | Storing a row for a known key keeps the invariant: every loaded language maps exactly the known keys. |
| `TranslationTable.LineSkipped` | Localization/Translation.cs:191-201 | A blank line, and a line whose key is empty or starts with `#`, change nothing and log nothing. |
| `TranslationTable.LineUnknown` | Localization/Translation.cs:204-207 | A row whose key is not known logs one warning and changes neither the table nor the counts. |
| `TranslationTable.LineStored` | Localization/Translation.cs:208-252 | A row for a known key is counted once, its cells are resolved into the table, and its cell warnings are logged in column order. |
| `TranslationTable.Rows` | Localization/Translation.cs:187-257 | Processing the lines in file order keeps the table ready for the next line. `RowsInvariant`, `RowsCounts` and `LastRowWins` say what it computes. |
| `TranslationTable.RowsInvariant` | Localization/Translation.cs:187-257 | Processing any sequence of lines keeps the table invariant. |
| `TranslationTable.Load` | Localization/Translation.cs:129-266 | Reading a file whose first line is a usable header gives a table that satisfies the invariant. |
| `TranslationTable.Build` | Localization/Translation.cs:86-127 | The finished table always satisfies the invariant: the default language is present and every loaded language maps every known key. |
| `TranslationTable.Lookup` | Localization/Translation.cs:346-358 | For a loaded language, the lookup returns the stored text of a present key and fails for a missing one. |
| `TranslationTable.LookupFallback` | Localization/Translation.cs:351-354 | A language that is not loaded gives the same result as the default language. |
| `TranslationTable.LookupTotal` | Localization/Translation.cs:346-358 | Under the table invariant, the lookup succeeds exactly for the known keys, whatever language is asked for. |
| `Translation.NewSingleLanguage` | Localization/Translation.cs:64-74 | A new language maps exactly the known keys, each to its own name. |
| `Translation.NewKeyCounts` | Localization/Translation.cs:180-185 | The key counters start with exactly the known keys, all at 0. |
| `Translation.CheckCounts` | Localization/Translation.cs:259-266 | The count-check loop logs exactly the `CountWarnings` of its names, in order. |
| `Translation.ResolveRow` | Localization/Translation.cs:213-252 | The column loop stores, for column i, the resolved text of cell i under the i-th loaded language, and logs the row's cell warnings. |
| `Translation.ResolveText` | Localization/Translation.cs:216-248 | One cell is resolved as `StoredText` says, with the warning `CellDiagnostics` says. |
| `Translation.ReadRowKey` | Localization/Translation.cs:191-201 | The key of a line is read as `RowKey` defines it, and the cursor is left after the key. |
| `Translation.Translation.constructor` | Localization/Translation.cs:86-127 | Initialize leaves the object valid, with the languages, dictionary order and log of `Build`. |
| `Translation.Translation.ReadLines` | Localization/Translation.cs:129-266 | After a usable header, the object holds `Load` of the lines, and the log is extended by `Load`'s log. |
| `Translation.Translation.ReadHeader` | Localization/Translation.cs:135-169 | The header loop leaves the languages, order and counts of `ReadCodes` over the header's codes, and warns when the first code is not the default. |
| `Translation.Translation.AddLanguageCode` | Localization/Translation.cs:146-157 | A loaded code is counted once more. A new code is added last with identity text and count 1. |
| `Translation.Translation.ReadRows` | Localization/Translation.cs:187-257 | The row loop leaves the table, counts and log of `Rows` over the lines after the header. |
| `Translation.Translation.ProcessLine` | Localization/Translation.cs:189-256 | One line changes the state as `LineStep` says. |
| `Translation.Translation.StoreRow` | Localization/Translation.cs:208-252 | A known key's row is stored as `StoreStep` defines it: counted once, applied with `ApplyRow`, and its warnings appended. |
| `Translation.Translation.LanguageCodes` | Localization/Translation.cs:81 | Lists exactly the loaded languages, each once, the default first. |
| `Translation.Translation.Get` | Localization/Translation.cs:346-358 | Returns `Lookup` over the loaded table. On a valid object it succeeds exactly for the known keys. |
| `TableProperties.FallbackTable` | Localization/Translation.cs:104-127 | A missing resource, or a first line that is blank or a comment, leaves only the default language, with identity text, and logs one error. |
| `TableProperties.FallbackLookup` | Localization/Translation.cs:104-127 | With that fallback table, every known key in every language looks up as the key itself. |
| `TableProperties.BuildLoad` | Localization/Translation.cs:86-127 | With a usable first line, Initialize logs that it starts and then loads the resource's lines, with no other step in between. |
| `TableProperties.LoadedLanguages` | Localization/Translation.cs:135-169 | The loaded languages are the default code and the header's codes up to the first empty value. The first header value is ignored. |
| `TableProperties.LanguageCountWarning` | Localization/Translation.cs:129-178 | A language count warning is logged exactly for each loaded code that the header does not list exactly once. It carries the number of times the header lists the code. This includes the default code at 0 when the header never lists it. Each such warning is logged exactly once. |
| `TableProperties.RowsCounts` | Localization/Translation.cs:211 | Each known key is counted once per row for it. |
| `TableProperties.LoadLog` | Localization/Translation.cs:129-266 | The log of a load is, in order: the header's warning, the language-count warnings, the row warnings, and the key-count warnings. |
| `TableProperties.LoadLogOccurrences` | Localization/Translation.cs:171-266 | A count warning occurs in the log exactly as often as among the count warnings of its own kind. |
| `TableProperties.KindWarningsOnce` | Localization/Translation.cs:171-266 | The language-count loop logs no warning twice, and neither does the key-count loop when the keys are distinct. |
| `TableProperties.LoggedOnce` | Localization/Translation.cs:171-266 | A count warning is logged at most once: the loaded codes are distinct, and so are the known keys. |
| `TableProperties.KeyCountWarning` | Localization/Translation.cs:259-266 | A key count warning is logged exactly for each known key that does not have exactly one row, with its number of rows. When the known keys are distinct, as the constructor requires, each such warning is logged exactly once. |
| `TableProperties.CellResolution` | Localization/Translation.cs:216-248 | The cases, stated against the known keys and columns: <br>- a blank first-column (default) cell stores the key and warns; <br>- a blank later cell stores what this row stored for the default language; <br>- `@@X` with X a known key stores X's current text in that language; <br>- `@@` followed by nothing, or by an unknown key, is stored literally and warns; <br>- any other text is stored verbatim. |
| `TableProperties.ApplyRowAt` | Localization/Translation.cs:214-251 | Cell i goes to the i-th loaded language. A row changes only its own key. |
| `TableProperties.LookupNonEmpty` | Localization/Translation.cs:216-251 | When no known key is the empty string, every lookup of a known key in any language returns non-empty text. |
| `TableProperties.OtherRowsKeep` | Localization/Translation.cs:251 | Lines without a row for a key leave that key's text unchanged in every language. |
| `TableProperties.LastRowWins` | Localization/Translation.cs:251 | When a key's row is its last one, the finished table holds what that row stored, in every language. |
| `TableProperties.VerbatimCellStored` | Localization/Translation.cs:250-251 | A non-blank, non-`@@` cell on a key's last row is the key's final text for that column's language. |
| `TableProperties.AliasResolves` | Localization/Translation.cs:234-248 | `@@X` with X a known key stores the text X holds in the same language when the row is read. |
| `TableProperties.ForwardAliasSeed` | Localization/Translation.cs:238-246 | When X has no earlier row, `@@X` stores X's identity seed `X`, not the literal `@@X`. |
| `TableProperties.AliasSameText` | Localization/Translation.cs:234-251 | When neither the key nor X has a later row, the key and X end with the same text in that language. |
| `TableExamples.QuotedCellRoundTrip` | Localization/Translation.cs:25-53 | The resource `,en-US,fr-FR` / `MyKey,"a, b",1` gives `a, b` for en-US and `1` for fr-FR. It gives `a, b` for a language the file does not declare. |

## Left out

- Reading the embedded resource (Localization/Translation.cs:104-120): the stream and reader are I/O. The model takes the resource text, or `None` when the resource name is missing from the assembly.
- Reflection over `UITranslationKey` (Localization/Translation.cs:93-98): the keys are a parameter. The constructor requires them to have no repetitions, which C# field names guarantee.
- `LogUtil` (Localization/Translation.cs:90, 108, 125, 162, 176, 206, 224, 240, 264): each call is one appended `Diagnostic`. The message texts are not modelled.
- The catch-all `try/catch` (Localization/Translation.cs:268-271): with distinct keys, no step of the modelled code can raise an exception, so the model has no exception path.
- `Get(translationKey)` (Localization/Translation.cs:338-341): it reads the game's active locale through `GameManager`. The two-argument `Get` is modelled.
- The singleton plumbing (Localization/Translation.cs:16-19): the object is built by its constructor.
- `Translation.Translation.Get`: returns `None` where the program throws `KeyNotFoundException` for a key that is not known. The exception itself is not modelled.
- `StartsWith("#")` and `StartsWith("@@")` (Localization/Translation.cs:123, 201, 234) use the current culture's comparison in .NET. The model uses ordinal prefix tests. Culture rules that ignore some characters when comparing are not modelled.
- `String.Trim` blankness (Localization/Translation.cs:123, 193) is modelled with the `Char.IsWhiteSpace` character set.
- Dictionary enumeration order is modelled as insertion order, which is what .NET's `Dictionary` gives when keys are only added. The sequence `codes` keeps that order beside the map.
- The reader's cursor is a position in the line rather than a `StringReader` object.
- Localization/Locale.cs, Systems/UISystem.cs, the Monitors files, Mod.cs, ModSettings/ModSettings.cs, UIConstants/UIConstantFiles.cs and the UI sources are not part of this model. They are game bindings, operating-system calls, floating-point timing and UI rendering.
