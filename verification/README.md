# Morphology and lexical-graph engine, modelled in Dafny

This project models the language core of a small natural-language tool
(`src/main.cpp`). That core has two parts:

- **Inflection.** A grammatical *feature structure* (number, person, tense,
  aspect) selects an *inflection rule* from an *inflection table*. The rule
  removes some trailing characters from a lexeme's base form (its lemma) and
  then appends a suffix. Tables are read from a small text format. In that
  format `-` adds one to the trim count, `.` is ignored, `,` or an
  end-of-line closes a record, and any other character extends the suffix.
  The records fill six present-simple slots by position.
- **The grammar.** This is a lexical graph. It stores lexemes under
  identifiers that the caller chooses. It stores directed "does"
  relationships under a 16-bit counter. Neither store ever overwrites an
  existing entry.

Every operation is a pure function over immutable datatypes:

| module | file | models |
|---|---|---|
| `Features` | `features.dfy` | the four grammatical categories, and feature-structure equality |
| `Inflections` | `inflections.dfy` | inflection rules, the 8-bit trim field, and applying a rule to a base form |
| `Scanner` | `scanner.dfy` | the table-file scanner, plus a reference description of the format that the scanner is proved to match |
| `Tables` | `tables.dfy` | the slot assignment, reading a table, and lookup with a default |
| `Lexemes` | `lexemes.dfy` | lexemes and their inflection |
| `Grammars` | `grammars.dfy` | the grammar's two maps and its wrapping relationship counter, and sequences of calls on a new grammar |
| `Scenarios` | `scenarios.dfy` | worked examples: the grammar calls the application makes at start-up ("merchant" does "sell"), and an illustrative table text `-s,-s,-s,,,` run through the scanner and `Inflect` |
| `Options` | `options.dfy` | an optional value |

How the model represents the source's I/O and its quirks:

- **Opening the table file.** The file open becomes a boolean input
  (`isOpen`), and the file's characters become a `string`.
- **Text is bytes.** The source's strings hold `char` bytes, and `pop_back`
  removes one byte. Each element of a model `string` stands for one byte, so
  a non-ASCII character in UTF-8 takes several elements.
- **Lookup inserts a default.** A table lookup goes through the map's
  subscript operator, which inserts the identity rule under an absent key.
  `Tables.QueryInflection` returns that updated table. It is proved that the
  insertion changes no later answer, so everywhere else a table is a map
  with a default.
- **Integer widths.** The 16-bit identifiers and counter and the 8-bit trim
  field are subset types. Wrap-around and narrowing are written out as
  `% 0x10000` and `% 0x100`.

The model follows the code, including where its behaviour differs from
what its format and names suggest:

- **A leading `-` counts toward the trim.** A record written `-s` is the
  rule (trim 1, suffix "s"), not (trim 0, suffix "s").
  `Scenarios.RegularThirdSingular` shows what this means: with the
  illustrative table text `-s,-s,-s,,,` (not the content of the application's
  conjugation file, which is not part of this model), a lexeme "sell"
  inflects to "sels" in the third person singular.
- **That illustrative text holds five delimiters, so it gives five records for
  the six slots.** The plural third-person slot stays unfilled and falls
  back to the identity rule.
- **Text after the last delimiter is dropped.** This includes a final record
  that has no trailing comma or newline.
- **Relationship endpoints are not validated.** A relationship is stored
  even when its source or target lexeme does not exist.
- **The counter really does wrap.** After 2^16 relationship requests, every
  identifier is taken and later requests are silently dropped. Identifiers
  are not fresh forever.
- **`CreateLexeme` does not allocate identifiers.** It stores under the
  identifier the caller gives. If that identifier is already taken, the call
  changes nothing.

## Model

| member | source | states |
|---|---|---|
| `Features.SameFeatures` | src/main.cpp:73-83 | the hand-written comparison is true exactly when the two feature structures are equal as values (all four categories agree) |
| `Inflections.NarrowToByte` | src/main.cpp:105-109 | storing a counter in the 8-bit trim field keeps values below 256 and otherwise agrees with the counter modulo 256 |
| `Inflections.PopBack` | src/main.cpp:113-118 | popping n characters shortens the string by n and leaves every remaining character in place |
| `Inflections.Apply` | src/main.cpp:111-123 | when the trim does not exceed the base form's length, the result is the base form minus its last `trim` characters, followed by the suffix |
| `Inflections.IdentityLeavesBase` | src/main.cpp:108-123 | the default rule (0, "") returns every base form unchanged |
| `Inflections.ApplyUndo` | src/main.cpp:111-123 | the inflected form ends with the suffix; removing it and restoring the trimmed characters gives back the base form |
| `Scanner.RecordCount` | src/main.cpp:146-169 | from any scanner state, the number of records emitted equals the number of `,` and end-of-line characters in the input |
| `Scanner.KeptCounts` | src/main.cpp:163-167 | a record's suffix keeps every character other than `-` and `.` as often as it occurs, and none of those two |
| `Scanner.Segments` | src/main.cpp:154-162 | the input has one complete segment per delimiter, and no segment contains a delimiter |
| `Scanner.ScanFromFirstRecord` | src/main.cpp:141-169 | from state (trim, suffix), the first record has trim = pending trim plus the first segment's hyphens (mod 256) and suffix = pending suffix plus the segment's kept characters; scanning then restarts empty after the delimiter; input with no delimiter emits nothing |
| `Scanner.ScanMatchesSegments` | src/main.cpp:141-169 | record k of the scan is the k-th segment's hyphen count mod 256 with its non-`-`, non-`.` characters in order |
| `Scanner.TrailingTextIgnored` | src/main.cpp:146-169 | appending delimiter-free text never changes the emitted records |
| `Tables.Slot` | src/main.cpp:172-201 | record position i is stored under Present/Simple, with Singular for i < 3 and Plural otherwise, and with First, Second, Third by i mod 3 |
| `Tables.SlotOf` | src/main.cpp:172-201 | exactly the present-simple feature structures have a record position, and that position maps back to them |
| `Tables.SlotInjective` | src/main.cpp:172-201 | distinct record positions fill distinct slots |
| `Tables.SlotRoundTrip` | src/main.cpp:172-201 | every slot's feature structure leads back to its own record position |
| `Tables.DefaultIsFirstSlot` | src/main.cpp:176-179 | the default-constructed feature structure (the constant `Features.DefaultFeatures`: Singular, First, Present, Simple, as set at lines 59-62) is exactly the key that record 0 fills, and no other position maps to it |
| `Tables.AssignSlots` | src/main.cpp:172-201 | a key is filled exactly when it is a slot whose position is below the record count; slot i holds record i; records at position 6 or later are dropped |
| `Tables.ReadTable` | src/main.cpp:132-202 | an unopenable file gives the empty table; otherwise slot i holds the record of the i-th segment for every i below 6 and below the delimiter count, and no other key is filled |
| `Tables.QueryInflection` | src/main.cpp:204-207 | the query returns the stored rule, or the identity rule for an absent key; it adds at most the queried key, and every later lookup answers as before |
| `Tables.LookupReadTable` | src/main.cpp:172-207 | a lookup on a table read from a file returns the slot's segment record when the file was opened and reached that slot, and the identity rule otherwise |
| `Tables.OnlyPresentSimpleFilled` | src/main.cpp:172-207 | no past-tense or non-simple key is ever filled, so such queries return the identity rule |
| `Lexemes.Inflect` | src/main.cpp:248-251 | an absent key returns the base form unchanged; a present key returns the base form trimmed by the stored rule's count, followed by its suffix |
| `Lexemes.InflectUnfilledSlot` | src/main.cpp:248-251 | a lexeme whose table came from a file returns its base form for every query the file did not fill: unopened file, past tense, non-simple aspect, or a slot beyond the records |
| `Lexemes.InflectFilledSlot` | src/main.cpp:248-251 | for a filled slot, the lexeme's inflection applies that slot's segment record to its base form |
| `Grammars.Emplace` | src/main.cpp:371 | insertion adds the key; an existing key keeps its old value; a new key gets the given value |
| `Grammars.CreateLexeme` | src/main.cpp:369-372 | an absent identifier gains exactly one entry holding the given base form and table; a present one leaves the lexemes unchanged; relationships and the counter are untouched |
| `Grammars.CreateLexemeRelationship` | src/main.cpp:374-383 | the counter advances by one modulo 2^16; the relationship is stored under the new count unless that key is taken; the endpoints are not checked; the lexemes are unchanged |
| `Grammars.RelateStep` | src/main.cpp:364-383 | one request extends the numbered relationships by its own entry before the counter wraps, and by nothing after |
| `Grammars.RunRelationships` | src/main.cpp:364-383 | from a new grammar, the n-th relationship request (n ≤ 2^16) is stored under identifier n - 1, later requests are dropped, and the counter holds the request count minus one, modulo 2^16, whatever lexeme calls are interleaved |
| `Grammars.RunLexemes` | src/main.cpp:369-372 | after any sequence of calls, an identifier holds the base form and table of the first call that asked for it, and is absent if no call asked for it |
| `Scenarios.RegularTextRecords` | src/main.cpp:141-169 | the illustrative text `-s,-s,-s,,,` gives the five records (1,"s"), (1,"s"), (1,"s"), (0,""), (0,"") |
| `Scenarios.RegularThirdSingular` | src/main.cpp:248-251 | with a table read from that text, a lexeme "sell" inflects to "sels" in the third person singular present |
| `Scenarios.RegularThirdSingularPast` | src/main.cpp:248-251 | with a table read from that text, a lexeme "sell" is unchanged in the third person singular past |
| `Scenarios.StartupGrammar` | src/main.cpp:511-514 | after start-up, the grammar holds "merchant" under 0 and "sell" under 1, and one "does" relationship under 0 from 0 to 1; the counter is 0 |

## Left out

- Rendering and GUI (src/main.cpp:256-317, 386-494): these are the SFML/SFGUI drawing classes, node dragging, line layout and event handling. They are presentation over libraries that are not part of this model.
- The geometry helpers `Distance`, `VectorLength`, `DirectionVector` and `VectorAngle` (src/main.cpp:322-342): floating-point math built on `pow` and `atan2`.
- `main` (src/main.cpp:496-561): window and font setup and the event loop. Only the calls that build the grammar appear, in `Scenarios.StartupGrammar`.
- File I/O (src/main.cpp:136-146): the stream becomes a `string`, and a failed open becomes the boolean `isOpen`.
- `FeatureStructureKeyHasher` (src/main.cpp:85-100): a hashing detail. The model keys a Dafny `map` directly by the feature-structure value.
- The lexeme's word-class tag: the copy constructor (src/main.cpp:238) does not copy it, so the lexeme stored in the grammar carries an indeterminate tag. Nothing in the core reads the tag, so the stored `Lexeme` omits it.
- The lexeme's assignment operator (src/main.cpp:239-244): unused, and it has no return value. The unused `mInteractions` list and `verb_transitivity` enumeration are also left out.
- Sharing one table by reference among lexemes: each lexeme holds the table by value. `Tables.QueryInflection` proves that a query changes no later answer, so this makes no observable difference.
- The global placeholders `NullInflectionTable` and `NullLexeme` (src/main.cpp:210, 254), and the default-constructed lexeme (src/main.cpp:246), appear only as the constants `Tables.EmptyTable`, `Lexemes.NullLexeme` and `Lexemes.DefaultLexeme`.
- Inflections.Apply: requires the trim to be at most the base form's length. Popping past the start of the string is undefined behaviour in the source, so no result is modelled there.
- Inflections.Apply: each string element stands for one byte of the source's `std::string`, not one Unicode character. Given a Dafny string of Unicode characters, the model would remove whole characters where the source removes single bytes and can leave half of a UTF-8 sequence behind.
- Lexemes.Inflect: inherits the same precondition, stated as `CanInflect`.
- Scanner.ScanFrom: the running hyphen counter is an unbounded natural number. The source's `int` counter would overflow after 2^31 - 1 hyphens in one record, which is not modelled. The narrowing to 8 bits when a record is emitted is modelled.
- Inflecting a lexeme by grammar identifier, validating relationship endpoints, and rejecting dangling references: the source has none of these operations or checks, so the model has none either.
