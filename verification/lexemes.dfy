/**
 * Lexemes: a base form paired with the inflection table that conjugates it
 * (src/main.cpp:212-254).
 */
module Lexemes {
  import opened Features
  import opened Inflections
  import opened Tables

  /** The word-class tag a lexeme is created with. */
  datatype LexemeType = Undefined | Noun | Verb

  /**
   * A lexeme as stored and used: its base form and its inflection table.
   * The table is held by value; the source shares one table by reference,
   * which is equivalent here because queries leave every later answer of a
   * table unchanged (Tables.QueryInflection). The word-class tag is not
   * kept: the copy constructor that places a lexeme into the grammar does
   * not copy it, and nothing in the core reads it.
   */
  datatype Lexeme = Lexeme(base: string, table: InflectionTable)

  /** A default-constructed lexeme: empty base form, empty table. */
  const DefaultLexeme: Lexeme := Lexeme("", EmptyTable)

  /** The global placeholder lexeme. */
  const NullLexeme: Lexeme := Lexeme("_null_", EmptyTable)

  /** The rule the lexeme's table gives for `fs` does not trim past the start of its base form. */
  predicate CanInflect(l: Lexeme, fs: FeatureStructure)
  {
    Lookup(l.table, fs).trim <= |l.base|
  }

  /** The surface form of `l` for the feature structure `fs`: query the table, apply the rule. */
  function Inflect(l: Lexeme, fs: FeatureStructure): (form: string)
    requires CanInflect(l, fs)
    ensures fs !in l.table.rules ==> form == l.base
    ensures fs in l.table.rules ==>
      var rule := l.table.rules[fs];
      form == l.base[..|l.base| - rule.trim] + rule.suffix
  {
    var (rule, _) := QueryInflection(l.table, fs);
    Apply(rule, l.base)
  }

  /**
   * A lexeme whose table was read from a file is left unchanged by every
   * query outside the six present-simple slots, and by every slot the file
   * did not reach.
   */
  lemma InflectUnfilledSlot(base: string, isOpen: bool, text: string, fs: FeatureStructure)
    requires !isOpen || SlotOf(fs).None? || SlotOf(fs).value >= Scanner.DelimiterCount(text)
    ensures CanInflect(Lexeme(base, ReadTable(isOpen, text)), fs)
    ensures Inflect(Lexeme(base, ReadTable(isOpen, text)), fs) == base
  {
    LookupReadTable(isOpen, text, fs);
  }

  /**
   * A lexeme whose table was read from a file is inflected in a filled slot
   * by that slot's record: the segment's hyphens trim, its other characters
   * except periods are appended.
   */
  lemma InflectFilledSlot(base: string, isOpen: bool, text: string, i: nat)
    requires isOpen && i < SlotCount && i < Scanner.DelimiterCount(text)
    requires Scanner.RecordOf(Scanner.Segments(text)[i]).trim <= |base|
    ensures var l := Lexeme(base, ReadTable(isOpen, text));
      var rule := Scanner.RecordOf(Scanner.Segments(text)[i]);
      && CanInflect(l, Slot(i))
      && Inflect(l, Slot(i)) == Apply(rule, base)
  {
    LookupReadTable(isOpen, text, Slot(i));
    SlotRoundTrip(i);
  }
}
