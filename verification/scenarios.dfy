/**
 * Worked examples. StartupGrammar replays the grammar calls the application
 * makes at start-up (src/main.cpp:511-514). The table text is only an
 * illustration of the file format: the content of the conjugation file the
 * application opens is not part of this model, and the application itself
 * never inflects a lexeme.
 */
module Scenarios {
  import opened Features
  import opened Inflections
  import Scanner
  import opened Tables
  import opened Lexemes
  import opened Grammars

  /** An illustrative present-tense table in the file format. */
  const RegularText: string := "-s,-s,-s,,,"

  /**
   * The text holds five delimiters, hence five records. Each leading hyphen
   * counts toward the trim, so the singular slots hold (1, "s") and the
   * first two plural slots the identity rule; the last slot stays unfilled.
   */
  lemma RegularTextRecords()
    ensures Scanner.Scan(RegularText) ==
      [Inflection(1, "s"), Inflection(1, "s"), Inflection(1, "s"), Identity, Identity]
  {
    var rule := Inflection(1, "s");
    assert ","[1..] == [];
    assert ",,"[1..] == ",";
    assert Scanner.ScanFrom(",", 0, "") == [Identity];
    assert Scanner.Scan(",,") == [Identity, Identity];
    PrependRegularRecord(",,");
    assert "-s," + ",," == "-s,,,";
    PrependRegularRecord("-s,,,");
    assert "-s," + "-s,,," == "-s,-s,,,";
    PrependRegularRecord("-s,-s,,,");
    assert "-s," + "-s,-s,,," == RegularText;
  }

  /** Prepending the record text "-s," prepends the record (1, "s"). */
  lemma PrependRegularRecord(rest: string)
    ensures Scanner.Scan("-s," + rest) == [Inflection(1, "s")] + Scanner.Scan(rest)
  {
    var longer := "-s," + rest;
    assert longer[0] == '-' && longer[1..] == "s," + rest;
    assert ("s," + rest)[0] == 's' && ("s," + rest)[1..] == "," + rest;
    assert ("," + rest)[0] == ',' && ("," + rest)[1..] == rest;
    assert "" + ['s'] == "s";
    calc {
      Scanner.ScanFrom(longer, 0, "");
      Scanner.ScanFrom("s," + rest, 1, "");
      Scanner.ScanFrom("," + rest, 1, "s");
      [Inflection(1, "s")] + Scanner.ScanFrom(rest, 0, "");
    }
  }

  /** The table read from that text gives the third person singular present slot the rule (1, "s"). */
  lemma RegularTable()
    ensures Lookup(ReadTable(true, RegularText), FeatureStructure(Singular, Third, Present, Simple)) == Inflection(1, "s")
  {
    RegularTextRecords();
    var records := Scanner.Scan(RegularText);
    assert ReadTable(true, RegularText) == AssignSlots(records);
    assert Slot(2) == FeatureStructure(Singular, Third, Present, Simple);
  }

  /** A lexeme "sell" inflected in the third person singular present through that table loses its last letter. */
  lemma RegularThirdSingular()
    ensures var l := Lexeme("sell", ReadTable(true, RegularText));
      && CanInflect(l, FeatureStructure(Singular, Third, Present, Simple))
      && Inflect(l, FeatureStructure(Singular, Third, Present, Simple)) == "sels"
  {
    RegularTable();
    SellApply();
    var l := Lexeme("sell", ReadTable(true, RegularText));
    var fs := FeatureStructure(Singular, Third, Present, Simple);
    assert Inflect(l, fs) == Apply(Lookup(l.table, fs), l.base);
  }

  lemma SellApply()
    ensures Apply(Inflection(1, "s"), "sell") == "sels"
  {
    assert "sell"[..3] == "sel";
    assert "sel" + "s" == "sels";
  }

  /** In the past tense the same lexeme is left as it is. */
  lemma RegularThirdSingularPast()
    ensures var l := Lexeme("sell", ReadTable(true, RegularText));
      && CanInflect(l, FeatureStructure(Singular, Third, Past, Simple))
      && Inflect(l, FeatureStructure(Singular, Third, Past, Simple)) == "sell"
  {
    OnlyPresentSimpleFilled(true, RegularText, FeatureStructure(Singular, Third, Past, Simple));
  }

  /** The start-up calls: two lexemes, then merchant "does" sell. */
  function StartupCalls(table: InflectionTable): seq<Call>
  {
    [MakeLexeme(0, Noun, "merchant", table), MakeLexeme(1, Verb, "sell", table), Relate(0, Does, 1)]
  }

  /** After start-up the grammar holds both lexemes and one relationship, numbered 0. */
  lemma StartupGrammar(table: InflectionTable)
    ensures var g := Run(StartupCalls(table));
      && g.lexemes == map[0 := Lexeme("merchant", table), 1 := Lexeme("sell", table)]
      && g.relationships == map[0 := Relationship(0, 1, Does)]
      && g.relationshipCount == 0
  {
    var calls := StartupCalls(table);
    assert calls[..2][..1] == calls[..1];
    assert calls[..1][..0] == [];
    var g1 := Run(calls[..1]);
    assert Run(calls[..1]) == Step(Run([]), calls[0]);
    assert g1 == CreateLexeme(NewGrammar, 0, Noun, "merchant", table);
    assert g1.lexemes == map[0 := Lexeme("merchant", table)];
    var g2 := Run(calls[..2]);
    assert g2 == CreateLexeme(g1, 1, Verb, "sell", table);
    assert g2.lexemes == map[0 := Lexeme("merchant", table), 1 := Lexeme("sell", table)];
    assert g2.relationships == map[] && g2.relationshipCount == 0xFFFF;
    assert Run(calls) == CreateLexemeRelationship(g2, 0, Does, 1);
  }
}
