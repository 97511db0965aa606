/**
 * Inflection tables: a map from feature structure to inflection rule, built
 * from the records of a table file and queried with a default
 * (src/main.cpp:126-210).
 */
module Tables {
  import opened Options
  import opened Features
  import opened Inflections
  import Scanner

  datatype InflectionTable = InflectionTable(rules: map<FeatureStructure, Inflection>)

  /** A default-constructed table, and the table left by a file that cannot be opened. */
  const EmptyTable: InflectionTable := InflectionTable(map[])

  /** A table file fills at most this many slots; later records are ignored. */
  const SlotCount: nat := 6

  /**
   * The feature structure record `i` of a table file is stored under:
   * present simple, singular persons first, then plural persons.
   */
  function Slot(i: nat): (fs: FeatureStructure)
    requires i < SlotCount
    ensures fs.tense == Present && fs.aspect == Simple
    ensures fs.number == (if i < 3 then Singular else Plural)
    ensures fs.person == (if i % 3 == 0 then First else if i % 3 == 1 then Second else Third)
  {
    if i == 0 then FeatureStructure(Singular, First, Present, Simple)
    else if i == 1 then FeatureStructure(Singular, Second, Present, Simple)
    else if i == 2 then FeatureStructure(Singular, Third, Present, Simple)
    else if i == 3 then FeatureStructure(Plural, First, Present, Simple)
    else if i == 4 then FeatureStructure(Plural, Second, Present, Simple)
    else FeatureStructure(Plural, Third, Present, Simple)
  }

  /** The record position that fills `fs`, if any: the inverse of Slot. */
  function SlotOf(fs: FeatureStructure): (r: Option<nat>)
    ensures r.Some? <==> fs.tense == Present && fs.aspect == Simple
    ensures r.Some? ==> r.value < SlotCount && Slot(r.value) == fs
  {
    if fs.tense != Present || fs.aspect != Simple then None
    else
      var row := if fs.number == Singular then 0 else 3;
      var column := match fs.person case First => 0 case Second => 1 case Third => 2;
      Some(row + column)
  }

  /** Distinct record positions fill distinct slots. */
  lemma SlotInjective(i: nat, j: nat)
    requires i < SlotCount && j < SlotCount
    ensures Slot(i) == Slot(j) <==> i == j
  {
  }

  /** Every slot is found again by SlotOf. */
  lemma SlotRoundTrip(i: nat)
    requires i < SlotCount
    ensures SlotOf(Slot(i)) == Some(i)
  {
  }

  /** A default-constructed feature structure is the key the first record of a table file fills. */
  lemma DefaultIsFirstSlot()
    ensures SlotOf(DefaultFeatures) == Some(0)
    ensures Slot(0) == DefaultFeatures
  {
  }

  /**
   * Stores the records, in order, under their slots, as the source's loop
   * over the parsed records does; a record at position SlotCount or later
   * matches no case and is dropped.
   */
  function AssignSlots(records: seq<Inflection>): (t: InflectionTable)
    ensures forall fs :: fs in t.rules <==> SlotOf(fs).Some? && SlotOf(fs).value < |records|
    ensures forall i :: 0 <= i < |records| && i < SlotCount ==> Slot(i) in t.rules && t.rules[Slot(i)] == records[i]
    decreases |records|
  {
    if |records| == 0 then EmptyTable
    else
      var i := |records| - 1;
      var t := AssignSlots(records[..i]);
      if i < SlotCount then
        SlotRoundTrip(i);
        assert forall j :: 0 <= j < i ==> Slot(j) != Slot(i);
        InflectionTable(t.rules[Slot(i) := records[i]])
      else t
  }

  /**
   * The inflection-table constructor. `isOpen` says whether the file could
   * be opened and `text` is its content; a file that cannot be opened gives
   * an empty table.
   */
  function ReadTable(isOpen: bool, text: string): (t: InflectionTable)
    ensures !isOpen ==> t == EmptyTable
    ensures forall fs :: fs in t.rules <==>
      isOpen && SlotOf(fs).Some? && SlotOf(fs).value < Scanner.DelimiterCount(text)
    ensures forall i :: isOpen && 0 <= i < SlotCount && i < Scanner.DelimiterCount(text) ==>
      Slot(i) in t.rules && t.rules[Slot(i)] == Scanner.RecordOf(Scanner.Segments(text)[i])
  {
    if !isOpen then EmptyTable
    else
      Scanner.ScanMatchesSegments(text);
      AssignSlots(Scanner.Scan(text))
  }

  /** The rule stored for `fs`, or the identity rule when there is none. */
  function Lookup(t: InflectionTable, fs: FeatureStructure): Inflection
  {
    if fs in t.rules then t.rules[fs] else Identity
  }

  /**
   * The source's query goes through the map's subscript operator, which
   * inserts the identity rule under an absent key before returning it. The
   * result is the looked-up rule together with the table after the query.
   */
  function QueryInflection(t: InflectionTable, fs: FeatureStructure): (r: (Inflection, InflectionTable))
    ensures r.0 == Lookup(t, fs)
    ensures fs in r.1.rules
    ensures r.1.rules.Keys == t.rules.Keys + {fs}
    ensures forall q :: Lookup(r.1, q) == Lookup(t, q)
  {
    var rules := if fs in t.rules then t.rules else t.rules[fs := Identity];
    (rules[fs], InflectionTable(rules))
  }

  /**
   * What any query on a table read from a file returns: the record of the
   * matching slot when the file was opened and held that many records, and
   * the identity rule otherwise.
   */
  lemma LookupReadTable(isOpen: bool, text: string, fs: FeatureStructure)
    ensures var slot := SlotOf(fs);
      Lookup(ReadTable(isOpen, text), fs) ==
        if isOpen && slot.Some? && slot.value < Scanner.DelimiterCount(text)
        then Scanner.RecordOf(Scanner.Segments(text)[slot.value])
        else Identity
  {
  }

  /** A table read from a file answers every past-tense or non-simple query with the identity rule. */
  lemma OnlyPresentSimpleFilled(isOpen: bool, text: string, fs: FeatureStructure)
    requires fs.tense == Past || fs.aspect != Simple
    ensures fs !in ReadTable(isOpen, text).rules
    ensures Lookup(ReadTable(isOpen, text), fs) == Identity
  {
  }
}
