/**
 * The grammar: lexemes keyed by caller-chosen identifiers and directed
 * relationships between them keyed by a 16-bit counter
 * (src/main.cpp:346-384).
 */
module Grammars {
  import opened Options
  import opened Tables
  import opened Lexemes

  /** The source's identifiers and counter are 16-bit unsigned integers. */
  type UInt16 = x: int | 0 <= x < 0x10000

  /** One past the largest 16-bit value: the counter wraps modulo this. */
  const IdSpace: nat := 0x10000

  datatype RelationshipType = Undefined | Does

  /** A directed edge; its endpoints are identifiers that need not name existing lexemes. */
  datatype Relationship = Relationship(source: UInt16, target: UInt16, kind: RelationshipType)

  datatype Grammar = Grammar(
    lexemes: map<UInt16, Lexeme>,
    relationships: map<UInt16, Relationship>,
    relationshipCount: UInt16)

  /** A new grammar: no entries, and the counter seeded with -1, which the 16-bit field holds as 0xFFFF. */
  const NewGrammar: Grammar := Grammar(map[], map[], 0xFFFF)

  /** Insertion that never overwrites: an existing key keeps its value. */
  function Emplace<K, V>(m: map<K, V>, k: K, v: V): (r: map<K, V>)
    ensures r.Keys == m.Keys + {k}
    ensures forall j :: j in m ==> r[j] == m[j]
    ensures k !in m ==> r[k] == v
  {
    if k in m then m else m[k := v]
  }

  /**
   * Adds a lexeme under `id` unless `id` is already taken. The word-class
   * tag is accepted but not stored (see Lexemes.Lexeme).
   */
  function CreateLexeme(g: Grammar, id: UInt16, kind: LexemeType, base: string, table: InflectionTable): (g': Grammar)
    ensures g'.relationships == g.relationships
    ensures g'.relationshipCount == g.relationshipCount
    ensures id in g.lexemes ==> g'.lexemes == g.lexemes
    ensures id !in g.lexemes ==> g'.lexemes == g.lexemes[id := Lexeme(base, table)]
    ensures id !in g.lexemes ==> |g'.lexemes| == |g.lexemes| + 1
  {
    g.(lexemes := Emplace(g.lexemes, id, Lexeme(base, table)))
  }

  /**
   * Advances the counter modulo 2^16 and stores the relationship under the
   * new count unless that key is already taken. Neither endpoint is checked
   * against the lexemes.
   */
  function CreateLexemeRelationship(g: Grammar, source: UInt16, kind: RelationshipType, target: UInt16): (g': Grammar)
    ensures g'.lexemes == g.lexemes
    ensures g'.relationshipCount == (g.relationshipCount + 1) % IdSpace
    ensures g'.relationshipCount in g'.relationships
    ensures g'.relationshipCount in g.relationships ==> g'.relationships == g.relationships
    ensures g'.relationshipCount !in g.relationships ==>
      g'.relationships == g.relationships[g'.relationshipCount := Relationship(source, target, kind)]
  {
    var id: UInt16 := (g.relationshipCount + 1) % IdSpace;
    Grammar(g.lexemes, Emplace(g.relationships, id, Relationship(source, target, kind)), id)
  }

  // ---------------------------------------------------------------------
  // Sequences of calls on a new grammar.

  /** One call a client makes on the grammar. */
  datatype Call =
    | MakeLexeme(id: UInt16, kind: LexemeType, base: string, table: InflectionTable)
    | Relate(source: UInt16, relation: RelationshipType, target: UInt16)

  function Step(g: Grammar, c: Call): Grammar
  {
    match c
    case MakeLexeme(id, kind, base, table) => CreateLexeme(g, id, kind, base, table)
    case Relate(source, relation, target) => CreateLexemeRelationship(g, source, relation, target)
  }

  /** The grammar after making `calls`, in order, on a new grammar. */
  function Run(calls: seq<Call>): Grammar
    decreases |calls|
  {
    if |calls| == 0 then NewGrammar
    else Step(Run(calls[..|calls| - 1]), calls[|calls| - 1])
  }

  /** The relationships requested by `calls`, in call order. */
  function Requested(calls: seq<Call>): (rs: seq<Relationship>)
    ensures |rs| <= |calls|
    decreases |calls|
  {
    if |calls| == 0 then []
    else
      var last := calls[|calls| - 1];
      Requested(calls[..|calls| - 1]) +
        if last.Relate? then [Relationship(last.source, last.target, last.relation)] else []
  }

  function Min(a: int, b: int): int
  {
    if a <= b then a else b
  }

  /** The first 2^16 relationships of `rs`, each keyed by its position. */
  function Numbered(rs: seq<Relationship>): map<UInt16, Relationship>
  {
    map id: UInt16 | id < Min(|rs|, IdSpace) :: rs[id]
  }

  lemma NumberedAppend(rs: seq<Relationship>, rel: Relationship)
    requires |rs| < IdSpace
    ensures |rs| !in Numbered(rs)
    ensures Numbered(rs + [rel]) == Numbered(rs)[|rs| := rel]
  {
    var m, m' := Numbered(rs), Numbered(rs + [rel]);
    assert forall id: UInt16 :: id in m' <==> id in m[|rs| := rel];
    assert forall id: UInt16 :: id in m' ==> m'[id] == m[|rs| := rel][id];
  }

  lemma NumberedFull(rs: seq<Relationship>, rel: Relationship)
    requires |rs| >= IdSpace
    ensures forall id: UInt16 :: id in Numbered(rs)
    ensures Numbered(rs + [rel]) == Numbered(rs)
  {
    var m, m' := Numbered(rs), Numbered(rs + [rel]);
    assert forall id: UInt16 :: id in m' <==> id in m;
    assert forall id: UInt16 :: id in m' ==> m'[id] == m[id];
  }

  /** One relationship request extends the numbering by its own entry, or by nothing once the counter has wrapped. */
  lemma RelateStep(g: Grammar, rs: seq<Relationship>, source: UInt16, kind: RelationshipType, target: UInt16)
    requires g.relationshipCount == (|rs| + IdSpace - 1) % IdSpace
    requires g.relationships == Numbered(rs)
    ensures var g' := CreateLexemeRelationship(g, source, kind, target);
      && g'.relationshipCount == (|rs| + 1 + IdSpace - 1) % IdSpace
      && g'.relationships == Numbered(rs + [Relationship(source, target, kind)])
  {
    CounterStep(|rs|);
    var rel := Relationship(source, target, kind);
    if |rs| < IdSpace {
      NumberedAppend(rs, rel);
    } else {
      NumberedFull(rs, rel);
    }
  }

  /**
   * The n-th relationship request (counting from 1) is stored under
   * identifier n - 1, for the first 2^16 requests; after the counter wraps,
   * every identifier is taken and later requests are dropped. The counter
   * always holds the request count minus one, modulo 2^16. Lexeme calls do
   * not disturb the numbering.
   */
  lemma {:induction false} RunRelationships(calls: seq<Call>)
    ensures Run(calls).relationshipCount == (|Requested(calls)| + IdSpace - 1) % IdSpace
    ensures Run(calls).relationships == Numbered(Requested(calls))
    decreases |calls|
  {
    if |calls| == 0 {
      assert Numbered([]) == map[];
    } else {
      var prefix := calls[..|calls| - 1];
      var last := calls[|calls| - 1];
      RunRelationships(prefix);
      var rs := Requested(prefix);
      var g := Run(prefix);
      assert Run(calls) == Step(g, last);
      if last.Relate? {
        assert Requested(calls) == rs + [Relationship(last.source, last.target, last.relation)];
        RelateStep(g, rs, last.source, last.relation, last.target);
      } else {
        assert Requested(calls) == rs;
      }
    }
  }

  /** Advancing the counter after n requests leaves it where n + 1 requests put it. */
  lemma CounterStep(n: nat)
    ensures ((n + IdSpace - 1) % IdSpace + 1) % IdSpace == (n + 1 + IdSpace - 1) % IdSpace
    ensures (n + 1 + IdSpace - 1) % IdSpace == n % IdSpace
    ensures n < IdSpace ==> n % IdSpace == n
  {
  }

  /** Whether `c` asks for a lexeme under `id`. */
  predicate Defines(c: Call, id: UInt16)
  {
    c.MakeLexeme? && c.id == id
  }

  /** The position of the first call in `calls` that asks for a lexeme under `id`, if any. */
  function FirstDefinition(calls: seq<Call>, id: UInt16): (k: Option<nat>)
    ensures k.None? ==> forall j :: 0 <= j < |calls| ==> !Defines(calls[j], id)
    ensures k.Some? ==> k.value < |calls| && Defines(calls[k.value], id)
    ensures k.Some? ==> forall j :: 0 <= j < k.value ==> !Defines(calls[j], id)
    decreases |calls|
  {
    if |calls| == 0 then None
    else
      var earlier := FirstDefinition(calls[..|calls| - 1], id);
      if earlier.Some? then earlier
      else if Defines(calls[|calls| - 1], id) then Some(|calls| - 1)
      else None
  }

  /**
   * The first call that asks for a lexeme under an identifier wins: the
   * identifier holds exactly that call's base form and table, and no
   * identifier that was never asked for is present.
   */
  lemma {:induction false} RunLexemes(calls: seq<Call>, id: UInt16)
    ensures match FirstDefinition(calls, id)
      case None => id !in Run(calls).lexemes
      case Some(k) => id in Run(calls).lexemes && Run(calls).lexemes[id] == Lexeme(calls[k].base, calls[k].table)
    decreases |calls|
  {
    if |calls| > 0 {
      var prefix := calls[..|calls| - 1];
      RunLexemes(prefix, id);
      var earlier := FirstDefinition(prefix, id);
      if earlier.Some? {
        assert calls[earlier.value] == prefix[earlier.value];
      }
    }
  }
}
