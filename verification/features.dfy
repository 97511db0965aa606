/**
 * Grammatical feature structures: the four-category tuple that keys every
 * inflection table (src/main.cpp:18-83).
 */
module Features {

  datatype Number = Singular | Plural

  datatype Person = First | Second | Third

  datatype Tense = Present | Past

  datatype Aspect = Simple | Continuous | Perfect

  datatype FeatureStructure = FeatureStructure(number: Number, person: Person, tense: Tense, aspect: Aspect)

  /** The value a default-constructed feature structure holds. */
  const DefaultFeatures: FeatureStructure := FeatureStructure(Singular, First, Present, Simple)

  /** The source's hand-written equality: all four categories compared one by one. */
  function SameFeatures(a: FeatureStructure, b: FeatureStructure): (r: bool)
    ensures r <==> a == b
  {
    a.number == b.number && a.person == b.person && a.tense == b.tense && a.aspect == b.aspect
  }
}
