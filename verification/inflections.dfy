/**
 * An inflection rule: drop some trailing characters of a base form (lemma), then append
 * a suffix (src/main.cpp:102-124).
 */
module Inflections {

  /** The source stores the trim count in an 8-bit unsigned field. */
  type Byte = x: int | 0 <= x < 0x100

  /** Conversion of a counter to the 8-bit field: C++ reduces it modulo 256. */
  function NarrowToByte(n: int): (b: Byte)
    ensures 0 <= n < 0x100 ==> b == n
    ensures (n - b) % 0x100 == 0
  {
    n % 0x100
  }

  datatype Inflection = Inflection(trim: Byte, suffix: string)

  /** The default-constructed rule: trim nothing, append nothing. */
  const Identity: Inflection := Inflection(0, "")

  /** Removes the last `n` characters one at a time, as the source's pop_back loop does. */
  function PopBack(s: string, n: nat): (r: string)
    requires n <= |s|
    ensures |r| == |s| - n
    ensures forall j :: 0 <= j < |r| ==> r[j] == s[j]
    decreases n
  {
    if n == 0 then s else PopBack(s[..|s| - 1], n - 1)
  }

  /**
   * Applies `rule` to `base`, the lemma. Popping past the start of the string is
   * undefined behaviour in the source, hence the precondition.
   */
  function Apply(rule: Inflection, base: string): (r: string)
    requires rule.trim <= |base|
    ensures r == base[..|base| - rule.trim] + rule.suffix
  {
    var stem := PopBack(base, rule.trim);
    assert stem == base[..|base| - rule.trim];
    stem + rule.suffix
  }

  /** The default rule leaves every base form unchanged. */
  lemma IdentityLeavesBase(base: string)
    ensures Apply(Identity, base) == base
  {
    assert base[..|base|] == base;
  }

  /**
   * Undoing a rule: cutting the suffix off the inflected form and putting
   * back the trimmed characters recovers the base form.
   */
  lemma ApplyUndo(rule: Inflection, base: string)
    requires rule.trim <= |base|
    ensures var form := Apply(rule, base);
      && |rule.suffix| <= |form|
      && form[|form| - |rule.suffix|..] == rule.suffix
      && form[..|form| - |rule.suffix|] + base[|base| - rule.trim..] == base
  {
    var form := Apply(rule, base);
    var stem := base[..|base| - rule.trim];
    assert form == stem + rule.suffix;
    assert form[..|form| - |rule.suffix|] == stem;
    assert form[|form| - |rule.suffix|..] == rule.suffix;
    assert stem + base[|base| - rule.trim..] == base;
  }
}
