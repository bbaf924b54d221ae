/** The stance normaliser: a rider's rotation triple is mirrored onto the
    catalog's reference orientation before its key is formed. */
module Stance {
  import opened PyStrings

  /** Board spin, board flip and body spin, in signed degrees. */
  datatype Triple = Triple(spin: int, flip: int, body: int)

  function Neg(t: Triple): Triple {
    Triple(-t.spin, -t.flip, -t.body)
  }

  function Scale(factor: int, t: Triple): Triple {
    Triple(factor * t.spin, factor * t.flip, factor * t.body)
  }

  /** The case-insensitive stance tests of the source. */
  predicate IsRegular(naturalStance: string) {
    Lower(naturalStance) == "regular"
  }

  predicate IsSwitch(activeStance: string) {
    Lower(activeStance) == "switch"
  }

  /** The inversion factor: it starts at 1 and is negated once for a regular
      natural stance and once more for a switch active stance. */
  function Factor(naturalStance: string, activeStance: string): (f: int)
    ensures f == 1 || f == -1
    ensures f == -1 <==> IsRegular(naturalStance) != IsSwitch(activeStance)
  {
    var f0 := 1;
    var f1 := if Lower(naturalStance) == "regular" then f0 * -1 else f0;
    if Lower(activeStance) == "switch" then f1 * -1 else f1
  }

  /** `normalize_parameters`: one factor in {1, -1} applied to all three rotations. */
  function Normalize(t: Triple, naturalStance: string, activeStance: string): (r: Triple)
    ensures r == t || r == Neg(t)
    ensures IsRegular(naturalStance) == IsSwitch(activeStance) ==> r == t
    ensures IsRegular(naturalStance) != IsSwitch(activeStance) ==> r == Neg(t)
  {
    Scale(Factor(naturalStance, activeStance), t)
  }

  /** Normalising twice under the same stances gives back the rider's triple. */
  lemma NormalizeInvolution(t: Triple, naturalStance: string, activeStance: string)
    ensures Normalize(Normalize(t, naturalStance, activeStance), naturalStance, activeStance) == t
  {
  }

  /** Two spellings that differ only in ASCII letter case normalise alike. */
  lemma NormalizeIgnoresCase(t: Triple, n1: string, a1: string, n2: string, a2: string)
    requires Lower(n1) == Lower(n2) && Lower(a1) == Lower(a2)
    ensures Normalize(t, n1, a1) == Normalize(t, n2, a2)
  {
  }

  /** The four combinations of the named stances, in the source's and other spellings. */
  lemma NormalizeNamedStances(t: Triple)
    ensures Normalize(t, "Regular", "Switch") == t
    ensures Normalize(t, "Goofy", "Normal") == t
    ensures Normalize(t, "Regular", "Normal") == Neg(t)
    ensures Normalize(t, "Regular", "Fakie") == Neg(t)
    ensures Normalize(t, "Regular", "Nollie") == Neg(t)
    ensures Normalize(t, "Goofy", "Switch") == Neg(t)
    ensures Normalize(t, "REGULAR", "switch") == t
    ensures Normalize(t, "goofy", "SWITCH") == Neg(t)
  {
    assert IsRegular("Regular") && IsRegular("REGULAR");
    assert !IsRegular("Goofy") && !IsRegular("goofy");
    assert IsSwitch("Switch") && IsSwitch("switch") && IsSwitch("SWITCH");
    assert Lower("Normal")[0] == 'n' && Lower("Nollie")[0] == 'n' && |Lower("Fakie")| == 5;
  }
}
