/** `process_trick`: normalise the query's rotations, look the base trick up,
    compose the stance-prefixed display name, and optionally resolve and
    append a "late" trick performed in the same stance context. */
module Resolver {
  import opened Wrappers
  import opened PyStrings
  import opened Stance
  import opened Decimal
  import opened Keys
  import opened CatalogStore

  /** The name used when the base trick's key is not in the catalog. */
  const UnknownTrick := "Unknown Trick"
  /** The name used when the late trick's key is not in the catalog. */
  const UnknownLateTrick := "Unknown Late Trick"
  /** The stances a query falls back to when it names none. */
  const DefaultNaturalStance := "Regular"
  const DefaultActiveStance := ""

  /** A trick query: the rider-relative base rotations, both stances, and the
      rotations of an optional late trick (an empty `LateParams` is `None`). */
  datatype Query = Query(base: Triple, naturalStance: string, activeStance: string, lateParams: Option<Triple>)

  /** The output dictionary; an absent field is `None`. */
  datatype Output = Output(
    trickName: string,
    otherNames: Option<seq<string>>,
    lateTrickName: Option<string>,
    lateTrickOtherNames: Option<seq<string>>)

  /** The query read from an input dictionary: a missing `NaturalStance`
      reads as "Regular" and a missing `ActiveStance` as the empty string. */
  function ReadQuery(base: Triple, naturalStance: Option<string>, activeStance: Option<string>,
                     lateParams: Option<Triple>): Query
  {
    Query(base, naturalStance.GetOr(DefaultNaturalStance), activeStance.GetOr(DefaultActiveStance), lateParams)
  }

  /** An input that names no natural stance is read as a regular rider's:
      its rotations are inverted unless the active stance is switch. */
  lemma ReadQueryDefaults(base: Triple, activeStance: Option<string>, lateParams: Option<Triple>)
    ensures var q := ReadQuery(base, None, activeStance, lateParams);
      QueryKey(q.base, q.naturalStance, q.activeStance)
        == ResolverKey(if activeStance.Some? && IsSwitch(activeStance.value) then base else Neg(base))
  {
    assert IsRegular(DefaultNaturalStance);
    if activeStance.None? {
      assert !IsSwitch(DefaultActiveStance);
    }
  }

  /** The key a rider's triple is looked up by under the given stances. */
  function QueryKey(t: Triple, naturalStance: string, activeStance: string): string {
    ResolverKey(Normalize(t, naturalStance, activeStance))
  }

  /** The catalog entry for a rider's triple, if there is one. */
  function Resolve(c: Catalog, t: Triple, naturalStance: string, activeStance: string): Option<Entry> {
    Lookup(c, QueryKey(t, naturalStance, activeStance))
  }

  /** The found entry's canonical name, or the sentinel on a miss. */
  function NameOr(e: Option<Entry>, sentinel: string): string {
    if e.Some? then e.value.canonicalName else sentinel
  }

  /** Aliases are attached only when the found entry's list is non-empty. */
  function AliasesOf(e: Option<Entry>): (r: Option<seq<string>>)
    ensures r.Some? ==> |r.value| > 0
  {
    if e.Some? && |e.value.otherNames| > 0 then Some(e.value.otherNames) else None
  }

  /** The base trick's name before the stance prefix is added. */
  function BaseName(q: Query, c: Catalog): string {
    NameOr(Resolve(c, q.base, q.naturalStance, q.activeStance), UnknownTrick)
  }

  /** The stance-prefixed, stripped display name of the base trick. */
  function DisplayName(activeStance: string, baseName: string): (r: string)
    ensures IsStripped(r)
  {
    var result := if Lower(activeStance) != "normal" then activeStance + " " + baseName else baseName;
    Strip(result)
  }

  function ProcessTrick(q: Query, c: Catalog): (r: Output)
    ensures r.lateTrickName.Some? <==> q.lateParams.Some?
    ensures r.lateTrickOtherNames.Some? ==> q.lateParams.Some? && |r.lateTrickOtherNames.value| > 0
    ensures r.otherNames.Some? ==> |r.otherNames.value| > 0
  {
    var baseTrick := Resolve(c, q.base, q.naturalStance, q.activeStance);
    var display := DisplayName(q.activeStance, NameOr(baseTrick, UnknownTrick));
    var otherNames := AliasesOf(baseTrick);
    match q.lateParams
    case None => Output(display, otherNames, None, None)
    case Some(late) =>
      var lateTrick := Resolve(c, late, q.naturalStance, q.activeStance);
      var lateName := NameOr(lateTrick, UnknownLateTrick);
      Output(display + " Late " + lateName, otherNames, Some(lateName), AliasesOf(lateTrick))
  }

  // ---------------------------------------------------------------------------
  // Properties of the resolver
  // ---------------------------------------------------------------------------

  /** `otherNames` is present exactly when the normalised key is found and its
      entry lists at least one alias, and then it is that list. */
  lemma ResolveAliases(q: Query, c: Catalog)
    ensures var k := QueryKey(q.base, q.naturalStance, q.activeStance);
      && (ProcessTrick(q, c).otherNames.Some? <==> k in c && |c[k].otherNames| > 0)
      && (ProcessTrick(q, c).otherNames.Some? ==> ProcessTrick(q, c).otherNames.value == c[k].otherNames)
  {
  }

  lemma SentinelsStripped()
    ensures |UnknownTrick| > 0 && IsStripped(UnknownTrick)
    ensures |UnknownLateTrick| > 0 && IsStripped(UnknownLateTrick)
  {
    assert UnknownTrick[0] == 'U' && UnknownTrick[|UnknownTrick| - 1] == 'k';
    assert UnknownLateTrick[0] == 'U' && UnknownLateTrick[|UnknownLateTrick| - 1] == 'k';
  }

  /** The display name of a non-empty stripped name ends with that name. */
  lemma DisplayNameEndsWith(activeStance: string, name: string) returns (lead: string)
    requires |name| > 0 && IsStripped(name)
    ensures DisplayName(activeStance, name) == lead + name
  {
    var pre := if Lower(activeStance) != "normal" then activeStance + " " else "";
    assert (if Lower(activeStance) != "normal" then activeStance + " " + name else name) == pre + name;
    StripBeforeStripped(pre, name);
    lead := LStrip(pre);
  }

  /** A miss never fails: the name shown contains "Unknown Trick" and no
      `otherNames` field is produced. */
  lemma ResolveUnknown(q: Query, c: Catalog)
    requires QueryKey(q.base, q.naturalStance, q.activeStance) !in c
    ensures ProcessTrick(q, c).otherNames == None
    ensures IsInfix(UnknownTrick, ProcessTrick(q, c).trickName)
  {
    var r := ProcessTrick(q, c);
    assert BaseName(q, c) == UnknownTrick;
    SentinelsStripped();
    var lead := DisplayNameEndsWith(q.activeStance, UnknownTrick);
    var display := DisplayName(q.activeStance, UnknownTrick);
    InfixAtEnd(lead, UnknownTrick);
    match q.lateParams
    case None =>
    case Some(late) =>
      var lateName := NameOr(Resolve(c, late, q.naturalStance, q.activeStance), UnknownLateTrick);
      InfixExtend(UnknownTrick, display, " Late ");
      InfixExtend(UnknownTrick, display + " Late ", lateName);
  }

  /** An active stance of "normal" (any letter case) adds no prefix. */
  lemma ResolveNormalStance(q: Query, c: Catalog)
    requires Lower(q.activeStance) == "normal" && q.lateParams.None?
    ensures ProcessTrick(q, c).trickName == Strip(BaseName(q, c))
  {
  }

  /** Any other stance prefixes its own spelling and a space; for a trimmed
      stance and name, nothing else changes. */
  lemma ResolveStancePrefix(q: Query, c: Catalog)
    requires Lower(q.activeStance) != "normal" && q.lateParams.None?
    requires |q.activeStance| > 0 && IsStripped(q.activeStance)
    requires |BaseName(q, c)| > 0 && IsStripped(BaseName(q, c))
    ensures ProcessTrick(q, c).trickName == q.activeStance + " " + BaseName(q, c)
  {
    StripOfStripped(q.activeStance + " " + BaseName(q, c));
  }

  /** With the default active stance `""` the prefix step yields `" " + name`,
      which the strip reduces back to the stripped name. */
  lemma ResolveDefaultStance(q: Query, c: Catalog)
    requires q.activeStance == DefaultActiveStance && q.lateParams.None?
    ensures ProcessTrick(q, c).trickName == Strip(BaseName(q, c))
  {
    assert Lower(q.activeStance) != "normal";
    assert q.activeStance + " " + BaseName(q, c) == " " + BaseName(q, c);
    LStripSkipsSpace(" ", BaseName(q, c));
  }

  /** A late trick is resolved under the same stances as the base trick; it
      appends `" Late " + name` to the base display name, reports the name
      separately, keeps its aliases apart and leaves `otherNames` unchanged. */
  lemma ResolveLate(q: Query, c: Catalog)
    requires q.lateParams.Some?
    ensures var r, r0 := ProcessTrick(q, c), ProcessTrick(q.(lateParams := None), c);
      var k := QueryKey(q.lateParams.value, q.naturalStance, q.activeStance);
      var lateName := if k in c then c[k].canonicalName else UnknownLateTrick;
      && r.trickName == r0.trickName + " Late " + lateName
      && r.lateTrickName == Some(lateName)
      && r.otherNames == r0.otherNames
      && (r.lateTrickOtherNames.Some? <==> k in c && |c[k].otherNames| > 0)
      && (r.lateTrickOtherNames.Some? ==> r.lateTrickOtherNames.value == c[k].otherNames)
  {
  }

  /** Mirror symmetry: a regular rider's query resolves exactly like a goofy
      rider's query with every rotation negated. */
  lemma ResolveMirror(q: Query, c: Catalog)
    requires IsRegular(q.naturalStance)
    ensures ProcessTrick(q, c) == ProcessTrick(
      q.(base := Neg(q.base), naturalStance := "Goofy",
         lateParams := if q.lateParams.Some? then Some(Neg(q.lateParams.value)) else None), c)
  {
    assert !IsRegular("Goofy") by {
      assert |Lower("Goofy")| == 5;
    }
    var q' := q.(base := Neg(q.base), naturalStance := "Goofy",
                 lateParams := if q.lateParams.Some? then Some(Neg(q.lateParams.value)) else None);
    assert Normalize(q'.base, q'.naturalStance, q'.activeStance) == Normalize(q.base, q.naturalStance, q.activeStance);
    if q.lateParams.Some? {
      assert Normalize(q'.lateParams.value, q'.naturalStance, q'.activeStance)
          == Normalize(q.lateParams.value, q.naturalStance, q.activeStance);
    }
  }

  /** A catalog keyed by the builder's `compositeKey` format (which carries an
      `A` component) never answers a resolver lookup. */
  lemma ResolveBuilderKeyedCatalog(q: Query, c: Catalog)
    requires forall k :: k in c ==> ParseBuilderKey(k).Some?
    ensures ProcessTrick(q, c).otherNames == None
    ensures IsInfix(UnknownTrick, ProcessTrick(q, c).trickName)
    ensures q.lateParams.Some? ==> ProcessTrick(q, c).lateTrickName == Some(UnknownLateTrick)
  {
    var t := Normalize(q.base, q.naturalStance, q.activeStance);
    KeySchemesDisjoint(Params(0, 0, 0, 0), t);
    ResolveUnknown(q, c);
    if q.lateParams.Some? {
      KeySchemesDisjoint(Params(0, 0, 0, 0), Normalize(q.lateParams.value, q.naturalStance, q.activeStance));
    }
  }

  // ---------------------------------------------------------------------------
  // Worked examples: the two queries resolved in `trick_catalog.py`'s own usage
  // section. The catalog is a premise: it maps the two keys to the names the
  // expected outputs show. As in the alias examples, each literal is fixed
  // through the precondition.
  // ---------------------------------------------------------------------------

  /** A regular rider riding fakie has every rotation inverted. */
  lemma RegularFakieNegates(t: Triple, naturalStance: string, activeStance: string)
    requires naturalStance == "Regular" && activeStance == "Fakie"
    ensures Normalize(t, naturalStance, activeStance) == Neg(t)
  {
    assert IsRegular(naturalStance) by {
      assert Lower(naturalStance) == "regular";
    }
    assert !IsSwitch(activeStance) by {
      assert |Lower(activeStance)| == 5;
    }
  }

  /** The text of a three-digit number is its three digit characters. */
  lemma PrintThreeDigits(n: nat, a: nat, b: nat, d: nat)
    requires 0 < a < 10 && b < 10 && d < 10 && n == 100 * a + 10 * b + d
    ensures NatToString(n) == [DigitChar(a), DigitChar(b), DigitChar(d)]
  {
    NatToStringStep(a, b);
    NatToStringStep(10 * a + b, d);
  }

  /** A regular rider's fakie `(-180, 360, 0)` is looked up as `S180,F-360,B0`. */
  lemma FakieVarialKey(t: Triple, naturalStance: string, activeStance: string, key: string)
    requires t == Triple(-180, 360, 0) && naturalStance == "Regular" && activeStance == "Fakie"
    requires key == "S180,F-360,B0"
    ensures QueryKey(t, naturalStance, activeStance) == key
  {
    RegularFakieNegates(t, naturalStance, activeStance);
    var u := Neg(t);
    PrintThreeDigits(u.spin, 1, 8, 0);
    PrintThreeDigits(-u.flip, 3, 6, 0);
    assert IntToString(u.flip) == "-" + NatToString(-u.flip);
    assert IntToString(u.body) == [DigitChar(0)];
    assert ResolverKey(u) == key;
  }

  /** A regular rider's fakie late `(-360, 0, 0)` is looked up as `S360,F0,B0`. */
  lemma FakieLateShuvKey(t: Triple, naturalStance: string, activeStance: string, key: string)
    requires t == Triple(-360, 0, 0) && naturalStance == "Regular" && activeStance == "Fakie"
    requires key == "S360,F0,B0"
    ensures QueryKey(t, naturalStance, activeStance) == key
  {
    RegularFakieNegates(t, naturalStance, activeStance);
    var u := Neg(t);
    PrintThreeDigits(u.spin, 3, 6, 0);
    assert IntToString(u.flip) == [DigitChar(0)] && IntToString(u.body) == [DigitChar(0)];
    assert ResolverKey(u) == key;
  }

  /** "Fakie" and "Varial Heelflip" joined by a space. */
  lemma FakieVarialWords(a: string, sep: string, b: string, r: string)
    requires a == "Fakie" && sep == " " && b == "Varial Heelflip" && r == "Fakie Varial Heelflip"
    ensures a + sep + b == r
  {
  }

  /** "Fakie Varial Heelflip" and "Frontside 360 Shuv" joined by " Late ". */
  lemma FakieVarialLateWords(a: string, sep: string, b: string, r: string)
    requires a == "Fakie Varial Heelflip" && sep == " Late " && b == "Frontside 360 Shuv"
    requires r == "Fakie Varial Heelflip Late Frontside 360 Shuv"
    ensures a + sep + b == r
  {
    assert |a + sep + b| == |r|;
    forall k | 0 <= k < |r|
      ensures (a + sep + b)[k] == r[k]
    {
    }
  }

  /** A regular rider's fakie `(-180, 360, 0)` on a catalog holding the
      Varial Heelflip is shown as "Fakie Varial Heelflip". */
  lemma ExampleFakieVarial(q: Query, c: Catalog, key: string, name: string)
    requires q == Query(Triple(-180, 360, 0), "Regular", "Fakie", None)
    requires key == "S180,F-360,B0" && name == "Varial Heelflip"
    requires key in c && c[key].canonicalName == name
    ensures ProcessTrick(q, c).trickName == "Fakie Varial Heelflip"
  {
    FakieVarialKey(q.base, q.naturalStance, q.activeStance, key);
    assert BaseName(q, c) == name;
    assert Lower(q.activeStance) != "normal" by {
      assert |Lower(q.activeStance)| == 5;
    }
    assert IsStripped(q.activeStance) && IsStripped(name);
    ResolveStancePrefix(q, c);
    FakieVarialWords(q.activeStance, " ", name, "Fakie Varial Heelflip");
  }

  /** The same query with the late trick `(-360, 0, 0)`, on a catalog that
      also holds the Frontside 360 Shuv, is shown as
      "Fakie Varial Heelflip Late Frontside 360 Shuv". */
  lemma ExampleFakieVarialLate(q: Query, c: Catalog, key: string, name: string,
                               lateKey: string, lateName: string)
    requires q == Query(Triple(-180, 360, 0), "Regular", "Fakie", Some(Triple(-360, 0, 0)))
    requires key == "S180,F-360,B0" && name == "Varial Heelflip"
    requires lateKey == "S360,F0,B0" && lateName == "Frontside 360 Shuv"
    requires key in c && c[key].canonicalName == name
    requires lateKey in c && c[lateKey].canonicalName == lateName
    ensures ProcessTrick(q, c).trickName == "Fakie Varial Heelflip Late Frontside 360 Shuv"
    ensures ProcessTrick(q, c).lateTrickName == Some("Frontside 360 Shuv")
  {
    ExampleFakieVarial(q.(lateParams := None), c, key, name);
    FakieLateShuvKey(q.lateParams.value, q.naturalStance, q.activeStance, lateKey);
    ResolveLate(q, c);
    FakieVarialLateWords("Fakie Varial Heelflip", " Late ", lateName, "Fakie Varial Heelflip Late Frontside 360 Shuv");
  }
}
