/** The two composite-key formats of the engine. The resolver looks tricks up
    by `S{spin},F{flip},B{body}`; the catalog builder writes
    `S{spin},F{flip},B{body},A{activeStance}`. Each has a parser that undoes
    it, and the two formats never produce the same string. */
module Keys {
  import opened Wrappers
  import opened PyStrings
  import opened Decimal
  import opened Stance

  /** The four raw integers of a catalog row, as the builder records them. */
  datatype Params = Params(spin: int, flip: int, body: int, activeStance: int)

  /** The resolver's lookup key for a (normalised) triple. */
  function ResolverKey(t: Triple): string {
    "S" + IntToString(t.spin) + ",F" + IntToString(t.flip) + ",B" + IntToString(t.body)
  }

  /** The builder's `compositeKey`, which also carries the active stance. */
  function BuilderKey(p: Params): string {
    "S" + IntToString(p.spin) + ",F" + IntToString(p.flip) + ",B" + IntToString(p.body)
      + ",A" + IntToString(p.activeStance)
  }

  /** A one-letter tag followed by an integer, as in `F-360`. */
  function ParseTagged(tag: char, piece: string): Option<int> {
    if |piece| > 0 && piece[0] == tag then ParseInt(piece[1..]) else None
  }

  function ParseResolverKey(k: string): Option<Triple> {
    var ps := Split(k, ',');
    if |ps| != 3 then None
    else
      match (ParseTagged('S', ps[0]), ParseTagged('F', ps[1]), ParseTagged('B', ps[2]))
      case (Some(s), Some(f), Some(b)) => Some(Triple(s, f, b))
      case _ => None
  }

  function ParseBuilderKey(k: string): Option<Params> {
    var ps := Split(k, ',');
    if |ps| != 4 then None
    else
      match (ParseTagged('S', ps[0]), ParseTagged('F', ps[1]), ParseTagged('B', ps[2]), ParseTagged('A', ps[3]))
      case (Some(s), Some(f), Some(b), Some(a)) => Some(Params(s, f, b, a))
      case _ => None
  }

  lemma TaggedRoundTrip(tag: char, i: int)
    ensures ParseTagged(tag, [tag] + IntToString(i)) == Some(i)
  {
    IntRoundTrip(i);
    assert ([tag] + IntToString(i))[1..] == IntToString(i);
  }

  lemma TaggedNoComma(tag: char, i: int)
    requires tag != ','
    ensures ',' !in [tag] + IntToString(i)
  {
    var s := [tag] + IntToString(i);
    assert forall k :: 0 <= k < |s| ==> s[k] != ',' by {
      forall k | 0 <= k < |s| ensures s[k] != ',' {
        if k > 0 {
          assert s[k] == IntToString(i)[k - 1];
        }
      }
    }
  }

  /** The resolver key is the comma-join of three tagged integers. */
  lemma ResolverKeyPieces(t: Triple)
    ensures ResolverKey(t) == Join(["S" + IntToString(t.spin), "F" + IntToString(t.flip), "B" + IntToString(t.body)], ',')
  {
    var s, f, b := IntToString(t.spin), IntToString(t.flip), IntToString(t.body);
    assert Join(["B" + b], ',') == "B" + b;
    assert ["F" + f, "B" + b][1..] == ["B" + b];
    assert Join(["F" + f, "B" + b], ',') == "F" + f + [','] + ("B" + b);
    assert ["S" + s, "F" + f, "B" + b][1..] == ["F" + f, "B" + b];
    assert ResolverKey(t) == "S" + s + [','] + ("F" + f + [','] + ("B" + b));
  }

  lemma BuilderKeyPieces(p: Params)
    ensures BuilderKey(p) == Join(["S" + IntToString(p.spin), "F" + IntToString(p.flip),
                                   "B" + IntToString(p.body), "A" + IntToString(p.activeStance)], ',')
  {
    var s, f, b, a := IntToString(p.spin), IntToString(p.flip), IntToString(p.body), IntToString(p.activeStance);
    assert Join(["A" + a], ',') == "A" + a;
    assert ["B" + b, "A" + a][1..] == ["A" + a];
    assert Join(["B" + b, "A" + a], ',') == "B" + b + [','] + ("A" + a);
    assert ["F" + f, "B" + b, "A" + a][1..] == ["B" + b, "A" + a];
    assert ["S" + s, "F" + f, "B" + b, "A" + a][1..] == ["F" + f, "B" + b, "A" + a];
    assert BuilderKey(p) == "S" + s + [','] + ("F" + f + [','] + ("B" + b + [','] + ("A" + a)));
  }

  /** The resolver key splits into exactly its three tagged integers. */
  lemma ResolverKeySplit(t: Triple)
    ensures Split(ResolverKey(t), ',') == ["S" + IntToString(t.spin), "F" + IntToString(t.flip), "B" + IntToString(t.body)]
  {
    var parts := ["S" + IntToString(t.spin), "F" + IntToString(t.flip), "B" + IntToString(t.body)];
    TaggedNoComma('S', t.spin);
    TaggedNoComma('F', t.flip);
    TaggedNoComma('B', t.body);
    assert forall k :: 0 <= k < |parts| ==> ',' !in parts[k];
    ResolverKeyPieces(t);
    SplitJoin(parts, ',');
  }

  lemma BuilderKeySplit(p: Params)
    ensures Split(BuilderKey(p), ',') == ["S" + IntToString(p.spin), "F" + IntToString(p.flip),
                                          "B" + IntToString(p.body), "A" + IntToString(p.activeStance)]
  {
    var parts := ["S" + IntToString(p.spin), "F" + IntToString(p.flip),
                  "B" + IntToString(p.body), "A" + IntToString(p.activeStance)];
    TaggedNoComma('S', p.spin);
    TaggedNoComma('F', p.flip);
    TaggedNoComma('B', p.body);
    TaggedNoComma('A', p.activeStance);
    assert forall k :: 0 <= k < |parts| ==> ',' !in parts[k];
    BuilderKeyPieces(p);
    SplitJoin(parts, ',');
  }

  /** The resolver key names its triple unambiguously. */
  lemma ResolverKeyRoundTrip(t: Triple)
    ensures ParseResolverKey(ResolverKey(t)) == Some(t)
  {
    ResolverKeySplit(t);
    TaggedRoundTrip('S', t.spin);
    TaggedRoundTrip('F', t.flip);
    TaggedRoundTrip('B', t.body);
  }

  /** The builder key names its four integers unambiguously. */
  lemma BuilderKeyRoundTrip(p: Params)
    ensures ParseBuilderKey(BuilderKey(p)) == Some(p)
  {
    BuilderKeySplit(p);
    TaggedRoundTrip('S', p.spin);
    TaggedRoundTrip('F', p.flip);
    TaggedRoundTrip('B', p.body);
    TaggedRoundTrip('A', p.activeStance);
  }

  /** Distinct triples never share a resolver key. */
  lemma ResolverKeyInjective(t1: Triple, t2: Triple)
    ensures ResolverKey(t1) == ResolverKey(t2) <==> t1 == t2
  {
    ResolverKeyRoundTrip(t1);
    ResolverKeyRoundTrip(t2);
  }

  /** The two key schemes are disjoint: a builder key has four comma-separated
      pieces and a resolver key three, so no builder `compositeKey` is ever
      found by a resolver lookup, and neither parser accepts the other format. */
  lemma KeySchemesDisjoint(p: Params, t: Triple)
    ensures BuilderKey(p) != ResolverKey(t)
    ensures ParseBuilderKey(ResolverKey(t)) == None
    ensures ParseResolverKey(BuilderKey(p)) == None
  {
    ResolverKeySplit(t);
    BuilderKeySplit(p);
  }
}
