/** The catalog builder: every usable row of the trick spreadsheet becomes a
    catalog entry carrying its composite key, display name, raw parameters
    and aliases; the entries are collected, in row order, into a version
    "1.0" document. */
module Builder {
  import opened Wrappers
  import opened PyStrings
  import opened Decimal
  import opened Keys
  import opened Aliases

  const CatalogVersion := "1.0"

  /** One entry of the built document. The builder writes `trickName`
      (the resolver reads `canonicalName`, which the builder never writes). */
  datatype BuilderEntry = BuilderEntry(
    compositeKey: string,
    trickName: string,
    parameters: Params,
    otherNames: seq<string>)

  datatype TrickCatalogDocument = TrickCatalogDocument(version: string, tricks: seq<BuilderEntry>)

  /** One physical line of the spreadsheet together with the cells the CSV
      reader produces for it. */
  datatype Line = Line(text: string, cells: seq<string>)

  /** `name.split('(')[0].strip()`: the display name, cut at the first `(`. */
  function TrickNameOf(name: string): string {
    Strip(Split(name, '(')[0])
  }

  /** The display name is trimmed and never holds a `(`. */
  lemma TrickNameClean(name: string)
    ensures '(' !in TrickNameOf(name) && IsStripped(TrickNameOf(name))
  {
    StripKeepsChars(Split(name, '(')[0], '(');
  }

  /** Without a `(`, the display name is the whole name, trimmed. */
  lemma TrickNameWithoutGroup(name: string)
    requires '(' !in name
    ensures TrickNameOf(name) == Strip(name)
  {
    SplitFirst(name, '(');
  }

  /** With a `(`, the display name is the text before the first one,
      trimmed, whatever follows it. */
  lemma TrickNameBeforeGroup(head: string, rest: string)
    requires '(' !in head
    ensures TrickNameOf(head + "(" + rest) == Strip(head)
  {
    var name := head + "(" + rest;
    assert name == head + ['('] + rest;
    FindAfterPrefix(head, '(', rest);
    SplitFirst(name, '(');
    assert name[..|head|] == head;
  }

  /** `create_trick_entry`: the entry for one row of already-parsed integers. */
  function CreateTrickEntry(spin: int, flip: int, body: int, activeStance: int, name: string): BuilderEntry {
    var p := Params(spin, flip, body, activeStance);
    BuilderEntry(BuilderKey(p), TrickNameOf(name), p, ExtractOtherNames(name))
  }

  /** The entry records the row's integers, its key reads back as exactly
      those integers, its display name is trimmed and free of `(`, and its
      aliases are trimmed and free of `,`, `*` and `)`. */
  lemma CreateTrickEntrySound(spin: int, flip: int, body: int, activeStance: int, name: string)
    ensures var e := CreateTrickEntry(spin, flip, body, activeStance, name);
      && e.parameters == Params(spin, flip, body, activeStance)
      && ParseBuilderKey(e.compositeKey) == Some(e.parameters)
      && '(' !in e.trickName && IsStripped(e.trickName)
      && forall i :: 0 <= i < |e.otherNames| ==>
        IsStripped(e.otherNames[i]) && ',' !in e.otherNames[i] && '*' !in e.otherNames[i] && ')' !in e.otherNames[i]
  {
    BuilderKeyRoundTrip(Params(spin, flip, body, activeStance));
    TrickNameClean(name);
    AliasesAreClean(name);
  }

  /** The line filter applied before CSV parsing: blank lines and lines whose
      trimmed text starts with `#` are dropped. */
  predicate IsContentLine(text: string) {
    var t := Strip(text);
    |t| > 0 && t[0] != '#'
  }

  /** The four integer fields of a row: absent when the row has fewer than
      five cells or any of the first four is not an integer literal. */
  function ParseFields(cells: seq<string>): (r: Option<Params>)
    ensures r.Some? <==>
      && |cells| >= 5
      && ParseInt(cells[0]).Some? && ParseInt(cells[1]).Some?
      && ParseInt(cells[2]).Some? && ParseInt(cells[3]).Some?
    ensures r.Some? ==> r.value == Params(ParseInt(cells[0]).value, ParseInt(cells[1]).value,
                                          ParseInt(cells[2]).value, ParseInt(cells[3]).value)
  {
    if |cells| < 5 then None
    else
      match (ParseInt(cells[0]), ParseInt(cells[1]), ParseInt(cells[2]), ParseInt(cells[3]))
      case (Some(s), Some(f), Some(b), Some(a)) => Some(Params(s, f, b, a))
      case _ => None
  }

  /** The entry a line contributes, if any. */
  function LineEntry(line: Line): (r: Option<BuilderEntry>)
    ensures r.Some? <==> IsContentLine(line.text) && ParseFields(line.cells).Some?
    ensures r.Some? ==> r.value.parameters == ParseFields(line.cells).value
  {
    if !IsContentLine(line.text) then None
    else
      match ParseFields(line.cells)
      case None => None
      case Some(p) => Some(CreateTrickEntry(p.spin, p.flip, p.body, p.activeStance, Strip(line.cells[4])))
  }

  /** The results of `f` on the elements it accepts, in order. */
  function FilterMap<A, B>(f: A -> Option<B>, xs: seq<A>): (r: seq<B>)
    ensures |r| <= |xs|
  {
    if |xs| == 0 then []
    else
      var init := FilterMap(f, xs[..|xs| - 1]);
      match f(xs[|xs| - 1])
      case None => init
      case Some(y) => init + [y]
  }

  /** The entries of all accepted lines, in line order. */
  function Accepted(lines: seq<Line>): (r: seq<BuilderEntry>)
    ensures |r| <= |lines|
  {
    FilterMap(LineEntry, lines)
  }

  /** `csv_to_trick_catalog` without the file handling: one pass over the
      lines, skipping unusable ones, then the versioned document. */
  method CsvToTrickCatalog(lines: seq<Line>) returns (doc: TrickCatalogDocument)
    ensures doc.version == CatalogVersion
    ensures doc.tricks == Accepted(lines)
    ensures |doc.tricks| <= |lines|
  {
    var tricks: seq<BuilderEntry> := [];
    var i := 0;
    while i < |lines|
      invariant 0 <= i <= |lines|
      invariant tricks == Accepted(lines[..i])
    {
      var line := lines[i];
      TakeSnoc(lines, i);
      FilterMapSnoc(LineEntry, lines[..i], line);
      i := i + 1;
      if !IsContentLine(line.text) || |line.cells| < 5 {
        continue;
      }
      var fields := ParseFields(line.cells);
      if fields.None? {
        continue;
      }
      var name := Strip(line.cells[4]);
      var trick := CreateTrickEntry(fields.value.spin, fields.value.flip, fields.value.body,
                                    fields.value.activeStance, name);
      assert LineEntry(line) == Some(trick);
      tricks := tricks + [trick];
    }
    TakeAll(lines);
    doc := TrickCatalogDocument(CatalogVersion, tricks);
  }

  // ---------------------------------------------------------------------------
  // Properties of the builder
  // ---------------------------------------------------------------------------

  lemma FilterMapSnoc<A, B>(f: A -> Option<B>, xs: seq<A>, x: A)
    ensures FilterMap(f, xs + [x]) == FilterMap(f, xs) + (if f(x).Some? then [f(x).value] else [])
  {
    assert (xs + [x])[..|xs|] == xs;
  }

  lemma {:induction false} FilterMapAppend<A, B>(f: A -> Option<B>, a: seq<A>, b: seq<A>)
    ensures FilterMap(f, a + b) == FilterMap(f, a) + FilterMap(f, b)
    decreases |b|
  {
    if |b| == 0 {
      assert a + b == a;
    } else {
      var b' := b[..|b| - 1];
      assert (a + b)[..|a + b| - 1] == a + b';
      assert (a + b)[|a + b| - 1] == b[|b| - 1];
      FilterMapAppend(f, a, b');
    }
  }

  lemma {:induction false} FilterMapCorrespondence<A, B>(f: A -> Option<B>, xs: seq<A>) returns (idx: seq<nat>)
    ensures |idx| == |FilterMap(f, xs)|
    ensures forall j :: 0 <= j < |idx| ==> idx[j] < |xs| && f(xs[idx[j]]) == Some(FilterMap(f, xs)[j])
    ensures forall j, k :: 0 <= j < k < |idx| ==> idx[j] < idx[k]
    ensures forall i :: 0 <= i < |xs| && f(xs[i]).Some? ==> i in idx
  {
    if |xs| == 0 {
      idx := [];
    } else {
      var n := |xs| - 1;
      var init := xs[..n];
      var idx0 := FilterMapCorrespondence(f, init);
      assert forall i :: 0 <= i < n ==> init[i] == xs[i];
      if f(xs[n]).Some? {
        idx := idx0 + [n];
        assert FilterMap(f, xs) == FilterMap(f, init) + [f(xs[n]).value];
      } else {
        idx := idx0;
        assert FilterMap(f, xs) == FilterMap(f, init);
      }
    }
  }

  /** Building is compositional: the lines of two files give the entries of
      the first followed by those of the second. */
  lemma AcceptedAppend(a: seq<Line>, b: seq<Line>)
    ensures Accepted(a + b) == Accepted(a) + Accepted(b)
  {
    FilterMapAppend(LineEntry, a, b);
  }

  /** The document lists exactly the accepted lines' entries, in order: each
      entry comes from an accepted line, the lines are strictly increasing,
      and no accepted line is missed. */
  lemma AcceptedCorrespondence(lines: seq<Line>) returns (idx: seq<nat>)
    ensures |idx| == |Accepted(lines)|
    ensures forall j :: 0 <= j < |idx| ==>
      idx[j] < |lines| && LineEntry(lines[idx[j]]) == Some(Accepted(lines)[j])
    ensures forall j, k :: 0 <= j < k < |idx| ==> idx[j] < idx[k]
    ensures forall i :: 0 <= i < |lines| && LineEntry(lines[i]).Some? ==> i in idx
  {
    idx := FilterMapCorrespondence(LineEntry, lines);
  }

  /** A content line whose first four cells are printed integers yields the
      entry for exactly those integers and its trimmed fifth cell. */
  lemma RowOfPrintedFields(text: string, cells: seq<string>, spin: int, flip: int, body: int, activeStance: int)
    requires IsContentLine(text) && |cells| >= 5
    requires cells[0] == IntToString(spin) && cells[1] == IntToString(flip)
    requires cells[2] == IntToString(body) && cells[3] == IntToString(activeStance)
    ensures LineEntry(Line(text, cells)) == Some(CreateTrickEntry(spin, flip, body, activeStance, Strip(cells[4])))
  {
    IntRoundTrip(spin);
    IntRoundTrip(flip);
    IntRoundTrip(body);
    IntRoundTrip(activeStance);
    assert ParseFields(cells) == Some(Params(spin, flip, body, activeStance));
  }

  /** A comment line (optional leading whitespace, then `#`) contributes
      nothing, whatever its cells. */
  lemma CommentLineSkipped(pre: string, rest: string, cells: seq<string>)
    requires AllSpace(pre)
    ensures LineEntry(Line(pre + "#" + rest, cells)) == None
  {
    var text := pre + "#" + rest;
    var body := "#" + rest;
    assert text == pre + body;
    LStripSkipsSpace(pre, body);
    assert LStrip(body) == body;
    RStripDropsSpace(body);
    assert !IsSpace(body[0]);
    var t := Strip(text);
    assert t == RStrip(body);
    assert |t| > 0 && t[0] == '#';
  }

  /** A blank line contributes nothing, whatever its cells. */
  lemma BlankLineSkipped(text: string, cells: seq<string>)
    requires AllSpace(text)
    ensures LineEntry(Line(text, cells)) == None
  {
    StripUnique(text, "", "");
    assert text + "" + "" == text;
  }

  /** A row of fewer than five cells contributes nothing. */
  lemma ShortRowSkipped(text: string, cells: seq<string>)
    requires |cells| < 5
    ensures LineEntry(Line(text, cells)) == None
  {
  }
}
