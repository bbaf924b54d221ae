/** `extract_other_names`: the alternative names written in parentheses after
    a trick's name, found by character position rather than by a grammar. */
module Aliases {
  import opened PyStrings

  /** The alias group: the slice `name[find('(') + 1 : find(')')]`, stripped.
      When `)` is missing, `find` gives -1 and the slice stops one character
      short of the end; when the first `)` comes before the first `(`, the
      slice is empty. */
  function AliasGroup(name: string): string
    requires '(' in name
  {
    Strip(GroupSlice(name))
  }

  /** The unstripped slice between the parentheses. */
  function GroupSlice(name: string): string
    requires '(' in name
  {
    PySlice(name, Find(name, '(') + 1, Find(name, ')'))
  }

  /** The group never holds a `)`. */
  lemma AliasGroupNoClose(name: string)
    requires '(' in name
    ensures ')' !in AliasGroup(name)
  {
    SliceBeforeClose(name);
    StripKeepsChars(GroupSlice(name), ')');
  }

  /** The four shapes of the slice: up to the first `)` when it follows the
      first `(`; up to but excluding the last character when there is no `)`;
      empty when the `(` ends the name or the first `)` precedes it. */
  lemma AliasGroupCases(name: string)
    requires '(' in name
    ensures var o, cl := Find(name, '('), Find(name, ')');
      && (cl > o ==> AliasGroup(name) == Strip(name[o + 1..cl]))
      && (cl == -1 && o + 1 < |name| ==> AliasGroup(name) == Strip(name[o + 1..|name| - 1]))
      && (cl == -1 && o + 1 == |name| ==> AliasGroup(name) == "")
      && (0 <= cl < o ==> AliasGroup(name) == "")
  {
    ClosedCase(name);
    UnclosedCase(name);
    EmptyCase(name);
  }

  lemma ClosedCase(name: string)
    requires '(' in name
    ensures var o, cl := Find(name, '('), Find(name, ')');
      cl > o ==> AliasGroup(name) == Strip(name[o + 1..cl])
  {
    var o, cl := Find(name, '('), Find(name, ')');
    if cl > o {
      AliasGroupBetween(name, o, cl, name[o + 1..cl]);
    }
  }

  lemma UnclosedCase(name: string)
    requires '(' in name
    ensures var o, cl := Find(name, '('), Find(name, ')');
      cl == -1 && o + 1 < |name| ==> AliasGroup(name) == Strip(name[o + 1..|name| - 1])
  {
    var o, cl := Find(name, '('), Find(name, ')');
    if cl == -1 && o + 1 < |name| {
      AliasGroupUnclosed(name, o, name[o + 1..|name| - 1]);
    }
  }

  lemma EmptyCase(name: string)
    requires '(' in name
    ensures var o, cl := Find(name, '('), Find(name, ')');
      (cl == -1 && o + 1 == |name|) || (0 <= cl < o) ==> AliasGroup(name) == ""
  {
    var o, cl := Find(name, '('), Find(name, ')');
    if (cl == -1 && o + 1 == |name|) || (0 <= cl < o) {
      AliasGroupEmpty(name, o, cl);
    }
  }

  /** Without a `)` the slice stops one character short of the end. */
  lemma AliasGroupUnclosed(name: string, o: int, group: string)
    requires '(' in name && Find(name, '(') == o && Find(name, ')') == -1
    requires 0 <= o && o + 1 < |name| && name[o + 1..|name| - 1] == group
    ensures AliasGroup(name) == Strip(group)
  {
    GroupSliceUnclosed(name, o, group);
  }

  lemma GroupSliceUnclosed(name: string, o: int, group: string)
    requires '(' in name && Find(name, '(') == o && Find(name, ')') == -1
    requires 0 <= o && o + 1 < |name| && name[o + 1..|name| - 1] == group
    ensures GroupSlice(name) == group
  {
  }

  /** An empty slice gives an empty group. */
  lemma AliasGroupEmpty(name: string, o: int, cl: int)
    requires '(' in name && Find(name, '(') == o && Find(name, ')') == cl
    requires 0 <= o < |name| && ((cl == -1 && o + 1 == |name|) || (0 <= cl < o))
    ensures AliasGroup(name) == ""
  {
    GroupSliceEmpty(name, o, cl);
    assert Strip("") == "";
  }

  lemma GroupSliceEmpty(name: string, o: int, cl: int)
    requires '(' in name && Find(name, '(') == o && Find(name, ')') == cl
    requires 0 <= o < |name| && ((cl == -1 && o + 1 == |name|) || (0 <= cl < o))
    ensures GroupSlice(name) == ""
  {
  }

  /** The sliced group never contains a `)`: it ends before the first one,
      or there is none at all. */
  lemma SliceBeforeClose(name: string)
    requires '(' in name
    ensures ')' !in GroupSlice(name)
  {
    var o, cl := Find(name, '('), Find(name, ')');
    if cl > o {
      SliceOfPrefix(name, o + 1, cl);
    } else if cl == -1 {
      SliceOfAbsent(name, o + 1);
    }
  }

  lemma SliceOfPrefix(name: string, start: int, stop: int)
    requires 0 <= start <= stop <= |name| && ')' !in name[..stop]
    ensures ')' !in PySlice(name, start, stop)
  {
    var slice := name[start..stop];
    assert forall k :: 0 <= k < |slice| ==> slice[k] == name[..stop][start + k];
  }

  lemma SliceOfAbsent(name: string, start: int)
    requires 0 <= start && ')' !in name
    ensures ')' !in PySlice(name, start, -1)
  {
    var slice := PySlice(name, start, -1);
    if start < |name| {
      assert forall k :: 0 <= k < |slice| ==> slice[k] == name[start + k];
    }
  }

  /** The aliases of a raw trick name: none without a `(`, otherwise those of
      its alias group. */
  function ExtractOtherNames(name: string): (r: seq<string>)
    ensures '(' !in name ==> r == []
  {
    if '(' !in name then [] else GroupAliases(AliasGroup(name))
  }

  /** The aliases listed by an alias group: none when it holds a `*`;
      otherwise every `,`-separated piece, trimmed, in order, empty pieces
      included. */
  function GroupAliases(group: string): (r: seq<string>)
    ensures '*' in group ==> r == []
    ensures '*' !in group ==> |r| == Count(group, ',') + 1
  {
    if '*' in group then [] else StripEach(Split(group, ','))
  }

  /** `[p.strip() for p in pieces]`. */
  function StripEach(pieces: seq<string>): (r: seq<string>)
    ensures |r| == |pieces|
    ensures forall i :: 0 <= i < |r| ==> r[i] == Strip(pieces[i])
  {
    if |pieces| == 0 then [] else [Strip(pieces[0])] + StripEach(pieces[1..])
  }

  /** Every alias is trimmed and holds no `,`, `*` or `)`. */
  lemma AliasesAreClean(name: string)
    ensures forall i :: 0 <= i < |ExtractOtherNames(name)| ==>
      var a := ExtractOtherNames(name)[i];
      IsStripped(a) && ',' !in a && '*' !in a && ')' !in a
  {
    var r := ExtractOtherNames(name);
    if '(' in name {
      var group := AliasGroup(name);
      AliasGroupNoClose(name);
      assert r == GroupAliases(group);
      if '*' !in group {
        forall i | 0 <= i < |r|
          ensures IsStripped(r[i]) && ',' !in r[i] && '*' !in r[i] && ')' !in r[i]
        {
          AliasClean(group, i);
        }
      }
    }
  }

  /** One trimmed piece of a group without `*` or `)`. */
  lemma AliasClean(group: string, i: int)
    requires '*' !in group && ')' !in group && 0 <= i < |Split(group, ',')|
    ensures var a := StripEach(Split(group, ','))[i];
      IsStripped(a) && ',' !in a && '*' !in a && ')' !in a
  {
    var pieces := Split(group, ',');
    var a := StripEach(pieces)[i];
    assert a == Strip(pieces[i]);
    assert ',' !in pieces[i];
    PieceChars(pieces, group, i, '*');
    PieceChars(pieces, group, i, ')');
    StripKeepsChars(pieces[i], ',');
    StripKeepsChars(pieces[i], '*');
    StripKeepsChars(pieces[i], ')');
  }

  /** A piece of a split holds only characters of the split text. */
  lemma PieceChars(pieces: seq<string>, group: string, i: int, c: char)
    requires pieces == Split(group, ',') && 0 <= i < |pieces|
    requires c !in group
    ensures c !in pieces[i]
  {
    JoinKeepsChars(pieces, ',', i, c);
  }

  lemma {:induction false} StripEachStripped(pieces: seq<string>)
    requires forall i :: 0 <= i < |pieces| ==> IsStripped(pieces[i])
    ensures StripEach(pieces) == pieces
  {
    forall i | 0 <= i < |pieces|
      ensures StripEach(pieces)[i] == pieces[i]
    {
      StripOfStripped(pieces[i]);
    }
  }

  /** With no `(` or `)` before the first `(` and no `)` inside the group, the
      alias group is the stripped text between the parentheses. */
  lemma GroupOfParenthesised(head: string, group: string, tail: string)
    requires '(' !in head && ')' !in head && ')' !in group
    ensures AliasGroup(head + "(" + group + ")" + tail) == Strip(group)
  {
    var n := head + "(" + group + ")" + tail;
    ParenthesisedLayout(head, group, tail);
    AliasGroupBetween(n, |head|, |head| + 1 + |group|, group);
  }

  /** With the first `(` at `o` and the first `)` at `cl` after it, the group
      is the stripped text strictly between them. */
  lemma AliasGroupBetween(name: string, o: int, cl: int, group: string)
    requires '(' in name && Find(name, '(') == o && Find(name, ')') == cl
    requires 0 <= o < cl <= |name| && name[o + 1..cl] == group
    ensures AliasGroup(name) == Strip(group)
  {
    GroupSliceBetween(name, o, cl, group);
  }

  lemma GroupSliceBetween(name: string, o: int, cl: int, group: string)
    requires '(' in name && Find(name, '(') == o && Find(name, ')') == cl
    requires 0 <= o < cl <= |name| && name[o + 1..cl] == group
    ensures GroupSlice(name) == group
  {
  }

  /** Where the parentheses and the group sit in `head(group)tail`. */
  lemma ParenthesisedLayout(head: string, group: string, tail: string)
    requires '(' !in head && ')' !in head && ')' !in group
    ensures var n := head + "(" + group + ")" + tail;
      && '(' in n && Find(n, '(') == |head| && Find(n, ')') == |head| + 1 + |group|
      && n[|head| + 1..|head| + 1 + |group|] == group
  {
    var n := head + "(" + group + ")" + tail;
    assert n[..|head|] == head;
    FindAt(n, '(', |head|);
    assert n[..|head| + 1 + |group|] == head + "(" + group;
    FindAt(n, ')', |head| + 1 + |group|);
    assert n[|head| + 1..|head| + 1 + |group|] == group;
  }

  /** Without a `)` the group loses the name's last character. */
  lemma GroupOfUnclosed(head: string, rest: string)
    requires '(' !in head && ')' !in head && ')' !in rest && |rest| > 0
    ensures AliasGroup(head + "(" + rest) == Strip(rest[..|rest| - 1])
  {
    var n := head + "(" + rest;
    UnclosedLayout(head, rest);
    AliasGroupUnclosed(n, |head|, rest[..|rest| - 1]);
  }

  lemma UnclosedLayout(head: string, rest: string)
    requires '(' !in head && ')' !in head && ')' !in rest && |rest| > 0
    ensures var n := head + "(" + rest;
      && '(' in n && Find(n, '(') == |head| && Find(n, ')') == -1
      && n[|head| + 1..|n| - 1] == rest[..|rest| - 1]
  {
    var n := head + "(" + rest;
    assert n[..|head|] == head;
    FindAt(n, '(', |head|);
    assert ')' !in n;
    assert n[|head| + 1..|n| - 1] == rest[..|rest| - 1];
  }

  /** Without a `)` the aliases are those of the rest of the name minus its
      last character. */
  lemma ExtractUnclosed(head: string, rest: string)
    requires '(' !in head && ')' !in head && ')' !in rest && |rest| > 0
    ensures ExtractOtherNames(head + "(" + rest) == GroupAliases(Strip(rest[..|rest| - 1]))
  {
    var name := head + "(" + rest;
    GroupOfUnclosed(head, rest);
    assert name[|head|] == '(';
  }

  /** A group without `,` or `*` lists itself, trimmed. */
  lemma GroupSingle(a: string)
    requires IsStripped(a) && ',' !in a && '*' !in a
    ensures GroupAliases(a) == [a]
  {
    assert [a][1..] == [];
    SplitJoin([a], ',');
    assert Split(a, ',') == [a];
    StripOfStripped(a);
    assert StripEach([a]) == [a];
  }

  /** A `*` anywhere in the parenthesised group suppresses every alias. */
  lemma ExtractUnconfirmed(head: string, group: string, tail: string)
    requires '(' !in head && ')' !in head && ')' !in group && '*' in group
    ensures ExtractOtherNames(head + "(" + group + ")" + tail) == []
  {
    var name := head + "(" + group + ")" + tail;
    GroupOfParenthesised(head, group, tail);
    assert !IsSpace('*');
    StripKeepsInnerChar(group, '*');
    assert name[|head|] == '(';
    assert ExtractOtherNames(name) == GroupAliases(Strip(group));
  }

  /** Trimmed aliases without `,` or `*`, comma-joined, form a group that
      lists exactly them. */
  lemma GroupJoined(aliases: seq<string>)
    requires |aliases| > 0
    requires forall i :: 0 <= i < |aliases| ==> IsStripped(aliases[i]) && ',' !in aliases[i] && '*' !in aliases[i]
    ensures GroupAliases(Join(aliases, ',')) == aliases
  {
    var group := Join(aliases, ',');
    JoinAvoids(aliases, ',', '*');
    assert '*' !in group;
    SplitJoin(aliases, ',');
    assert Split(group, ',') == aliases;
    StripEachStripped(aliases);
    assert StripEach(Split(group, ',')) == aliases;
  }

  /** Round trip: trimmed aliases without `,`, `*` or `)`, written
      comma-separated in parentheses after the name, are extracted exactly,
      empty ones included. */
  lemma ExtractJoined(head: string, aliases: seq<string>, tail: string)
    requires '(' !in head && ')' !in head && |aliases| > 0
    requires forall i :: 0 <= i < |aliases| ==>
      IsStripped(aliases[i]) && ',' !in aliases[i] && '*' !in aliases[i] && ')' !in aliases[i]
    ensures ExtractOtherNames(head + "(" + Join(aliases, ',') + ")" + tail) == aliases
  {
    var name := head + "(" + Join(aliases, ',') + ")" + tail;
    GroupOfJoined(head, aliases, tail);
    GroupJoined(aliases);
    assert name[|head|] == '(';
  }

  lemma GroupOfJoined(head: string, aliases: seq<string>, tail: string)
    requires '(' !in head && ')' !in head && |aliases| > 0
    requires forall i :: 0 <= i < |aliases| ==> IsStripped(aliases[i]) && ')' !in aliases[i]
    ensures AliasGroup(head + "(" + Join(aliases, ',') + ")" + tail) == Join(aliases, ',')
  {
    var group := Join(aliases, ',');
    JoinAvoids(aliases, ',', ')');
    JoinStripped(aliases, ',');
    GroupOfParenthesised(head, group, tail);
    StripOfStripped(group);
  }

  lemma StripEachPair(x: string, y: string)
    ensures StripEach([x, y]) == [Strip(x), Strip(y)]
  {
    assert [x, y][1..] == [y];
    assert [y][1..] == [];
  }

  /** The group `a, b` lists `a` and `b`: the space after the comma is trimmed. */
  lemma GroupCommaSpace(a: string, b: string)
    requires IsStripped(a) && IsStripped(b)
    requires ',' !in a && ',' !in b && '*' !in a && '*' !in b
    ensures GroupAliases(a + ", " + b) == [a, b]
  {
    var group := a + ", " + b;
    assert group == a + [','] + (" " + b);
    assert ',' !in " " + b;
    SplitPair(a, " " + b, ',');
    StripEachPair(a, " " + b);
    StripOfStripped(a);
    StripAfterSpace(b);
    assert '*' !in group;
    assert StripEach(Split(group, ',')) == [a, b];
  }

  /** The catalog's usual spelling `name (a, b)`: two aliases, the space after
      the comma trimmed away. */
  lemma ExtractCommaSpace(head: string, a: string, b: string, tail: string)
    requires '(' !in head && ')' !in head
    requires |a| > 0 && |b| > 0 && IsStripped(a) && IsStripped(b)
    requires ',' !in a && ',' !in b && '*' !in a && '*' !in b && ')' !in a && ')' !in b
    ensures ExtractOtherNames(head + "(" + a + ", " + b + ")" + tail) == [a, b]
  {
    var group := a + ", " + b;
    assert IsStripped(group) by {
      assert group[0] == a[0] && group[|group| - 1] == b[|b| - 1];
    }
    assert ')' !in group;
    assert head + "(" + a + ", " + b + ")" + tail == head + "(" + group + ")" + tail;
    GroupOfParenthesised(head, group, tail);
    StripOfStripped(group);
    GroupCommaSpace(a, b);
  }

  // Worked examples. Each fixes its strings through the precondition so that
  // the solver reasons from the general lemmas above rather than by
  // unfolding every recursive definition on a literal.

  /** `"Pretzel (360 Shuv, Pretzel Flip)"` has the aliases "360 Shuv" and "Pretzel Flip". */
  lemma ExamplePretzel(head: string, a: string, b: string)
    requires head == "Pretzel " && a == "360 Shuv" && b == "Pretzel Flip"
    ensures ExtractOtherNames(head + "(" + a + ", " + b + ")") == ["360 Shuv", "Pretzel Flip"]
  {
    ExtractCommaSpace(head, a, b, "");
    assert head + "(" + a + ", " + b + ")" + "" == head + "(" + a + ", " + b + ")";
  }

  /** `"Big Flip (*)"` has no aliases. */
  lemma ExampleBigFlip(head: string, group: string)
    requires head == "Big Flip " && group == "*"
    ensures ExtractOtherNames(head + "(" + group + ")") == []
  {
    ExtractUnconfirmed(head, group, "");
    assert head + "(" + group + ")" + "" == head + "(" + group + ")";
  }

  /** `"Ollie"` has no aliases. */
  lemma ExampleOllie(name: string)
    requires name == "Ollie"
    ensures ExtractOtherNames(name) == []
  {
    assert forall k :: 0 <= k < |name| ==> name[k] != '(';
  }

  /** `"Kickflip (Flip"` yields the alias "Fli": the missing `)` costs the last character. */
  lemma ExampleUnclosed(head: string, rest: string)
    requires head == "Kickflip " && rest == "Flip"
    ensures ExtractOtherNames(head + "(" + rest) == ["Fli"]
  {
    var group := rest[..|rest| - 1];
    assert group == "Fli";
    assert IsStripped(group) && ',' !in group && '*' !in group;
    ExtractUnclosed(head, rest);
    StripOfStripped(group);
    GroupSingle(group);
  }

  /** `"Shuv (Pop+Shove)"` has the single alias "Pop+Shove": only `,`
      separates aliases, a `+` does not. */
  lemma ExamplePlusKept(head: string, alias: string)
    requires head == "Shuv " && alias == "Pop+Shove"
    ensures ExtractOtherNames(head + "(" + alias + ")") == ["Pop+Shove"]
  {
    assert IsStripped(alias) && ',' !in alias && '*' !in alias && ')' !in alias;
    ExtractJoined(head, [alias], "");
    assert Join([alias], ',') == alias;
    assert head + "(" + alias + ")" + "" == head + "(" + alias + ")";
  }

  /** `"Shuv (a,,b)"` keeps the empty middle piece. */
  lemma ExampleEmptyPiece(head: string, aliases: seq<string>)
    requires head == "Shuv " && aliases == ["a", "", "b"]
    ensures ExtractOtherNames(head + "(" + Join(aliases, ',') + ")") == ["a", "", "b"]
  {
    ExtractJoined(head, aliases, "");
    assert head + "(" + Join(aliases, ',') + ")" + "" == head + "(" + Join(aliases, ',') + ")";
  }
}
