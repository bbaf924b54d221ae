/** The handful of Python `str` operations the trick catalog engine relies on:
    `strip()`, `lower()`, `find()`, `in`, `split(sep)` and slicing. */
module PyStrings {

  /** The characters for which Python's `str.isspace()` holds; `str.strip()`
      with no argument removes exactly these from both ends. */
  predicate IsSpace(c: char) {
    || c == ' ' || c == '\t' || c == '\n' || c == '\r' || c == '\U{0B}' || c == '\U{0C}'
    || ('\U{1C}' <= c <= '\U{1F}') || c == '\U{85}' || c == '\U{A0}' || c == '\U{1680}'
    || ('\U{2000}' <= c <= '\U{200A}') || c == '\U{2028}' || c == '\U{2029}'
    || c == '\U{202F}' || c == '\U{205F}' || c == '\U{3000}'
  }

  predicate AllSpace(s: string) {
    forall i :: 0 <= i < |s| ==> IsSpace(s[i])
  }

  /** Neither end of `s` is whitespace: what `strip()` leaves behind. */
  predicate IsStripped(s: string) {
    |s| == 0 || (!IsSpace(s[0]) && !IsSpace(s[|s| - 1]))
  }

  /** Python's `s.lstrip()`: the suffix that remains after dropping leading whitespace. */
  function LStrip(s: string): (r: string)
    ensures |r| <= |s|
    ensures |r| == 0 || !IsSpace(r[0])
    ensures |r| > 0 ==> r[|r| - 1] == s[|s| - 1]
  {
    if |s| > 0 && IsSpace(s[0]) then LStrip(s[1..]) else s
  }

  /** What `lstrip()` keeps is a suffix of its argument. */
  lemma {:induction false} LStripSuffix(s: string)
    ensures LStrip(s) == s[|s| - |LStrip(s)|..]
    decreases |s|
  {
    if |s| > 0 && IsSpace(s[0]) {
      LStripSuffix(s[1..]);
      assert s[1..][|s| - 1 - |LStrip(s)|..] == s[|s| - |LStrip(s)|..];
    }
  }

  /** What `lstrip()` removes is whitespace only. */
  lemma {:induction false} LStripDropsSpace(s: string)
    ensures AllSpace(s[..|s| - |LStrip(s)|])
    decreases |s|
  {
    if |s| > 0 && IsSpace(s[0]) {
      var r := LStrip(s[1..]);
      LStripSuffix(s[1..]);
      LStripDropsSpace(s[1..]);
      assert s[..|s| - |r|] == [s[0]] + s[1..][..|s| - 1 - |r|];
    }
  }

  /** Python's `s.rstrip()`: the prefix that remains after dropping trailing whitespace. */
  function RStrip(s: string): (r: string)
    ensures |r| <= |s|
    ensures |r| == 0 || !IsSpace(r[|r| - 1])
    ensures |r| > 0 ==> r[0] == s[0]
  {
    if |s| > 0 && IsSpace(s[|s| - 1]) then RStrip(s[..|s| - 1]) else s
  }

  /** What `rstrip()` keeps is a prefix of its argument. */
  lemma {:induction false} RStripPrefix(s: string)
    ensures RStrip(s) == s[..|RStrip(s)|]
    decreases |s|
  {
    if |s| > 0 && IsSpace(s[|s| - 1]) {
      RStripPrefix(s[..|s| - 1]);
      assert s[..|s| - 1][..|RStrip(s)|] == s[..|RStrip(s)|];
    }
  }

  /** What `rstrip()` removes is whitespace only. */
  lemma {:induction false} RStripDropsSpace(s: string)
    ensures AllSpace(s[|RStrip(s)|..])
    decreases |s|
  {
    if |s| > 0 && IsSpace(s[|s| - 1]) {
      var r := RStrip(s[..|s| - 1]);
      RStripPrefix(s[..|s| - 1]);
      RStripDropsSpace(s[..|s| - 1]);
      assert s[|r|..] == s[..|s| - 1][|r|..] + [s[|s| - 1]];
    }
  }

  /** Python's `s.strip()`. */
  function Strip(s: string): (r: string)
    ensures IsStripped(r)
    ensures |r| <= |s|
  {
    RStrip(LStrip(s))
  }

  lemma {:induction false} LStripSkipsSpace(pre: string, rest: string)
    requires AllSpace(pre)
    ensures LStrip(pre + rest) == LStrip(rest)
    decreases |pre|
  {
    if |pre| > 0 {
      assert (pre + rest)[1..] == pre[1..] + rest;
      LStripSkipsSpace(pre[1..], rest);
    } else {
      assert pre + rest == rest;
    }
  }

  lemma {:induction false} RStripSkipsSpace(rest: string, post: string)
    requires AllSpace(post)
    ensures RStrip(rest + post) == RStrip(rest)
    decreases |post|
  {
    if |post| > 0 {
      assert (rest + post)[..|rest + post| - 1] == rest + post[..|post| - 1];
      RStripSkipsSpace(rest, post[..|post| - 1]);
    } else {
      assert rest + post == rest;
    }
  }

  /** `strip()` is determined by its result: whatever stripped text is
      surrounded only by whitespace is exactly what `strip()` returns. */
  lemma StripUnique(pre: string, mid: string, post: string)
    requires AllSpace(pre) && AllSpace(post) && IsStripped(mid)
    ensures Strip(pre + mid + post) == mid
  {
    assert pre + mid + post == pre + (mid + post);
    LStripSkipsSpace(pre, mid + post);
    if |mid| == 0 {
      assert mid + post == post + "";
      LStripSkipsSpace(post, "");
      assert LStrip(pre + mid + post) == LStrip("") == "";
      assert Strip(pre + mid + post) == RStrip("") == "";
    } else {
      assert LStrip(mid + post) == mid + post;
      RStripSkipsSpace(mid, post);
    }
  }

  /** Every string is its stripped text surrounded by whitespace only. */
  lemma StripDecompose(s: string) returns (pre: string, post: string)
    ensures AllSpace(pre) && AllSpace(post)
    ensures s == pre + Strip(s) + post
  {
    var l := LStrip(s);
    pre := s[..|s| - |l|];
    LStripSplit(s);
    LStripDropsSpace(s);
    var r := RStrip(l);
    post := l[|r|..];
    RStripSplit(l);
    RStripDropsSpace(l);
    Associate(pre, r, post);
  }

  lemma LStripSplit(s: string)
    ensures s == s[..|s| - |LStrip(s)|] + LStrip(s)
  {
    var n := |s| - |LStrip(s)|;
    LStripSuffix(s);
    assert s == s[..n] + s[n..];
  }

  lemma RStripSplit(s: string)
    ensures s == RStrip(s) + s[|RStrip(s)|..]
  {
    var n := |RStrip(s)|;
    RStripPrefix(s);
    assert s == s[..n] + s[n..];
  }

  lemma Associate(a: string, b: string, c: string)
    ensures a + b + c == a + (b + c)
  {
  }

  lemma StripOfStripped(s: string)
    requires IsStripped(s)
    ensures Strip(s) == s
  {
    StripUnique("", s, "");
    assert "" + s + "" == s;
  }

  lemma StripIdempotent(s: string)
    ensures Strip(Strip(s)) == Strip(s)
  {
    StripOfStripped(Strip(s));
  }

  /** Python's `str.lower()` restricted to ASCII letters. */
  function LowerChar(c: char): char {
    if 'A' <= c <= 'Z' then (c as int + 32) as char else c
  }

  function Lower(s: string): (r: string)
    ensures |r| == |s|
    ensures forall i :: 0 <= i < |s| ==> r[i] == LowerChar(s[i])
  {
    seq(|s|, i requires 0 <= i < |s| => LowerChar(s[i]))
  }

  /** Python's `s.find(c)` for a single character: the first index of `c`, or -1. */
  function Find(s: string, c: char): (r: int)
    ensures -1 <= r < |s|
    ensures r == -1 <==> c !in s
    ensures r >= 0 ==> s[r] == c && c !in s[..r]
  {
    if |s| == 0 then -1
    else if s[0] == c then 0
    else
      var k := Find(s[1..], c);
      if k < 0 then -1
      else
        assert s[..k + 1] == [s[0]] + s[1..][..k];
        k + 1
  }

  /** The number of occurrences of `c` in `s`. */
  function Count(s: string, c: char): nat {
    if |s| == 0 then 0 else (if s[0] == c then 1 else 0) + Count(s[1..], c)
  }

  lemma {:induction false} CountAppend(a: string, b: string, c: char)
    ensures Count(a + b, c) == Count(a, c) + Count(b, c)
  {
    if |a| == 0 {
      assert a + b == b;
    } else {
      assert (a + b)[1..] == a[1..] + b;
      CountAppend(a[1..], b, c);
    }
  }

  lemma {:induction false} CountAbsent(a: string, c: char)
    requires c !in a
    ensures Count(a, c) == 0
  {
    if |a| > 0 {
      assert c !in a[1..];
      CountAbsent(a[1..], c);
    }
  }

  /** Python's `sep.join(parts)` for a one-character separator. */
  function Join(parts: seq<string>, sep: char): string
    requires |parts| > 0
  {
    if |parts| == 1 then parts[0] else parts[0] + [sep] + Join(parts[1..], sep)
  }

  /** Python's `s.split(sep)` for a one-character separator: the pieces
      between separators, empty pieces included. */
  function Split(s: string, sep: char): (r: seq<string>)
    ensures |r| == Count(s, sep) + 1
    ensures forall i :: 0 <= i < |r| ==> sep !in r[i]
    ensures Join(r, sep) == s
    decreases |s|
  {
    var i := Find(s, sep);
    if i < 0 then
      CountAbsent(s, sep);
      [s]
    else
      var rest := Split(s[i + 1..], sep);
      assert s == s[..i] + [sep] + s[i + 1..];
      CountAppend(s[..i] + [sep], s[i + 1..], sep);
      CountAppend(s[..i], [sep], sep);
      CountAbsent(s[..i], sep);
      assert ([s[..i]] + rest)[1..] == rest;
      [s[..i]] + rest
  }

  lemma FindAfterPrefix(a: string, c: char, b: string)
    requires c !in a
    ensures Find(a + [c] + b, c) == |a|
  {
    var s := a + [c] + b;
    assert s[|a|] == c;
    assert s[..|a|] == a;
  }

  /** Splitting undoes joining when no part contains the separator. */
  lemma {:induction false} SplitJoin(parts: seq<string>, sep: char)
    requires |parts| > 0
    requires forall i :: 0 <= i < |parts| ==> sep !in parts[i]
    ensures Split(Join(parts, sep), sep) == parts
  {
    if |parts| > 1 {
      var rest := Join(parts[1..], sep);
      var s := parts[0] + [sep] + rest;
      assert Join(parts, sep) == s;
      SplitAtFirst(parts[0], sep, rest);
      SplitJoin(parts[1..], sep);
      assert parts == [parts[0]] + parts[1..];
    }
  }

  /** Splitting at a first separator peels off the piece before it. */
  lemma SplitAtFirst(a: string, sep: char, b: string)
    requires sep !in a
    ensures Split(a + [sep] + b, sep) == [a] + Split(b, sep)
  {
    var s := a + [sep] + b;
    FindAfterPrefix(a, sep, b);
    assert s[..|a|] == a;
    assert s[|a| + 1..] == b;
  }

  /** The first `sep`-separated piece of `s` is all of `s` before the first
      separator. */
  lemma SplitFirst(s: string, sep: char)
    ensures Split(s, sep)[0] == if sep in s then s[..Find(s, sep)] else s
  {
  }

  /** Splitting two separator-free texts joined by the separator gives them back. */
  lemma SplitPair(a: string, b: string, sep: char)
    requires sep !in a && sep !in b
    ensures Split(a + [sep] + b, sep) == [a, b]
  {
    var pieces := [a, b];
    assert pieces[1..] == [b];
    SplitJoin(pieces, sep);
  }

  /** Taking one more element of a sequence appends that element. */
  lemma TakeSnoc<T>(s: seq<T>, i: nat)
    requires i < |s|
    ensures s[..i + 1] == s[..i] + [s[i]]
  {
  }

  /** Taking all of a sequence gives the sequence. */
  lemma TakeAll<T>(s: seq<T>)
    ensures s[..|s|] == s
  {
  }

  /** `sub` occurs somewhere inside `s`. */
  predicate IsInfix(sub: string, s: string) {
    exists i :: 0 <= i <= |s| && StartsWith(s[i..], sub)
  }

  predicate StartsWith(s: string, prefix: string) {
    |prefix| <= |s| && s[..|prefix|] == prefix
  }

  /** Python's index normalisation for a slice bound: negative bounds count
      from the end, and every bound is clamped to `[0, n]`. */
  function SliceBound(i: int, n: nat): (r: nat)
    ensures r <= n
    ensures 0 <= i <= n ==> r == i
    ensures i < 0 && i + n >= 0 ==> r == i + n
    ensures i + n < 0 ==> r == 0
    ensures i > n ==> r == n
  {
    if i < 0 then (if i + n < 0 then 0 else i + n)
    else if i > n then n
    else i
  }

  /** Python's `s[start:stop]`. */
  function PySlice(s: string, start: int, stop: int): (r: string)
    ensures 0 <= start <= stop <= |s| ==> r == s[start..stop]
    ensures 0 <= stop <= start ==> r == ""
    ensures stop == -1 && 0 <= start < |s| ==> r == s[start..|s| - 1]
    ensures stop == -1 && start >= |s| ==> r == ""
  {
    var a := SliceBound(start, |s|);
    var b := SliceBound(stop, |s|);
    if a < b then s[a..b] else ""
  }

  /** Every character of the stripped text occurs in the original. */
  lemma StripKeepsChars(s: string, c: char)
    ensures c in Strip(s) ==> c in s
  {
    var pre, post := StripDecompose(s);
    if c in Strip(s) {
      var i :| 0 <= i < |Strip(s)| && Strip(s)[i] == c;
      assert s[|pre| + i] == c;
    }
  }

  /** `find` returns the first occurrence: a position holding `c` with no
      `c` before it. */
  lemma FindAt(s: string, c: char, i: int)
    requires 0 <= i < |s| && s[i] == c && c !in s[..i]
    ensures Find(s, c) == i
  {
    assert s[i] in s;
    var r := Find(s, c);
    assert forall k :: 0 <= k < i ==> s[..i][k] == s[k];
    assert forall k :: 0 <= k < r ==> s[..r][k] == s[k];
  }

  lemma {:induction false} JoinKeepsChars(parts: seq<string>, sep: char, i: int, c: char)
    requires |parts| > 0 && 0 <= i < |parts|
    requires c !in Join(parts, sep)
    ensures c !in parts[i]
  {
    if |parts| > 1 {
      var rest := Join(parts[1..], sep);
      assert Join(parts, sep) == parts[0] + [sep] + rest;
      if i == 0 {
        assert forall k :: 0 <= k < |parts[0]| ==> parts[0][k] == Join(parts, sep)[k];
      } else {
        assert forall k :: 0 <= k < |rest| ==> rest[k] == Join(parts, sep)[|parts[0]| + 1 + k];
        JoinKeepsChars(parts[1..], sep, i - 1, c);
      }
    }
  }

  /** A non-whitespace character survives stripping. */
  lemma StripKeepsInnerChar(s: string, c: char)
    requires c in s && !IsSpace(c)
    ensures c in Strip(s)
  {
    var pre, post := StripDecompose(s);
    var m := Strip(s);
    var i :| 0 <= i < |s| && s[i] == c;
    InnerIndex(pre, m, post, i);
  }

  /** A non-whitespace position of `pre + m + post`, with whitespace-only
      `pre` and `post`, lies inside `m`. */
  lemma InnerIndex(pre: string, m: string, post: string, i: int)
    requires AllSpace(pre) && AllSpace(post)
    requires 0 <= i < |pre + m + post| && !IsSpace((pre + m + post)[i])
    ensures |pre| <= i < |pre| + |m| && (pre + m + post)[i] == m[i - |pre|]
  {
    var s := pre + m + post;
    assert forall k :: 0 <= k < |pre| ==> s[k] == pre[k];
    assert forall k :: |pre| + |m| <= k < |s| ==> s[k] == post[k - |pre| - |m|];
  }

  lemma StripAfterSpace(mid: string)
    requires IsStripped(mid)
    ensures Strip(" " + mid) == mid
  {
    assert AllSpace(" ");
    StripUnique(" ", mid, "");
    assert " " + mid + "" == " " + mid;
  }

  lemma {:induction false} JoinAvoids(parts: seq<string>, sep: char, c: char)
    requires |parts| > 0 && c != sep
    requires forall i :: 0 <= i < |parts| ==> c !in parts[i]
    ensures c !in Join(parts, sep)
  {
    if |parts| > 1 {
      JoinAvoids(parts[1..], sep, c);
    }
  }

  lemma {:induction false} JoinStripped(parts: seq<string>, sep: char)
    requires |parts| > 0 && !IsSpace(sep)
    requires forall i :: 0 <= i < |parts| ==> IsStripped(parts[i])
    ensures IsStripped(Join(parts, sep))
  {
    if |parts| > 1 {
      JoinStripped(parts[1..], sep);
      var rest := Join(parts[1..], sep);
      var j := parts[0] + [sep] + rest;
      assert j[0] == (if |parts[0]| > 0 then parts[0][0] else sep);
      assert j[|j| - 1] == (if |rest| > 0 then rest[|rest| - 1] else sep);
    }
  }

  lemma InfixAtEnd(a: string, sub: string)
    ensures IsInfix(sub, a + sub)
  {
    assert (a + sub)[|a|..] == sub;
    assert StartsWith((a + sub)[|a|..], sub);
  }

  lemma InfixExtend(sub: string, s: string, t: string)
    requires IsInfix(sub, s)
    ensures IsInfix(sub, s + t)
  {
    var i :| 0 <= i <= |s| && StartsWith(s[i..], sub);
    assert (s + t)[i..][..|sub|] == s[i..][..|sub|];
    assert StartsWith((s + t)[i..], sub);
  }

  /** Stripping text that ends in a non-empty stripped name only trims the front. */
  lemma {:induction false} LStripBeforeStripped(pre: string, mid: string)
    requires |mid| > 0 && !IsSpace(mid[0])
    ensures LStrip(pre + mid) == LStrip(pre) + mid
    decreases |pre|
  {
    if |pre| == 0 {
      assert pre + mid == mid;
    } else if IsSpace(pre[0]) {
      assert (pre + mid)[1..] == pre[1..] + mid;
      LStripBeforeStripped(pre[1..], mid);
    }
  }

  lemma StripBeforeStripped(pre: string, mid: string)
    requires |mid| > 0 && IsStripped(mid)
    ensures Strip(pre + mid) == LStrip(pre) + mid
  {
    LStripBeforeStripped(pre, mid);
    var l := LStrip(pre) + mid;
    assert !IsSpace(l[|l| - 1]);
  }
}
