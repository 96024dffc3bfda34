/** The JavaScript string built-ins the core relies on, on `string == seq<char>`:
    whitespace classification, `startsWith`, `indexOf`, `split` with a string
    separator, `trim`, and the whitespace-run collapse `replace(/\s+/g, ' ')`. */
module JsString {
  import opened Outcomes
  import Seqs

  /** The code points JavaScript's `\s` class and `String.prototype.trim` treat as
      white space: the WhiteSpace and LineTerminator productions of ECMAScript. */
  predicate IsSpace(c: char) {
    || c == '\t' || c == '\n' || c == '\U{B}' || c == '\U{C}' || c == '\r' || c == ' '
    || c == '\U{A0}' || c == '\U{1680}' || ('\U{2000}' <= c <= '\U{200A}')
    || c == '\U{2028}' || c == '\U{2029}' || c == '\U{202F}' || c == '\U{205F}'
    || c == '\U{3000}' || c == '\U{FEFF}'
  }

  predicate IsNotSpace(c: char) {
    !IsSpace(c)
  }

  /** JavaScript's `\d`: the ASCII digits only. */
  predicate IsAsciiDigit(c: char) {
    '0' <= c <= '9'
  }

  predicate IsNotAsciiDigit(c: char) {
    !IsAsciiDigit(c)
  }

  predicate StartsWith(s: string, prefix: string) {
    |prefix| <= |s| && s[..|prefix|] == prefix
  }

  predicate EndsWith(s: string, suffix: string) {
    |suffix| <= |s| && s[|s| - |suffix|..] == suffix
  }

  /** `pat` occurs in `s` starting at index `i`. */
  predicate OccursAt(s: string, pat: string, i: nat) {
    i + |pat| <= |s| && s[i..i + |pat|] == pat
  }

  predicate Contains(s: string, pat: string) {
    exists i: nat :: i <= |s| && OccursAt(s, pat, i)
  }

  /** A one-character pattern occurs exactly where that character stands. */
  lemma OccursAtChar(s: string, c: char, i: nat)
    ensures OccursAt(s, [c], i) <==> i < |s| && s[i] == c
  {
    if i < |s| && s[i] == c {
      assert s[i..i + 1] == [c];
    }
  }

  lemma ContainsChar(s: string, c: char)
    ensures Contains(s, [c]) <==> c in s
  {
    if c in s {
      var i :| 0 <= i < |s| && s[i] == c;
      OccursAtChar(s, c, i);
    }
    if Contains(s, [c]) {
      var i: nat :| i <= |s| && OccursAt(s, [c], i);
      OccursAtChar(s, c, i);
    }
  }

  /** An occurrence inside a prefix of `s` is an occurrence in `s`. */
  lemma OccursInPrefix(s: string, n: nat, pat: string, i: nat)
    requires n <= |s| && OccursAt(s[..n], pat, i)
    ensures OccursAt(s, pat, i)
  {
    assert s[..n][i..i + |pat|] == s[i..i + |pat|];
  }

  /** An occurrence inside the slice `s[lo..hi]` is an occurrence in `s` that
      ends within the slice. */
  lemma OccursInSlice(s: string, lo: nat, hi: nat, pat: string, m: nat)
    requires lo <= hi <= |s|
    ensures OccursAt(s[lo..hi], pat, m) ==> OccursAt(s, pat, lo + m) && lo + m + |pat| <= hi
  {
    if OccursAt(s[lo..hi], pat, m) {
      var t := s[lo..hi];
      var u := t[m..m + |pat|];
      assert forall k :: 0 <= k < |pat| ==> u[k] == s[lo + m + k];
      assert s[lo + m..lo + m + |pat|] == u;
    }
  }

  /** `s.indexOf(pat, from)` for a non-empty `pat`: the leftmost occurrence at or
      after `from`. */
  function IndexOf(s: string, pat: string, from: nat): (r: Option<nat>)
    requires |pat| > 0
    ensures r.Some? ==> from <= r.value && OccursAt(s, pat, r.value)
    ensures r.Some? ==> forall i: nat :: from <= i < r.value ==> !OccursAt(s, pat, i)
    ensures r.None? ==> forall i: nat :: from <= i ==> !OccursAt(s, pat, i)
    decreases |s| - from
  {
    if from + |pat| > |s| then None
    else if OccursAt(s, pat, from) then Some(from)
    else IndexOf(s, pat, from + 1)
  }

  /** `indexOf` finds any occurrence that has none before it. */
  lemma IndexOfLeftmost(s: string, pat: string, from: nat, i: nat)
    requires |pat| > 0 && from <= i && OccursAt(s, pat, i)
    requires forall j: nat :: from <= j < i ==> !OccursAt(s, pat, j)
    ensures IndexOf(s, pat, from) == Some(i)
  {
  }

  /** `indexOf` of one character, read off the characters themselves. */
  lemma IndexOfChar(s: string, c: char, from: nat)
    ensures IndexOf(s, [c], from).Some? ==>
              var g := IndexOf(s, [c], from).value;
              g < |s| && s[g] == c && forall k :: from <= k < g ==> s[k] != c
    ensures IndexOf(s, [c], from).None? ==> forall k :: from <= k < |s| ==> s[k] != c
  {
    forall k: nat ensures OccursAt(s, [c], k) <==> k < |s| && s[k] == c {
      OccursAtChar(s, c, k);
    }
  }

  /** `parts.join(sep)`. */
  function Join(parts: seq<string>, sep: string): string
    decreases |parts|
  {
    if parts == [] then []
    else if |parts| == 1 then parts[0]
    else parts[0] + sep + Join(parts[1..], sep)
  }

  /** `s.split(sep)` for a non-empty string separator: cut at every occurrence,
      scanning left to right without overlaps. Joining the parts gives `s` back
      and no part contains the separator. */
  function Split(s: string, sep: string): (parts: seq<string>)
    requires |sep| > 0
    ensures |parts| > 0
    ensures Join(parts, sep) == s
    ensures forall k :: 0 <= k < |parts| ==> !Contains(parts[k], sep)
    ensures forall i: nat :: OccursAt(s, sep, i) && (forall j: nat :: j < i ==> !OccursAt(s, sep, j)) ==>
              |parts| > 1 && parts[0] == s[..i]
    decreases |s|
  {
    match IndexOf(s, sep, 0)
    case None =>
      [s]
    case Some(i) =>
      var head, tail := s[..i], s[i + |sep|..];
      var rest := Split(tail, sep);
      assert s == head + sep + tail by {
        assert s[i..i + |sep|] == sep;
        assert s == s[..i] + s[i..i + |sep|] + s[i + |sep|..];
      }
      assert !Contains(head, sep) by {
        if Contains(head, sep) {
          var j: nat :| j <= |head| && OccursAt(head, sep, j);
          OccursInPrefix(s, i, sep, j);
        }
      }
      var parts := [head] + rest;
      assert parts[1..] == rest;
      parts
  }

  /** The split cuts at the leftmost occurrence of the separator and splits what
      follows it. */
  lemma SplitAtLeftmost(s: string, sep: string, i: nat)
    requires |sep| > 0 && OccursAt(s, sep, i)
    requires forall j: nat :: j < i ==> !OccursAt(s, sep, j)
    ensures Split(s, sep) == [s[..i]] + Split(s[i + |sep|..], sep)
  {
    IndexOfLeftmost(s, sep, 0, i);
  }

  /** A string without the separator is not split at all. */
  lemma SplitWithoutSeparator(s: string, sep: string)
    requires |sep| > 0 && !Contains(s, sep)
    ensures Split(s, sep) == [s]
  {
    match IndexOf(s, sep, 0)
    case None =>
    case Some(i) =>
      assert false;
  }

  /** Splitting at a character: the first part runs up to the first occurrence of
      that character, and the remaining parts are the split of what follows it. */
  lemma SplitCharFirst(s: string, c: char)
    ensures Split(s, [c])[0] == s[..Seqs.FirstIndex(s, c)]
    ensures c !in s ==> Split(s, [c]) == [s]
    ensures c in s ==> |Split(s, [c])| > 1
                       && Split(s, [c])[1..] == Split(s[Seqs.FirstIndex(s, c) + 1..], [c])
  {
    match IndexOf(s, [c], 0)
    case None =>
      if c in s {
        var i :| 0 <= i < |s| && s[i] == c;
        OccursAtChar(s, c, i);
        assert false;
      }
    case Some(i) =>
      OccursAtChar(s, c, i);
      forall j | 0 <= j < i ensures s[j] != c {
        OccursAtChar(s, c, j);
      }
      assert Seqs.FirstIndex(s, c) == i;
  }

  /** For a one-character separator `split` is the exact inverse of `join` on
      parts free of that character. */
  lemma {:induction false} SplitJoinChar(parts: seq<string>, c: char)
    requires |parts| > 0
    requires forall k :: 0 <= k < |parts| ==> c !in parts[k]
    ensures Split(Join(parts, [c]), [c]) == parts
    decreases |parts|
  {
    var s := Join(parts, [c]);
    if |parts| == 1 {
      match IndexOf(s, [c], 0)
      case None =>
      case Some(i) =>
        OccursAtChar(s, c, i);
        assert false;
    } else {
      var p0, rest := parts[0], Join(parts[1..], [c]);
      assert s == p0 + [c] + rest;
      OccursAtChar(s, c, |p0|);
      match IndexOf(s, [c], 0)
      case None =>
      case Some(i) =>
        OccursAtChar(s, c, i);
        assert i == |p0|;
        assert s[..i] == p0;
        assert s[i + 1..] == rest;
        SplitJoinChar(parts[1..], c);
        assert parts == [p0] + parts[1..];
    }
  }

  /** Length of the run of characters satisfying `f` that starts at `i`. */
  function RunLength(f: char -> bool, s: string, i: nat): (n: nat)
    requires i <= |s|
    ensures i + n <= |s|
    ensures forall k :: i <= k < i + n ==> f(s[k])
    ensures i + n < |s| ==> !f(s[i + n])
    decreases |s| - i
  {
    if i == |s| || !f(s[i]) then 0 else 1 + RunLength(f, s, i + 1)
  }

  /** Number of whitespace characters ending `s`. */
  function TrailingSpaces(s: string): (n: nat)
    ensures n <= |s|
    ensures forall k :: |s| - n <= k < |s| ==> IsSpace(s[k])
    ensures n < |s| ==> !IsSpace(s[|s| - n - 1])
    decreases |s|
  {
    if s == [] || !IsSpace(s[|s| - 1]) then 0 else 1 + TrailingSpaces(s[..|s| - 1])
  }

  /** The non-whitespace characters of `s`, in order. */
  function NonSpace(s: string): string {
    Seqs.Filter(IsNotSpace, s)
  }

  /** `s.trim()`: `s` without its leading and trailing whitespace. */
  function Trim(s: string): (r: string)
    ensures r == [] <==> forall i :: 0 <= i < |s| ==> IsSpace(s[i])
    ensures r != [] ==> !IsSpace(r[0]) && !IsSpace(r[|r| - 1])
    ensures var a := RunLength(IsSpace, s, 0);
            && a + |r| <= |s| && r == s[a..a + |r|]
            && forall k :: a + |r| <= k < |s| ==> IsSpace(s[k])
  {
    var a := RunLength(IsSpace, s, 0);
    var t := s[a..];
    var n := TrailingSpaces(t);
    TrimSlices(s, a, n);
    t[..|t| - n]
  }

  /** Cutting `a` leading and `n` trailing whitespace characters from `s`, where
      the `a` are all of the leading ones and the `n` all of the trailing ones of
      what remains. */
  lemma TrimSlices(s: string, a: nat, n: nat)
    requires a <= |s| && n <= |s| - a
    requires forall k :: 0 <= k < a ==> IsSpace(s[k])
    requires a < |s| ==> !IsSpace(s[a])
    requires var t := s[a..]; forall k :: |t| - n <= k < |t| ==> IsSpace(t[k])
    requires var t := s[a..]; n < |t| ==> !IsSpace(t[|t| - n - 1])
    ensures var r := s[a..][..|s| - a - n];
            && (r == [] <==> forall i :: 0 <= i < |s| ==> IsSpace(s[i]))
            && (r != [] ==> !IsSpace(r[0]) && !IsSpace(r[|r| - 1]))
            && r == s[a..a + |r|]
            && forall k :: a + |r| <= k < |s| ==> IsSpace(s[k])
  {
    var t := s[a..];
    assert forall k :: 0 <= k < |t| ==> t[k] == s[a + k];
    var r := t[..|s| - a - n];
    assert r == s[a..|s| - n];
    if r != [] {
      assert r[0] == s[a] && r[|r| - 1] == s[|s| - n - 1];
    }
    assert a < |s| ==> n < |s| - a;
  }

  /** A string made of whitespace only has no text. */
  lemma {:induction false} NonSpaceOfBlank(s: string)
    requires forall i :: 0 <= i < |s| ==> IsSpace(s[i])
    ensures NonSpace(s) == []
    decreases |s|
  {
    if s != [] {
      NonSpaceOfBlank(s[1..]);
    }
  }

  /** Trimming removes whitespace only: the text of the string is unchanged. */
  lemma TrimKeepsText(s: string)
    ensures NonSpace(Trim(s)) == NonSpace(s)
  {
    var r := Trim(s);
    var a := RunLength(IsSpace, s, 0);
    NonSpaceOfMiddle(s, a, a + |r|);
  }

  /** Cutting whitespace off both ends of `s` keeps its text. */
  lemma NonSpaceOfMiddle(s: string, a: nat, b: nat)
    requires a <= b <= |s|
    requires forall k :: 0 <= k < a ==> IsSpace(s[k])
    requires forall k :: b <= k < |s| ==> IsSpace(s[k])
    ensures NonSpace(s[a..b]) == NonSpace(s)
  {
    var t := s[a..];
    NonSpaceDropBlankPrefix(s, a);
    assert forall k :: b - a <= k < |t| ==> t[k] == s[a + k];
    NonSpaceDropBlankSuffix(t, b - a);
    assert t[..b - a] == s[a..b];
  }

  lemma {:induction false} NonSpaceDropBlankPrefix(s: string, a: nat)
    requires a <= |s|
    requires forall k :: 0 <= k < a ==> IsSpace(s[k])
    ensures NonSpace(s[a..]) == NonSpace(s)
    decreases a
  {
    if a > 0 {
      NonSpaceDropBlankPrefix(s[1..], a - 1);
      assert s[1..][a - 1..] == s[a..];
      assert NonSpace(s) == NonSpace(s[1..]);
    }
  }

  lemma NonSpaceDropBlankSuffix(s: string, b: nat)
    requires b <= |s|
    requires forall k :: b <= k < |s| ==> IsSpace(s[k])
    ensures NonSpace(s[..b]) == NonSpace(s)
  {
    var post := s[b..];
    assert forall k :: 0 <= k < |post| ==> post[k] == s[b + k];
    NonSpaceOfBlank(post);
    assert s == s[..b] + post;
    Seqs.FilterAppend(IsNotSpace, s[..b], post);
  }

  /** No two neighbouring characters are both whitespace. */
  predicate NoAdjacentSpaces(s: string) {
    forall i :: 0 <= i < |s| - 1 ==> !(IsSpace(s[i]) && IsSpace(s[i + 1]))
  }

  /** `s.replace(/\s+/g, ' ')`: every maximal whitespace run becomes one space. */
  function CollapseWhitespace(s: string): (r: string)
    ensures r == [] <==> s == []
    ensures NoAdjacentSpaces(r)
    ensures forall i :: 0 <= i < |r| && IsSpace(r[i]) ==> r[i] == ' '
    ensures r != [] ==> (IsSpace(r[0]) <==> IsSpace(s[0]))
    ensures r != [] ==> (IsSpace(r[|r| - 1]) <==> IsSpace(s[|s| - 1]))
    decreases |s|
  {
    if s == [] then []
    else if IsSpace(s[0]) then
      var n := RunLength(IsSpace, s, 0);
      var rest := CollapseWhitespace(s[n..]);
      var r := [' '] + rest;
      assert r[1..] == rest;
      r
    else
      var rest := CollapseWhitespace(s[1..]);
      var r := [s[0]] + rest;
      assert r[1..] == rest;
      r
  }

  /** Collapsing whitespace runs never touches the text between them. */
  lemma {:induction false} CollapseKeepsText(s: string)
    ensures NonSpace(CollapseWhitespace(s)) == NonSpace(s)
    decreases |s|
  {
    if s != [] {
      if IsSpace(s[0]) {
        var n := RunLength(IsSpace, s, 0);
        CollapseKeepsText(s[n..]);
        CollapseRun(s, n);
        KeepsTextAfterRun(s, n, CollapseWhitespace(s[n..]));
      } else {
        CollapseKeepsText(s[1..]);
        KeepsTextAfterChar(s);
      }
    }
  }

  /** Replacing a leading whitespace run of `s` by one space, in front of a
      text `x` with the same text as the rest of `s`, keeps the text of `s`. */
  lemma KeepsTextAfterRun(s: string, n: nat, x: string)
    requires n <= |s| && forall k :: 0 <= k < n ==> IsSpace(s[k])
    requires NonSpace(x) == NonSpace(s[n..])
    ensures NonSpace(" " + x) == NonSpace(s)
  {
    assert NonSpace(" " + x) == NonSpace(x) by {
      Seqs.FilterAppend(IsNotSpace, " ", x);
      NonSpaceOfBlank(" ");
    }
    assert NonSpace(s) == NonSpace(s[n..]) by {
      assert s == s[..n] + s[n..];
      Seqs.FilterAppend(IsNotSpace, s[..n], s[n..]);
      NonSpaceOfBlank(s[..n]);
    }
  }

  /** The step of `CollapseKeepsText` past a leading character that is not
      whitespace. */
  lemma KeepsTextAfterChar(s: string)
    requires s != [] && !IsSpace(s[0])
    requires NonSpace(CollapseWhitespace(s[1..])) == NonSpace(s[1..])
    ensures NonSpace(CollapseWhitespace(s)) == NonSpace(s)
  {
    var r := CollapseWhitespace(s);
    assert r == [s[0]] + CollapseWhitespace(s[1..]);
  }

  /** A string with no whitespace at either end is its own trim. */
  lemma TrimOfTrimmed(s: string)
    requires s != [] ==> !IsSpace(s[0]) && !IsSpace(s[|s| - 1])
    ensures Trim(s) == s
  {
    if s != [] {
      var r := Trim(s);
      assert RunLength(IsSpace, s, 0) == 0;
      assert |r| == |s|;
    }
  }

  /** A string whose whitespace is already single spaces is left alone by the
      collapse. */
  lemma {:induction false} CollapseOfCollapsed(s: string)
    requires IsCollapsed(s)
    ensures CollapseWhitespace(s) == s
    decreases |s|
  {
    if s != [] {
      CollapsedTail(s);
      CollapseOfCollapsed(s[1..]);
      CollapseStep(s);
      assert s == [s[0]] + s[1..];
    }
  }

  /** Whitespace occurs only as single plain spaces. */
  predicate IsCollapsed(s: string) {
    && NoAdjacentSpaces(s)
    && forall i :: 0 <= i < |s| && IsSpace(s[i]) ==> s[i] == ' '
  }

  lemma CollapsedTail(s: string)
    requires s != [] && IsCollapsed(s)
    ensures IsCollapsed(s[1..])
    ensures IsSpace(s[0]) ==> s[0] == ' ' && (|s| > 1 ==> !IsSpace(s[1]))
  {
    var t := s[1..];
    assert forall i :: 0 <= i < |t| ==> t[i] == s[i + 1];
  }

  /** One step of the collapse at a character that does not start a run of
      two or more whitespace characters. */
  lemma CollapseStep(s: string)
    requires s != [] && (IsSpace(s[0]) ==> s[0] == ' ' && (|s| > 1 ==> !IsSpace(s[1])))
    ensures CollapseWhitespace(s) == [s[0]] + CollapseWhitespace(s[1..])
  {
    if IsSpace(s[0]) {
      assert RunLength(IsSpace, s, 1) == 0;
      assert RunLength(IsSpace, s, 0) == 1;
    }
  }

  /** A run of `f` characters of length `n` that stops at a non-`f` character or
      at the end is the run `RunLength` measures. */
  lemma RunLengthIs(f: char -> bool, s: string, i: nat, n: nat)
    requires i + n <= |s| && forall k :: i <= k < i + n ==> f(s[k])
    requires i + n < |s| ==> !f(s[i + n])
    ensures RunLength(f, s, i) == n
  {
  }

  /** A whitespace run between two pieces of text becomes a single space, and the
      pieces collapse on their own: the collapse neither drops the run nor joins
      the pieces. */
  lemma CollapseAround(x: string, w: string, y: string)
    requires w != [] && forall k :: 0 <= k < |w| ==> IsSpace(w[k])
    requires x != [] ==> !IsSpace(x[|x| - 1])
    requires y != [] ==> !IsSpace(y[0])
    ensures CollapseWhitespace(x + w + y) == CollapseWhitespace(x) + " " + CollapseWhitespace(y)
  {
    CollapseAppend(x, w + y);
    CollapseRunBefore(w, y);
    RegroupAround(u => CollapseWhitespace(u), x, w, y);
  }

  /** Whitespace runs never reach across the end of a text that ends in a
      non-whitespace character, so such a text collapses on its own. */
  lemma {:induction false} CollapseAppend(x: string, t: string)
    requires x != [] ==> !IsSpace(x[|x| - 1])
    ensures CollapseWhitespace(x + t) == CollapseWhitespace(x) + CollapseWhitespace(t)
    decreases |x|
  {
    if x == [] {
      assert x + t == t;
    } else {
      var n := if IsSpace(x[0]) then RunLength(IsSpace, x, 0) else 1;
      var head := if IsSpace(x[0]) then " " else [x[0]];
      CollapseHead(x, t, n, head);
      var x' := x[n..];
      assert x' != [] ==> x'[|x'| - 1] == x[|x| - 1];
      CollapseAppend(x', t);
      AppendAfterHead(u => CollapseWhitespace(u), x, t, n, head);
    }
  }

  /** The inductive step of `CollapseAppend`, for any function on strings. */
  lemma AppendAfterHead(f: string -> string, x: string, t: string, n: nat, head: string)
    requires 0 < n <= |x|
    requires f(x) == head + f(x[n..])
    requires f(x + t) == head + f((x + t)[n..])
    requires (x + t)[n..] == x[n..] + t
    requires f(x[n..] + t) == f(x[n..]) + f(t)
    ensures f(x + t) == f(x) + f(t)
  {
    var a, b := f(x[n..]), f(t);
    assert f(x + t) == head + (a + b);
    assert head + (a + b) == (head + a) + b;
  }

  lemma RegroupAround(f: string -> string, x: string, w: string, y: string)
    requires f(x + (w + y)) == f(x) + f(w + y) && f(w + y) == " " + f(y)
    ensures f(x + w + y) == f(x) + " " + f(y)
  {
    assert x + w + y == x + (w + y);
    assert f(x) + (" " + f(y)) == f(x) + " " + f(y);
  }

  /** A whitespace run followed by text that does not start with whitespace. */
  lemma CollapseRunBefore(w: string, y: string)
    requires w != [] && forall k :: 0 <= k < |w| ==> IsSpace(w[k])
    requires y != [] ==> !IsSpace(y[0])
    ensures CollapseWhitespace(w + y) == " " + CollapseWhitespace(y)
  {
    var s := w + y;
    assert forall k :: 0 <= k < |w| ==> s[k] == w[k];
    if y != [] {
      assert s[|w|] == y[0];
    }
    CollapseRun(s, |w|);
    assert s[|w|..] == y;
  }

  /** The first step of the collapse of `x` is the first step of the collapse of
      `x + t` when `x` ends in text: a character, or a whitespace run of `x`. */
  lemma CollapseHead(x: string, t: string, n: nat, head: string)
    requires x != [] && !IsSpace(x[|x| - 1])
    requires n == (if IsSpace(x[0]) then RunLength(IsSpace, x, 0) else 1)
    requires head == (if IsSpace(x[0]) then " " else [x[0]])
    ensures 0 < n <= |x|
    ensures CollapseWhitespace(x) == head + CollapseWhitespace(x[n..])
    ensures CollapseWhitespace(x + t) == head + CollapseWhitespace((x + t)[n..])
    ensures (x + t)[n..] == x[n..] + t
  {
    if IsSpace(x[0]) {
      CollapseHeadRun(x, t, n);
    } else {
      CollapseHeadText(x, t);
    }
  }

  /** A first character of `x` that is not whitespace is kept, in `x` and in
      `x + t`. */
  lemma CollapseHeadText(x: string, t: string)
    requires x != [] && !IsSpace(x[0])
    ensures CollapseWhitespace(x) == [x[0]] + CollapseWhitespace(x[1..])
    ensures CollapseWhitespace(x + t) == [x[0]] + CollapseWhitespace((x + t)[1..])
    ensures (x + t)[1..] == x[1..] + t
  {
    var s := x + t;
    assert s[0] == x[0];
    CollapseStep(x);
    CollapseStep(s);
    assert s[1..] == x[1..] + t;
  }

  /** A leading whitespace run of `x`, which ends in text, is the leading run of
      `x + t` too, and becomes one space in both. */
  lemma CollapseHeadRun(x: string, t: string, n: nat)
    requires x != [] && IsSpace(x[0]) && !IsSpace(x[|x| - 1])
    requires n == RunLength(IsSpace, x, 0)
    ensures 0 < n < |x|
    ensures CollapseWhitespace(x) == " " + CollapseWhitespace(x[n..])
    ensures CollapseWhitespace(x + t) == " " + CollapseWhitespace((x + t)[n..])
    ensures (x + t)[n..] == x[n..] + t
  {
    assert n < |x|;
    CollapseRun(x, n);
    CollapseRunAppend(x, t, n);
  }

  /** A leading whitespace run of `x` that stops inside `x` is the leading run of
      `x + t`. */
  lemma CollapseRunAppend(x: string, t: string, n: nat)
    requires 0 < n < |x| && forall k :: 0 <= k < n ==> IsSpace(x[k])
    requires !IsSpace(x[n])
    ensures CollapseWhitespace(x + t) == " " + CollapseWhitespace((x + t)[n..])
    ensures (x + t)[n..] == x[n..] + t
  {
    var s := x + t;
    assert forall k :: 0 <= k <= n ==> s[k] == x[k];
    CollapseRun(s, n);
    assert s[n..] == x[n..] + t;
  }

  /** A leading whitespace run of length `n` becomes one space. */
  lemma CollapseRun(s: string, n: nat)
    requires 0 < n <= |s| && forall k :: 0 <= k < n ==> IsSpace(s[k])
    requires n < |s| ==> !IsSpace(s[n])
    ensures CollapseWhitespace(s) == " " + CollapseWhitespace(s[n..])
  {
    assert s != [] && IsSpace(s[0]);
    RunLengthIs(IsSpace, s, 0, n);
    var rest := CollapseWhitespace(s[n..]);
    assert CollapseWhitespace(s) == [' '] + rest;
  }

  /** Trimming removes exactly the whitespace around a text that has none at its
      ends. */
  lemma TrimAround(v: string, x: string, w: string)
    requires forall k :: 0 <= k < |v| ==> IsSpace(v[k])
    requires forall k :: 0 <= k < |w| ==> IsSpace(w[k])
    requires x != [] ==> !IsSpace(x[0]) && !IsSpace(x[|x| - 1])
    ensures Trim(v + x + w) == x
  {
    var s := v + x + w;
    if x != [] {
      assert forall k :: 0 <= k < |v| ==> s[k] == v[k];
      assert forall k :: |v| + |x| <= k < |s| ==> s[k] == w[k - |v| - |x|];
      assert s[|v|] == x[0] && s[|v| + |x| - 1] == x[|x| - 1];
      TrimBetween(s, |v|, |v| + |x|);
      assert s[|v|..|v| + |x|] == x;
    } else {
      assert forall k :: 0 <= k < |s| ==> IsSpace(s[k]) by {
        assert s == v + w;
      }
    }
  }

  /** Trimming a text that is whitespace outside `[p, q)` and has none at the
      ends of that range keeps exactly the range. */
  lemma TrimBetween(s: string, p: nat, q: nat)
    requires p < q <= |s|
    requires forall k :: 0 <= k < p ==> IsSpace(s[k])
    requires forall k :: q <= k < |s| ==> IsSpace(s[k])
    requires !IsSpace(s[p]) && !IsSpace(s[q - 1])
    ensures Trim(s) == s[p..q]
  {
    RunLengthIs(IsSpace, s, 0, p);
    var r := Trim(s);
    assert |r| >= q - p;
    assert |r| <= q - p by {
      assert r != [] && !IsSpace(r[|r| - 1]);
    }
  }

  /** Trimming adds no character. */
  lemma TrimKeepsOut(s: string, c: char)
    requires c !in s
    ensures c !in Trim(s)
  {
    var r := Trim(s);
    var a := RunLength(IsSpace, s, 0);
    forall k | 0 <= k < |r| ensures r[k] != c {
      assert r[k] == s[a + k];
    }
  }
}
