/** The regular expressions of the upstream interpretation, each written out as
    an explicit scanner with JavaScript's semantics: the leftmost match wins, a
    lazy quantifier takes the shortest body that lets the rest match, and a
    global `match` resumes scanning right after the end of each match. */
module Patterns {
  import opened Outcomes
  import opened JsString

  /** The link-shaped regular expressions. Each is an optional literal `$`, the
      scheme `http://` or `https://`, a lazy non-empty run of URL characters, and
      a fixed tail:
      - DollarM3u8: `$`, URL, `.m3u8` (play-URL fields and detail pages);
      - BareM3u8: URL, `.m3u8` (the description-text fallback);
      - DollarFfzy: `$`, URL, `/`, eight digits, `/`, digits, `_`, lower-case
        hex digits, `/index.m3u8` (detail pages of the `ffzy` source);
      - BareJpg: URL, `.jpg` (the cover image of a detail page). */
  datatype LinkPattern = DollarM3u8 | BareM3u8 | DollarFfzy | BareJpg {

    predicate HasDollar() {
      DollarM3u8? || DollarFfzy?
    }

    /** What every match of the pattern ends with. */
    function Suffix(): string {
      if BareJpg? then ".jpg" else ".m3u8"
    }
  }

  /** The class `[^"'\s]` of the lazy part of a link. */
  predicate IsUrlChar(c: char) {
    c != '"' && c != '\'' && !IsSpace(c)
  }

  predicate IsHexDigit(c: char) {
    IsAsciiDigit(c) || 'a' <= c <= 'f'
  }

  predicate AllUrlChars(s: string, lo: nat, hi: nat) {
    && (lo < hi ==> hi <= |s|)
    && forall k :: lo <= k < hi ==> IsUrlChar(s[k])
  }

  predicate StartsWithScheme(u: string) {
    StartsWith(u, "http://") || StartsWith(u, "https://")
  }

  /** What every match of `p` looks like: the optional `$`, a scheme, the
      pattern's suffix at the end, and no quote or whitespace anywhere. */
  predicate IsLink(p: LinkPattern, t: string) {
    && (p.HasDollar() ==> |t| > 0 && t[0] == '$' && StartsWithScheme(t[1..]))
    && (!p.HasDollar() ==> StartsWithScheme(t))
    && EndsWith(t, p.Suffix())
    && forall k :: 0 <= k < |t| ==> IsUrlChar(t[k])
  }

  /** No quote or whitespace in `t`. */
  predicate AllUrl(t: string) {
    forall k :: 0 <= k < |t| ==> IsUrlChar(t[k])
  }

  /** An occurrence of a quote- and whitespace-free literal consists of URL characters. */
  lemma OccurrenceUrlChars(s: string, lit: string, j: nat)
    requires OccursAt(s, lit, j) && AllUrl(lit)
    ensures AllUrlChars(s, j, j + |lit|)
    ensures EndsWith(s[..j + |lit|], lit)
  {
    forall k | j <= k < j + |lit| ensures k < |s| && IsUrlChar(s[k]) {
      assert s[k] == s[j..j + |lit|][k - j];
    }
    assert s[..j + |lit|][j..] == lit;
  }

  /** The literals the link patterns are built from hold URL characters only. */
  lemma LiteralsAreUrl()
    ensures AllUrl("http://") && AllUrl("https://")
    ensures AllUrl(".m3u8") && AllUrl(".jpg") && AllUrl("/index.m3u8")
  {
    VisibleIsUrl("http://");
    VisibleIsUrl("https://");
    VisibleIsUrl(".m3u8");
    VisibleIsUrl(".jpg");
    VisibleIsUrl("/index.m3u8");
  }

  /** Visible ASCII characters other than quotes are URL characters. */
  lemma VisibleIsUrl(t: string)
    requires forall k :: 0 <= k < |t| ==> '!' <= t[k] <= '~' && t[k] != '"' && t[k] != '\''
    ensures AllUrl(t)
  {
  }

  /** Where the scheme `https://` or `http://` starting at `i` ends. */
  function SchemeEnd(s: string, i: nat): (r: Option<nat>)
    ensures r.Some? <==> OccursAt(s, "http://", i) || OccursAt(s, "https://", i)
    ensures r.Some? ==> i + 7 <= r.value <= |s|
  {
    if OccursAt(s, "https://", i) then Some(i + 8)
    else if OccursAt(s, "http://", i) then Some(i + 7)
    else None
  }

  lemma SchemeShape(s: string, i: nat)
    requires SchemeEnd(s, i).Some?
    ensures AllUrlChars(s, i, SchemeEnd(s, i).value)
    ensures StartsWithScheme(s[i..SchemeEnd(s, i).value])
  {
    LiteralsAreUrl();
    if OccursAt(s, "https://", i) {
      OccurrenceUrlChars(s, "https://", i);
    } else {
      OccurrenceUrlChars(s, "http://", i);
    }
  }

  /** The ffzy tail at `j`: `/`, exactly eight digits, `/`, digits, `_`, hex
      digits, `/index.m3u8`. Each greedy run is followed by a character outside
      its class, so the tail never backtracks and matches in at most one way. */
  function FfzyTailEnd(s: string, j: nat): (r: Option<nat>)
    ensures r.Some? ==> j + 11 <= r.value <= |s|
    ensures r.Some? ==> exists a: nat, b: nat :: FfzyParts(s, j, a, b) && r.value == b + 11
  {
    if !(j + 10 <= |s| && s[j] == '/' && RunLength(IsAsciiDigit, s, j + 1) >= 8 && s[j + 9] == '/') then None
    else
      var a := j + 10 + RunLength(IsAsciiDigit, s, j + 10);
      if a == j + 10 || a == |s| || s[a] != '_' then None
      else
        var b := a + 1 + RunLength(IsHexDigit, s, a + 1);
        if b == a + 1 || !OccursAt(s, "/index.m3u8", b) then None
        else
          assert FfzyParts(s, j, a, b);
          Some(b + 11)
  }

  /** The pieces of an ffzy tail from `j`: `/`, eight digits, `/`, digits up to
      `_` at `a`, hexadecimal digits up to `/index.m3u8` at `b`. */
  predicate FfzyParts(s: string, j: nat, a: nat, b: nat) {
    && j + 10 < a && a + 1 < b && OccursAt(s, "/index.m3u8", b)
    && s[j] == '/' && s[j + 9] == '/' && s[a] == '_'
    && (forall k :: j + 1 <= k < j + 9 ==> IsAsciiDigit(s[k]))
    && (forall k :: j + 10 <= k < a ==> IsAsciiDigit(s[k]))
    && (forall k :: a + 1 <= k < b ==> IsHexDigit(s[k]))
  }

  /** A run of hexadecimal digits consists of URL characters. */
  lemma FfzyTailShape(s: string, j: nat, e: nat)
    requires FfzyTailEnd(s, j) == Some(e)
    ensures AllUrlChars(s, j, e)
    ensures EndsWith(s[..e], "/index.m3u8")
  {
    var a: nat, b: nat :| FfzyParts(s, j, a, b) && e == b + 11;
    FfzyPartsShape(s, j, a, b);
  }

  /** The pieces of an ffzy tail are URL characters. */
  lemma FfzyPartsShape(s: string, j: nat, a: nat, b: nat)
    requires FfzyParts(s, j, a, b)
    ensures AllUrlChars(s, j, b + 11)
    ensures EndsWith(s[..b + 11], "/index.m3u8")
  {
    forall k | j <= k < b ensures IsUrlChar(s[k]) {
      if k == j || k == j + 9 {
        assert s[k] == '/';
      } else if k == a {
        assert s[k] == '_';
      } else if k < a {
        assert IsAsciiDigit(s[k]);
      } else {
        assert IsHexDigit(s[k]);
      }
    }
    VisibleIsUrl("/index.m3u8");
    OccurrenceUrlChars(s, "/index.m3u8", b);
    AllUrlCharsJoin(s, j, b, b + 11);
  }

  /** Where the fixed tail of `p` (`.m3u8`, `.jpg` or the ffzy tail), tried at
      `j`, ends. */
  function TailEnd(p: LinkPattern, s: string, j: nat): (r: Option<nat>)
    ensures r.Some? ==> j + |p.Suffix()| <= r.value <= |s|
  {
    if p.DollarFfzy? then FfzyTailEnd(s, j)
    else if OccursAt(s, p.Suffix(), j) then Some(j + |p.Suffix()|)
    else None
  }

  lemma TailShape(p: LinkPattern, s: string, j: nat)
    requires TailEnd(p, s, j).Some?
    ensures AllUrlChars(s, j, TailEnd(p, s, j).value)
    ensures EndsWith(s[..TailEnd(p, s, j).value], p.Suffix())
  {
    if p.DollarFfzy? {
      FfzyTailShape(s, j, FfzyTailEnd(s, j).value);
      FfzySuffix(s[..FfzyTailEnd(s, j).value]);
    } else {
      SuffixShape(s, p.Suffix(), j);
    }
  }

  lemma FfzySuffix(t: string)
    requires EndsWith(t, "/index.m3u8")
    ensures EndsWith(t, ".m3u8")
  {
    assert "/index.m3u8"[6..] == ".m3u8";
    EndsWithShorter(t, "/index.m3u8", ".m3u8");
  }

  lemma SuffixShape(s: string, suffix: string, j: nat)
    requires suffix == ".jpg" || suffix == ".m3u8"
    requires OccursAt(s, suffix, j)
    ensures AllUrlChars(s, j, j + |suffix|)
    ensures EndsWith(s[..j + |suffix|], suffix)
  {
    VisibleIsUrl(suffix);
    OccurrenceUrlChars(s, suffix, j);
  }

  lemma EndsWithShorter(t: string, long: string, short: string)
    requires EndsWith(t, long) && |short| <= |long| && long[|long| - |short|..] == short
    ensures EndsWith(t, short)
  {
    assert t[|t| - |short|..] == t[|t| - |long|..][|long| - |short|..];
  }

  /** The lazy run `[^"'\s]+?` that starts at `u`, followed by a tail that
      matches at the positions where `tail` holds: the first such position
      `m >= j` reached over URL characters only. */
  function LazyTailStart(tail: nat -> bool, s: string, u: nat, j: nat): (r: Option<nat>)
    requires u < j
    ensures r.Some? ==> j <= r.value <= |s| && tail(r.value)
    decreases |s| + 1 - j
  {
    if j > |s| || !IsUrlChar(s[j - 1]) then None
    else if tail(j) then Some(j)
    else LazyTailStart(tail, s, u, j + 1)
  }

  /** The lazy run takes the shortest body that lets the tail match: the
      position found is reached over URL characters and no earlier position
      admits the tail. */
  lemma {:induction false} LazyIsShortest(tail: nat -> bool, s: string, u: nat, j: nat)
    requires u < j && AllUrlChars(s, u, j - 1)
    requires LazyTailStart(tail, s, u, j).Some?
    ensures AllUrlChars(s, u, LazyTailStart(tail, s, u, j).value)
    ensures forall m :: j <= m < LazyTailStart(tail, s, u, j).value ==> !tail(m)
    decreases |s| + 1 - j
  {
    if !tail(j) {
      assert LazyTailStart(tail, s, u, j) == LazyTailStart(tail, s, u, j + 1);
      AllUrlCharsJoin(s, u, j - 1, j);
      LazyIsShortest(tail, s, u, j + 1);
    }
  }

  /** When the lazy run finds nothing, no position reachable over URL
      characters admits the tail. */
  lemma {:induction false} LazyNoneIsComplete(tail: nat -> bool, s: string, u: nat, j: nat)
    requires u < j && AllUrlChars(s, u, j - 1)
    requires LazyTailStart(tail, s, u, j).None?
    ensures forall m :: j <= m <= |s| && AllUrlChars(s, u, m) ==> !tail(m)
    decreases |s| + 1 - j
  {
    if j <= |s| && IsUrlChar(s[j - 1]) {
      assert !tail(j);
      assert LazyTailStart(tail, s, u, j) == LazyTailStart(tail, s, u, j + 1);
      AllUrlCharsJoin(s, u, j - 1, j);
      LazyNoneIsComplete(tail, s, u, j + 1);
    } else {
      assert forall m :: j <= m <= |s| ==> !AllUrlChars(s, u, m);
    }
  }

  /** The positions where the tail of `p` matches. */
  function TailMatches(p: LinkPattern, s: string): nat -> bool {
    (m: nat) => TailEnd(p, s, m).Some?
  }

  lemma AllUrlCharsJoin(s: string, a: nat, b: nat, c: nat)
    requires a <= b <= c && AllUrlChars(s, a, b) && AllUrlChars(s, b, c)
    ensures AllUrlChars(s, a, c)
  {
  }

  lemma AllUrlSlice(s: string, a: nat, b: nat)
    requires a <= b <= |s| && AllUrlChars(s, a, b)
    ensures AllUrl(s[a..b])
  {
    forall k | 0 <= k < b - a ensures IsUrlChar(s[a..b][k]) {
      assert s[a..b][k] == s[a + k];
    }
  }

  lemma SchemeExtends(s: string, v: nat, u: nat, e: nat)
    requires v <= u <= e <= |s| && StartsWithScheme(s[v..u])
    ensures StartsWithScheme(s[v..e])
  {
    assert s[v..e][..u - v] == s[v..u];
  }

  lemma SuffixOfSlice(s: string, i: nat, e: nat, suffix: string)
    requires i <= e <= |s| && |suffix| <= e - i && EndsWith(s[..e], suffix)
    ensures EndsWith(s[i..e], suffix)
  {
    assert s[i..e][e - i - |suffix|..] == s[..e][e - |suffix|..];
  }

  /** A dollar (when the pattern has one), a scheme, URL characters and the
      suffix make a link. */
  lemma LinkFromParts(p: LinkPattern, s: string, i: nat, v: nat, u: nat, e: nat)
    requires v == (if p.HasDollar() then i + 1 else i)
    requires v <= u <= e <= |s| && |p.Suffix()| <= e - u
    requires p.HasDollar() ==> s[i] == '$'
    requires AllUrlChars(s, v, e) && StartsWithScheme(s[v..u]) && EndsWith(s[..e], p.Suffix())
    ensures IsLink(p, s[i..e])
  {
    if p.HasDollar() {
      assert AllUrlChars(s, i, v);
      AllUrlCharsJoin(s, i, v, e);
    }
    AllUrlSlice(s, i, e);
    SchemeExtends(s, v, u, e);
    SuffixOfSlice(s, i, e, p.Suffix());
    if p.HasDollar() {
      assert s[i..e][1..] == s[v..e];
    }
  }

  lemma LinkFromPositions(p: LinkPattern, s: string, i: nat, v: nat, u: nat, j: nat, e: nat)
    requires v == (if p.HasDollar() then i + 1 else i)
    requires p.HasDollar() ==> i < |s| && s[i] == '$'
    requires SchemeEnd(s, v) == Some(u)
    requires LazyTailStart(TailMatches(p, s), s, u, u + 1) == Some(j)
    requires TailEnd(p, s, j) == Some(e)
    ensures IsLink(p, s[i..e])
  {
    LazyIsShortest(TailMatches(p, s), s, u, u + 1);
    SchemeShape(s, v);
    TailShape(p, s, j);
    AllUrlCharsJoin(s, v, u, j);
    AllUrlCharsJoin(s, v, j, e);
    LinkFromParts(p, s, i, v, u, e);
  }

  /** Where the match of `p` starting exactly at `i` ends, if there is one;
      every match has the shape of a link. */
  function MatchEnd(p: LinkPattern, s: string, i: nat): (r: Option<nat>)
    ensures r.Some? ==> i < r.value <= |s| && IsLink(p, s[i..r.value])
    ensures r.Some? ==> var v := if p.HasDollar() then i + 1 else i;
                        exists u: nat, j: nat :: SchemeEnd(s, v) == Some(u) && TailFirstFitsAt(p, s, u, j)
                                                 && r == TailEnd(p, s, j)
  {
    var v := if p.HasDollar() then i + 1 else i;
    if p.HasDollar() && !(i < |s| && s[i] == '$') then None
    else match SchemeEnd(s, v)
      case None => None
      case Some(u) =>
        match LazyTailStart(TailMatches(p, s), s, u, u + 1)
        case None => None
        case Some(j) =>
          var e := TailEnd(p, s, j).value;
          LinkFromPositions(p, s, i, v, u, j, e);
          LazyStopsFirst(p, s, u, j);
          LazyWitness(p, s, v, u, j, Some(e));
          Some(e)
  }

  /** The tail of `p` fits at `j`, past the scheme end `u` over URL characters
      only, and at no position in between. */
  predicate TailFirstFitsAt(p: LinkPattern, s: string, u: nat, j: nat) {
    && u < j && AllUrlChars(s, u, j) && TailEnd(p, s, j).Some?
    && forall m :: u < m < j ==> TailEnd(p, s, m).None?
  }

  lemma LazyWitness(p: LinkPattern, s: string, v: nat, u: nat, j: nat, r: Option<nat>)
    requires SchemeEnd(s, v) == Some(u) && TailFirstFitsAt(p, s, u, j) && r == TailEnd(p, s, j)
    ensures exists u: nat, j: nat :: SchemeEnd(s, v) == Some(u) && TailFirstFitsAt(p, s, u, j) && r == TailEnd(p, s, j)
  {
  }

  lemma LazyStopsFirst(p: LinkPattern, s: string, u: nat, j: nat)
    requires LazyTailStart(TailMatches(p, s), s, u, u + 1) == Some(j)
    ensures TailFirstFitsAt(p, s, u, j)
  {
    LazyIsShortest(TailMatches(p, s), s, u, u + 1);
    forall m | u < m < j ensures TailEnd(p, s, m).None? {
      assert !TailMatches(p, s)(m);
    }
  }

  /** On two `$`-links in a row, the first match stops at the first `.m3u8`
      instead of running on to the second. */
  lemma MatchEndStopsAtFirstTail()
    ensures MatchEnd(DollarM3u8, TwoLinks(), 0) == Some(14)
  {
    var s := TwoLinks();
    TwoLinksShape();
    assert SchemeEnd(s, 1) == Some(8);
    assert TailMatches(DollarM3u8, s)(9);
    assert LazyTailStart(TailMatches(DollarM3u8, s), s, 8, 9) == Some(9);
  }

  /** Two `$`-links to `.m3u8` playlists, back to back. */
  function TwoLinks(): (s: string)
    ensures |s| == 28
  {
    "$http://a.m3u8$http://b.m3u8"
  }

  lemma TwoLinksShape()
    ensures var s := TwoLinks();
            && s[0] == '$' && IsUrlChar(s[8])
            && OccursAt(s, "http://", 1) && !OccursAt(s, "https://", 1)
            && OccursAt(s, ".m3u8", 9)
  {
    var s := TwoLinks();
    assert forall k :: 1 <= k < 8 ==> s[k] == "http://"[k - 1];
    assert s[5] != "https://"[4];
    assert forall k :: 9 <= k < 14 ==> s[k] == ".m3u8"[k - 9];
  }

  /** The match starting at `i` is found whenever the scheme there is followed
      by URL characters up to a position where the pattern's tail fits: the
      lazy part stops at the first such position, so one is enough. */
  lemma MatchEndComplete(p: LinkPattern, s: string, i: nat, u: nat, m: nat)
    requires p.HasDollar() ==> i < |s| && s[i] == '$'
    requires SchemeEnd(s, if p.HasDollar() then i + 1 else i) == Some(u)
    requires u < m <= |s| && AllUrlChars(s, u, m) && TailEnd(p, s, m).Some?
    ensures MatchEnd(p, s, i).Some?
  {
    TailFits(p, s, m);
    LazyFindsTail(TailMatches(p, s), s, u, m);
    MatchEndFromLazy(p, s, i);
  }

  lemma TailFits(p: LinkPattern, s: string, m: nat)
    requires TailEnd(p, s, m).Some?
    ensures TailMatches(p, s)(m)
  {
  }

  lemma MatchEndFromLazy(p: LinkPattern, s: string, i: nat)
    requires p.HasDollar() ==> i < |s| && s[i] == '$'
    requires var v := if p.HasDollar() then i + 1 else i;
             && SchemeEnd(s, v).Some?
             && LazyTailStart(TailMatches(p, s), s, SchemeEnd(s, v).value, SchemeEnd(s, v).value + 1).Some?
    ensures MatchEnd(p, s, i).Some?
  {
  }

  /** The lazy run finds a tail whenever one fits after URL characters only. */
  lemma LazyFindsTail(tail: nat -> bool, s: string, u: nat, m: nat)
    requires u < m <= |s| && AllUrlChars(s, u, m) && tail(m)
    ensures LazyTailStart(tail, s, u, u + 1).Some?
  {
    if LazyTailStart(tail, s, u, u + 1).None? {
      LazyNoneIsComplete(tail, s, u, u + 1);
      assert false;
    }
  }

  /** No match of `p` starts anywhere at or after `from`. */
  predicate NoMatchFrom(p: LinkPattern, s: string, from: nat) {
    forall i :: from <= i <= |s| ==> MatchEnd(p, s, i).None?
  }

  /** A matcher over a text of length `n`: where the match starting at each
      position ends, if one starts there. */
  ghost predicate IsMatcher(m: nat -> Option<nat>, n: nat) {
    forall i: nat :: m(i).Some? ==> i < m(i).value <= n
  }

  /** A global match with matcher `m`, from index `from`: the leftmost match,
      then the leftmost match at or after its end, and so on. */
  function ScanWith(m: nat -> Option<nat>, s: string, from: nat): (r: seq<string>)
    requires IsMatcher(m, |s|)
    ensures r == [] <==> forall i :: from <= i <= |s| ==> m(i).None?
    ensures forall k :: 0 <= k < |r| ==>
              exists i :: from <= i && m(i).Some? && r[k] == s[i..m(i).value]
    decreases |s| + 1 - from
  {
    if from > |s| then []
    else match m(from)
      case Some(e) => [s[from..e]] + ScanWith(m, s, e)
      case None => ScanWith(m, s, from + 1)
  }

  /** The scan from `from` takes the leftmost match at or after `from` and
      resumes at its end. */
  lemma {:induction false} ScanWithLeftmost(m: nat -> Option<nat>, s: string, from: nat, i: nat)
    requires IsMatcher(m, |s|)
    requires from <= i && m(i).Some?
    requires forall j :: from <= j < i ==> m(j).None?
    ensures ScanWith(m, s, from) == [s[i..m(i).value]] + ScanWith(m, s, m(i).value)
    decreases i - from
  {
    if from < i {
      ScanWithLeftmost(m, s, from + 1, i);
    }
  }

  /** `s.match(re) || []` for a global regular expression, scanning from index
      `from`: the leftmost match, then the leftmost match after its end, and so on. */
  function Scan(p: LinkPattern, s: string, from: nat): (r: seq<string>)
    ensures forall k :: 0 <= k < |r| ==> IsLink(p, r[k])
    ensures r == [] <==> NoMatchFrom(p, s, from)
    decreases |s| + 1 - from
  {
    if from > |s| then []
    else match MatchEnd(p, s, from)
      case Some(e) =>
        LinksCons(p, s[from..e], Scan(p, s, e));
        [s[from..e]] + Scan(p, s, e)
      case None =>
        NoMatchStep(p, s, from);
        Scan(p, s, from + 1)
  }

  lemma LinksCons(p: LinkPattern, t: string, rest: seq<string>)
    requires IsLink(p, t) && forall k :: 0 <= k < |rest| ==> IsLink(p, rest[k])
    ensures forall k :: 0 <= k < |[t] + rest| ==> IsLink(p, ([t] + rest)[k])
  {
  }

  lemma NoMatchStep(p: LinkPattern, s: string, from: nat)
    requires from <= |s| && MatchEnd(p, s, from).None?
    ensures NoMatchFrom(p, s, from) <==> NoMatchFrom(p, s, from + 1)
  {
  }

  /** The scan of `p` is the generic scan with `p`'s matcher. */
  lemma {:induction false} ScanIsScanWith(p: LinkPattern, s: string, m: nat -> Option<nat>, from: nat)
    requires forall i: nat :: m(i) == MatchEnd(p, s, i)
    requires IsMatcher(m, |s|)
    ensures Scan(p, s, from) == ScanWith(m, s, from)
    decreases |s| + 1 - from
  {
    if from <= |s| {
      assert m(from) == MatchEnd(p, s, from);
      match MatchEnd(p, s, from)
      case Some(e) =>
        ScanIsScanWith(p, s, m, e);
        ScanStep(p, s, from);
        assert ScanWith(m, s, from) == [s[from..e]] + ScanWith(m, s, e);
      case None =>
        ScanIsScanWith(p, s, m, from + 1);
        ScanStep(p, s, from);
        assert ScanWith(m, s, from) == ScanWith(m, s, from + 1);
    }
  }

  lemma ScanStep(p: LinkPattern, s: string, from: nat)
    requires from <= |s|
    ensures MatchEnd(p, s, from).Some? ==>
              Scan(p, s, from) == [s[from..MatchEnd(p, s, from).value]] + Scan(p, s, MatchEnd(p, s, from).value)
    ensures MatchEnd(p, s, from).None? ==> Scan(p, s, from) == Scan(p, s, from + 1)
  {
  }

  /** The scan of `p` takes the leftmost match at or after `from` and resumes at
      its end. */
  lemma ScanLeftmost(p: LinkPattern, s: string, from: nat, i: nat, e: nat)
    requires from <= i && MatchEnd(p, s, i) == Some(e)
    requires forall j :: from <= j < i ==> MatchEnd(p, s, j).None?
    ensures Scan(p, s, from) == [s[i..e]] + Scan(p, s, e)
  {
    var m := (j: nat) => MatchEnd(p, s, j);
    MatchEndIsMatcher(p, s, m);
    ScanIsScanWith(p, s, m, from);
    ScanIsScanWith(p, s, m, e);
    ScanWithLeftmost(m, s, from, i);
  }

  lemma MatchEndIsMatcher(p: LinkPattern, s: string, m: nat -> Option<nat>)
    requires forall i: nat :: m(i) == MatchEnd(p, s, i)
    ensures IsMatcher(m, |s|)
    ensures forall i: nat :: m(i).Some? ==> IsLink(p, s[i..m(i).value])
  {
  }

  /** Four ASCII digits start at `i`. */
  predicate FourDigitsAt(s: string, i: nat) {
    i + 4 <= |s| && forall k :: i <= k < i + 4 ==> IsAsciiDigit(s[k])
  }

  /** The leftmost index at or after `from` where four digits start. */
  function FourDigitsFrom(s: string, from: nat): (r: Option<nat>)
    ensures r.Some? ==> from <= r.value && FourDigitsAt(s, r.value)
    ensures r.Some? ==> forall i :: from <= i < r.value ==> !FourDigitsAt(s, i)
    ensures r.None? ==> forall i :: from <= i ==> !FourDigitsAt(s, i)
    decreases |s| - from
  {
    if from + 4 > |s| then None
    else if FourDigitsAt(s, from) then Some(from)
    else FourDigitsFrom(s, from + 1)
  }

  /** `y.match(/\d{4}/)?.[0] || ''`: the first run of four digits, or `''`. */
  function FirstFourDigits(y: string): (r: string)
    ensures r == [] <==> forall i :: 0 <= i ==> !FourDigitsAt(y, i)
    ensures r != [] ==> |r| == 4 && forall k :: 0 <= k < 4 ==> IsAsciiDigit(r[k])
    ensures r != [] ==> exists i: nat :: FourDigitsAt(y, i) && y[i..i + 4] == r
                                 && forall i' :: 0 <= i' < i ==> !FourDigitsAt(y, i')
  {
    match FourDigitsFrom(y, 0)
    case None => []
    case Some(i) =>
      var r := y[i..i + 4];
      assert forall k :: 0 <= k < 4 ==> r[k] == y[i + k];
      r
  }

  /** The two non-global regular expressions of a detail page that capture a
      group: the text of the first level-1 heading, and the content of the first
      `div` whose class attribute is `sketch`. */
  datatype BlockPattern = H1Heading | SketchDiv

  predicate IsQuote(c: char) {
    c == '"' || c == '\''
  }

  /** `class="sketch"` (either quote character at either end) at `k`. */
  predicate SketchClassAt(s: string, k: nat) {
    && k + 14 <= |s|
    && s[k..k + 6] == "class=" && IsQuote(s[k + 6])
    && s[k + 7..k + 13] == "sketch" && IsQuote(s[k + 13])
  }

  predicate IsNotLt(c: char) {
    c != '<'
  }

  /** A level-1 heading match at `i`: `<h1` at `i`, the first `>` after it at
      `g`, a non-empty run without `<` after it, and `</h1>` at `h` right where
      that run stops. The group is `s[g + 1..h]`. */
  predicate HeadingShape(s: string, i: nat, g: nat, h: nat) {
    && OccursAt(s, "<h1", i) && OccursAt(s, "</h1>", h)
    && i + 3 <= g && g + 1 < h
    && s[g] == '>' && (forall k :: i + 3 <= k < g ==> s[k] != '>')
    && (forall k :: g < k < h ==> s[k] != '<')
  }

  /** Where the level-1 heading match starting exactly at `i` lies: the
      positions `(g, h)` of its shape, if it has one. */
  function HeadingEnds(s: string, i: nat): (r: Option<(nat, nat)>)
    ensures r.Some? ==> HeadingShape(s, i, r.value.0, r.value.1)
    ensures forall g: nat, h: nat :: HeadingShape(s, i, g, h) ==> r == Some((g, h))
  {
    HeadingShapesFixed(s, i);
    if !OccursAt(s, "<h1", i) then None
    else match IndexOf(s, ">", i + 3)
      case None => None
      case Some(g) =>
        var h := g + 1 + RunLength(IsNotLt, s, g + 1);
        if h == g + 1 || !OccursAt(s, "</h1>", h) then None
        else
          HeadingShapeFound(s, i, g, h);
          Some((g, h))
  }

  /** The group of `/<h1[^>]*>([^<]+)<\/h1>/` for a match starting exactly at
      `i`. */
  function HeadingAt(s: string, i: nat): (r: Option<string>)
    ensures r.Some? ==> r.value != [] && '<' !in r.value
    ensures r.Some? ==> exists g: nat, h: nat :: HeadingShape(s, i, g, h) && r.value == s[g + 1..h]
    ensures forall g: nat, h: nat :: HeadingShape(s, i, g, h) ==> r == Some(s[g + 1..h])
  {
    match HeadingEnds(s, i)
    case None => None
    case Some((g, h)) =>
      var r := s[g + 1..h];
      assert forall k :: 0 <= k < |r| ==> r[k] == s[g + 1 + k];
      Some(r)
  }

  lemma HeadingShapesFixed(s: string, i: nat)
    ensures forall g: nat, h: nat :: HeadingShape(s, i, g, h) ==>
              IndexOf(s, ">", i + 3) == Some(g) && h == g + 1 + RunLength(IsNotLt, s, g + 1)
  {
    forall g: nat, h: nat | HeadingShape(s, i, g, h)
      ensures IndexOf(s, ">", i + 3) == Some(g) && h == g + 1 + RunLength(IsNotLt, s, g + 1)
    {
      HeadingShapeFixed(s, i, g, h);
    }
  }

  /** A heading shape is fixed by its start: `g` is the first `>` and `h` the
      end of the run without `<`. */
  lemma HeadingShapeFixed(s: string, i: nat, g: nat, h: nat)
    requires HeadingShape(s, i, g, h)
    ensures IndexOf(s, ">", i + 3) == Some(g) && h == g + 1 + RunLength(IsNotLt, s, g + 1)
  {
    OccursAtChar(s, '>', g);
    forall k: nat | i + 3 <= k < g ensures !OccursAt(s, ">", k) {
      OccursAtChar(s, '>', k);
    }
    IndexOfLeftmost(s, ">", i + 3, g);
    var n := RunLength(IsNotLt, s, g + 1);
    assert s[h] == '<' by {
      assert s[h..h + 5] == "</h1>";
    }
    assert !IsNotLt(s[h]);
  }

  lemma HeadingShapeFound(s: string, i: nat, g: nat, h: nat)
    requires OccursAt(s, "<h1", i) && IndexOf(s, ">", i + 3) == Some(g)
    requires h == g + 1 + RunLength(IsNotLt, s, g + 1) && h != g + 1 && OccursAt(s, "</h1>", h)
    ensures HeadingShape(s, i, g, h)
  {
    IndexOfChar(s, '>', i + 3);
  }

  /** A sketch block match at `i`: `<div` at `i`, the first `>` after it at
      `g` with the sketch class attribute between, and the first `</div>`
      after `g` at `c`. The group is `s[g + 1..c]`. */
  predicate SketchShape(s: string, i: nat, g: nat, c: nat) {
    && OccursAt(s, "<div", i) && OccursAt(s, "</div>", c)
    && i + 4 <= g < c
    && s[g] == '>' && (forall k :: i + 4 <= k < g ==> s[k] != '>')
    && (exists k: nat :: i + 4 <= k && k + 14 <= g && SketchClassAt(s, k))
    && (forall m: nat :: g + 1 <= m < c ==> !OccursAt(s, "</div>", m))
  }

  /** Where the sketch block match starting exactly at `i` lies: the positions
      `(g, c)` of its shape, if it has one. */
  function SketchEnds(s: string, i: nat): (r: Option<(nat, nat)>)
    ensures r.Some? ==> SketchShape(s, i, r.value.0, r.value.1)
    ensures forall g: nat, c: nat :: SketchShape(s, i, g, c) ==> r == Some((g, c))
  {
    SketchShapesFixed(s, i);
    if !OccursAt(s, "<div", i) then None
    else match IndexOf(s, ">", i + 4)
      case None => None
      case Some(g) =>
        if !(exists k: nat :: i + 4 <= k && k + 14 <= g && SketchClassAt(s, k)) then None
        else match IndexOf(s, "</div>", g + 1)
          case None => None
          case Some(c) =>
            SketchShapeFound(s, i, g, c);
            Some((g, c))
  }

  /** The group of `/<div[^>]*class=["']sketch["'][^>]*>([\s\S]*?)<\/div>/`
      for a match starting exactly at `i`. */
  function SketchAt(s: string, i: nat): (r: Option<string>)
    ensures r.Some? ==> !Contains(r.value, "</div>")
    ensures r.Some? ==> exists g: nat, c: nat :: SketchShape(s, i, g, c) && r.value == s[g + 1..c]
    ensures forall g: nat, c: nat :: SketchShape(s, i, g, c) ==> r == Some(s[g + 1..c])
  {
    match SketchEnds(s, i)
    case None => None
    case Some((g, c)) =>
      var r := s[g + 1..c];
      forall m: nat | m <= |r| ensures !OccursAt(r, "</div>", m) {
        OccursInSlice(s, g + 1, c, "</div>", m);
      }
      Some(r)
  }

  lemma SketchShapesFixed(s: string, i: nat)
    ensures forall g: nat, c: nat :: SketchShape(s, i, g, c) ==>
              IndexOf(s, ">", i + 4) == Some(g) && IndexOf(s, "</div>", g + 1) == Some(c)
  {
    forall g: nat, c: nat | SketchShape(s, i, g, c)
      ensures IndexOf(s, ">", i + 4) == Some(g) && IndexOf(s, "</div>", g + 1) == Some(c)
    {
      SketchShapeFixed(s, i, g, c);
    }
  }

  /** A sketch shape is fixed by its start: `g` is the first `>` and `c` the
      first `</div>` after it. */
  lemma SketchShapeFixed(s: string, i: nat, g: nat, c: nat)
    requires SketchShape(s, i, g, c)
    ensures IndexOf(s, ">", i + 4) == Some(g) && IndexOf(s, "</div>", g + 1) == Some(c)
  {
    OccursAtChar(s, '>', g);
    forall k: nat | i + 4 <= k < g ensures !OccursAt(s, ">", k) {
      OccursAtChar(s, '>', k);
    }
    IndexOfLeftmost(s, ">", i + 4, g);
    IndexOfLeftmost(s, "</div>", g + 1, c);
  }

  lemma SketchShapeFound(s: string, i: nat, g: nat, c: nat)
    requires OccursAt(s, "<div", i) && IndexOf(s, ">", i + 4) == Some(g)
    requires exists k: nat :: i + 4 <= k && k + 14 <= g && SketchClassAt(s, k)
    requires IndexOf(s, "</div>", g + 1) == Some(c)
    ensures SketchShape(s, i, g, c)
  {
    IndexOfChar(s, '>', i + 4);
  }

  function GroupAt(b: BlockPattern, s: string, i: nat): (r: Option<string>)
    ensures r.Some? && b.H1Heading? ==> r.value != [] && '<' !in r.value
    ensures r.Some? && b.SketchDiv? ==> !Contains(r.value, "</div>")
  {
    if b.H1Heading? then HeadingAt(s, i) else SketchAt(s, i)
  }

  /** The leftmost position in `from..hi` where `f` yields something, and what
      it yields there. */
  function FirstSome<T>(f: nat -> Option<T>, from: nat, hi: nat): (r: Option<T>)
    ensures r.None? <==> forall i :: from <= i <= hi ==> f(i).None?
    ensures r.Some? ==> exists i :: && from <= i <= hi && f(i) == r
                                    && forall j :: from <= j < i ==> f(j).None?
    decreases hi + 1 - from
  {
    if from > hi then None
    else if f(from).Some? then f(from)
    else FirstSome(f, from + 1, hi)
  }

  lemma {:induction false} FirstSomeLeftmost<T>(f: nat -> Option<T>, from: nat, hi: nat, i: nat)
    requires from <= i <= hi && f(i).Some?
    requires forall j :: from <= j < i ==> f(j).None?
    ensures FirstSome(f, from, hi) == f(i)
    decreases i - from
  {
    if from < i {
      FirstSomeLeftmost(f, from + 1, hi, i);
    }
  }

  /** The group of the leftmost match of `b` at or after `from`. */
  function FirstGroup(b: BlockPattern, s: string, from: nat): (r: Option<string>)
    ensures r.None? <==> forall i :: from <= i <= |s| ==> GroupAt(b, s, i).None?
    ensures r.Some? ==> exists i :: && from <= i <= |s| && GroupAt(b, s, i) == r
                                    && forall j :: from <= j < i ==> GroupAt(b, s, j).None?
  {
    var f := (i: nat) => GroupAt(b, s, i);
    var r := FirstSome(f, from, |s|);
    assert forall i: nat :: f(i) == GroupAt(b, s, i);
    r
  }

  /** `FirstGroup` from 0 is the group at any position with no match before it. */
  lemma FirstGroupIsLeftmost(b: BlockPattern, s: string)
    ensures forall i :: && 0 <= i <= |s| && GroupAt(b, s, i).Some?
                        && (forall j :: 0 <= j < i ==> GroupAt(b, s, j).None?)
                        ==> FirstGroup(b, s, 0) == GroupAt(b, s, i)
  {
    forall i | && 0 <= i <= |s| && GroupAt(b, s, i).Some?
               && (forall j :: 0 <= j < i ==> GroupAt(b, s, j).None?)
      ensures FirstGroup(b, s, 0) == GroupAt(b, s, i)
    {
      FirstGroupLeftmost(b, s, 0, i);
    }
  }

  /** The match found is the one that has no match before it. */
  lemma FirstGroupLeftmost(b: BlockPattern, s: string, from: nat, i: nat)
    requires from <= i <= |s| && GroupAt(b, s, i).Some?
    requires forall j :: from <= j < i ==> GroupAt(b, s, j).None?
    ensures FirstGroup(b, s, from) == GroupAt(b, s, i)
  {
    FirstSomeLeftmost((j: nat) => GroupAt(b, s, j), from, |s|, i);
  }
}
