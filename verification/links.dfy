/** How the upstream interpretation turns a video's play-URL field, its
    description text or a detail page into the list of episode addresses. */
module Links {
  import opened Outcomes
  import opened JsString
  import opened Patterns
  import Seqs

  /** An address as the clients receive it: a scheme, no `(` and no quote or
      whitespace anywhere. */
  predicate IsEpisodeUrl(e: string) {
    StartsWithScheme(e) && '(' !in e && AllUrl(e)
  }

  /** `link.substring(1)`, then the part before the first `(` when it stands
      after the first character (`indexOf('(') > 0`). */
  function CleanLink(link: string): (r: string)
    ensures var rest := if link == [] then [] else link[1..];
            && StartsWith(rest, r)
            && ('(' in rest && rest[0] != '(' ==> |r| < |rest| && rest[|r|] == '(' && '(' !in r)
            && (!('(' in rest && rest[0] != '(') ==> r == rest)
  {
    var rest := if link == [] then [] else link[1..];
    IndexOfChar(rest, '(', 0);
    match IndexOf(rest, "(", 0)
    case Some(k) => if k > 0 then rest[..k] else rest
    case None => rest
  }

  /** Cleaning a `$`-prefixed match leaves an episode address. */
  lemma CleanLinkShape(p: LinkPattern, t: string)
    requires p.HasDollar() && IsLink(p, t)
    ensures IsEpisodeUrl(CleanLink(t))
  {
    var rest := t[1..];
    var r := CleanLink(t);
    SchemeHead(rest);
    AllUrlSliceOf(t, 1, |t|);
    CutKeepsScheme(rest, r);
    assert r == rest[..|r|];
    AllUrlSliceOf(rest, 0, |r|);
  }

  /** An address with a scheme starts with `h`. */
  lemma SchemeHead(u: string)
    requires StartsWithScheme(u)
    ensures |u| >= 7 && u[0] == 'h'
  {
    assert u[0] == u[..7][0];
  }

  /** A slice of a quote- and whitespace-free string is free of them too. */
  lemma AllUrlSliceOf(t: string, a: nat, b: nat)
    requires a <= b <= |t| && AllUrl(t)
    ensures AllUrl(t[a..b])
  {
    forall k | 0 <= k < b - a ensures IsUrlChar(t[a..b][k]) {
      assert t[a..b][k] == t[a + k];
    }
  }

  /** Cutting an address before a `(` cannot reach into its scheme. */
  lemma CutKeepsScheme(rest: string, r: string)
    requires StartsWithScheme(rest) && StartsWith(rest, r)
    requires r == rest || rest[|r|] == '('
    ensures StartsWithScheme(r)
  {
    var n := if StartsWith(rest, "https://") then 8 else 7;
    assert forall i :: 0 <= i < n ==> rest[i] != '(' by {
      forall i | 0 <= i < n ensures rest[i] != '(' {
        assert rest[i] == rest[..n][i];
      }
    }
    assert |r| >= n;
    assert r[..n] == rest[..n];
  }

  /** `Array.from(new Set(ms)).map(clean)`: duplicates removed before cleaning,
      first-seen order kept. */
  function CleanLinks(ms: seq<string>): (r: seq<string>)
    ensures forall e :: e in r <==> exists t :: t in ms && e == CleanLink(t)
    ensures r == [] <==> ms == []
  {
    var d := Seqs.Dedup(ms);
    CleanedMembers(ms, d);
    Seqs.Map(CleanLink, d)
  }

  lemma CleanedMembers(ms: seq<string>, d: seq<string>)
    requires forall x :: x in d <==> x in ms
    ensures forall e :: e in Seqs.Map(CleanLink, d) <==> exists t :: t in ms && e == CleanLink(t)
    ensures Seqs.Map(CleanLink, d) == [] <==> ms == []
  {
    var r := Seqs.Map(CleanLink, d);
    forall e | e in r ensures exists t :: t in ms && e == CleanLink(t) {
      var i :| 0 <= i < |r| && r[i] == e;
      assert d[i] in ms;
    }
    forall t | t in ms ensures CleanLink(t) in r {
      var i :| 0 <= i < |d| && d[i] == t;
      assert r[i] == CleanLink(t);
    }
    if ms != [] {
      assert ms[0] in d;
    }
    assert |d| > 0 ==> d[0] in ms;
  }

  /** One address per distinct raw match, in the order the matches were first
      seen, each the cleaning of its match. */
  lemma CleanLinksOnePerDistinctMatch(ms: seq<string>)
    ensures var d := Seqs.Dedup(ms);
            && |CleanLinks(ms)| == |d|
            && (forall i :: 0 <= i < |d| ==> CleanLinks(ms)[i] == CleanLink(d[i]))
            && (forall t :: t in d <==> t in ms)
            && Seqs.NoDuplicates(d)
            && (forall i, j :: 0 <= i < j < |d| ==> Seqs.FirstIndex(ms, d[i]) < Seqs.FirstIndex(ms, d[j]))
  {
  }

  /** The cleaned matches of a `$`-prefixed pattern are all episode addresses. */
  lemma CleanLinksShape(p: LinkPattern, ms: seq<string>)
    requires p.HasDollar()
    requires forall k :: 0 <= k < |ms| ==> IsLink(p, ms[k])
    ensures forall e :: e in CleanLinks(ms) ==> IsEpisodeUrl(e)
  {
    forall e | e in CleanLinks(ms) ensures IsEpisodeUrl(e) {
      var t :| t in ms && e == CleanLink(t);
      CleanLinkShape(p, t);
    }
  }

  /** Cutting at the first `(` of what follows the `$`. */
  lemma CleanLinkAtParen(a: string, x: string)
    requires a != [] && '(' !in a
    ensures CleanLink("$" + a + "(" + x) == a
  {
    var rest := ("$" + a + "(" + x)[1..];
    assert rest == a + "(" + x;
    assert rest[|a|] == '(';
    assert forall i :: 0 <= i < |a| ==> rest[i] == a[i];
    IndexOfChar(rest, '(', 0);
    assert IndexOf(rest, "(", 0) == Some(|a|);
    assert rest[..|a|] == a;
  }

  /** Two distinct matches can clean to the same address: duplicates are removed
      before the `(` suffix is cut, not after. */
  lemma CleaningAfterDedupCanRepeat(a: string, x: string, y: string)
    requires a != [] && '(' !in a && x != y
    ensures CleanLinks(["$" + a + "(" + x, "$" + a + "(" + y]) == [a, a]
  {
    var m0, m1 := "$" + a + "(" + x, "$" + a + "(" + y;
    assert m0 != m1 by {
      assert m0[|a| + 2..] == x && m1[|a| + 2..] == y;
    }
    var ms := [m0, m1];
    assert ms[..1] == [m0];
    assert Seqs.Dedup([m0]) == [m0];
    assert Seqs.Dedup(ms) == ms;
    CleanLinkAtParen(a, x);
    CleanLinkAtParen(a, y);
  }

  /** Group `k` is the one `extractEpisodes` keeps: it has a match, no group has
      more, and every earlier group has strictly fewer. */
  predicate IsChosenGroup(ms: seq<seq<string>>, k: nat) {
    && k < |ms| && ms[k] != []
    && (forall i :: 0 <= i < |ms| ==> |ms[i]| <= |ms[k]|)
    && (forall i :: 0 <= i < k ==> |ms[i]| < |ms[k]|)
  }

  /** At most one group satisfies the choice. */
  lemma ChosenGroupUnique(ms: seq<seq<string>>, k1: nat, k2: nat)
    requires IsChosenGroup(ms, k1) && IsChosenGroup(ms, k2)
    ensures k1 == k2
  {
  }

  /** The `forEach` over the groups that replaces the current pick whenever a
      group has strictly more matches (the initial pick having none). */
  function PickGroup(ms: seq<seq<string>>): (r: Option<nat>)
    ensures r.None? <==> forall k :: 0 <= k < |ms| ==> ms[k] == []
    ensures r.Some? ==> IsChosenGroup(ms, r.value)
    decreases |ms|
  {
    if ms == [] then None
    else
      var init := ms[..|ms| - 1];
      var last := |ms| - 1;
      assert forall i :: 0 <= i < last ==> init[i] == ms[i];
      match PickGroup(init)
      case None =>
        if ms[last] != [] then Some(last) else None
      case Some(k) =>
        if |ms[last]| > |ms[k]| then Some(last) else Some(k)
  }

  /** The raw `$`-prefixed `.m3u8` matches of each `$$$`-separated play source. */
  function SourceMatches(playUrl: string): (ms: seq<seq<string>>)
    ensures |ms| == |Split(playUrl, "$$$")|
  {
    Seqs.Map((g: string) => Scan(DollarM3u8, g, 0), Split(playUrl, "$$$"))
  }

  /** `extractEpisodes`: the cleaned, de-duplicated matches of the play source
      with the most matches (the first such), or nothing for an absent or empty
      field. Every address it returns is an episode address. */
  function ExtractEpisodes(playUrl: Option<string>): (r: seq<string>)
    ensures playUrl.None? || playUrl == Some([]) ==> r == []
    ensures forall e :: e in r ==> IsEpisodeUrl(e)
  {
    if playUrl.None? || playUrl.value == [] then []
    else
      var ms := SourceMatches(playUrl.value);
      match PickGroup(ms)
      case None => []
      case Some(k) =>
        CleanLinksShape(DollarM3u8, ms[k]);
        CleanLinks(ms[k])
  }

  /** The episodes come from the chosen play source, whichever it is. */
  lemma ExtractEpisodesChoice(u: string, k: nat)
    requires u != []
    requires IsChosenGroup(SourceMatches(u), k)
    ensures ExtractEpisodes(Some(u)) == CleanLinks(SourceMatches(u)[k])
  {
    var ms := SourceMatches(u);
    var j := PickGroup(ms).value;
    ChosenGroupUnique(ms, j, k);
  }

  /** There are episodes exactly when some play source has a match. */
  lemma ExtractEpisodesEmpty(u: string)
    ensures ExtractEpisodes(Some(u)) == [] <==>
            u == [] || forall k :: 0 <= k < |SourceMatches(u)| ==> SourceMatches(u)[k] == []
  {
  }

  /** A field with a single play source is scanned as a whole. */
  lemma ExtractEpisodesSingleSource(u: string)
    requires u != [] && !Contains(u, "$$$")
    ensures ExtractEpisodes(Some(u)) == CleanLinks(Scan(DollarM3u8, u, 0))
  {
    SplitWithoutSeparator(u, "$$$");
    var ms := SourceMatches(u);
    assert |ms| == 1 && ms[0] == Scan(DollarM3u8, u, 0);
    if ms[0] != [] {
      assert IsChosenGroup(ms, 0);
      ExtractEpisodesChoice(u, 0);
    } else {
      assert PickGroup(ms).None?;
    }
  }

  /** `ep.split('$')[1]` when there is one, else `''`. */
  function EpisodeUrl(entry: string): (r: string)
    ensures '$' !in r
  {
    var parts := Split(entry, "$");
    ContainsChar(if |parts| > 1 then parts[1] else [], '$');
    if |parts| > 1 then parts[1] else []
  }

  /** The address of an episode entry is the text between its first `$` and the
      next `$` (or the end), and empty when the entry has no `$`. */
  lemma EpisodeUrlBetweenDollars(entry: string)
    ensures '$' !in entry ==> EpisodeUrl(entry) == []
    ensures '$' in entry ==>
              var tail := entry[Seqs.FirstIndex(entry, '$') + 1..];
              EpisodeUrl(entry) == tail[..Seqs.FirstIndex(tail, '$')]
  {
    SplitCharFirst(entry, '$');
    if '$' in entry {
      var tail := entry[Seqs.FirstIndex(entry, '$') + 1..];
      SplitCharFirst(tail, '$');
      assert Split(entry, "$")[1] == Split(entry, "$")[1..][0];
    }
  }

  /** The filter of the detail interpretation: a non-empty string starting
      with `http://` or `https://`. */
  predicate IsHttpUrl(u: string) {
    u != [] && StartsWithScheme(u)
  }

  /** The episodes listed in the first play source of a detail record: its
      `#`-separated entries, each reduced to its address, keeping only the
      `http(s)` ones, in order and with repetitions. */
  function DetailPlayEpisodes(playUrl: Option<string>): (r: seq<string>)
    ensures playUrl.None? || playUrl == Some([]) ==> r == []
    ensures forall e :: e in r ==> StartsWithScheme(e) && '$' !in e
  {
    if playUrl.None? || playUrl.value == [] then []
    else
      var main := Split(playUrl.value, "$$$")[0];
      Seqs.Filter(IsHttpUrl, Seqs.Map(EpisodeUrl, Split(main, "#")))
  }

  /** For a play source written as `#`-joined entries, the episodes are the
      addresses of the entries that have an `http(s)` one, in entry order. */
  lemma DetailPlayEpisodesOfEntries(entries: seq<string>)
    requires |entries| > 0
    requires forall k :: 0 <= k < |entries| ==> '#' !in entries[k]
    requires !Contains(Join(entries, "#"), "$$$")
    ensures DetailPlayEpisodes(Some(Join(entries, "#")))
            == Seqs.Filter(IsHttpUrl, Seqs.Map(EpisodeUrl, entries))
  {
    var u := Join(entries, "#");
    if u == [] {
      BlankPlayUrl(entries);
    } else {
      SplitWithoutSeparator(u, "$$$");
      SplitJoinChar(entries, '#');
      assert Split(u, "$$$")[0] == u;
    }
  }

  lemma BlankPlayUrl(entries: seq<string>)
    requires |entries| > 0 && Join(entries, "#") == []
    ensures Seqs.Filter(IsHttpUrl, Seqs.Map(EpisodeUrl, entries)) == []
  {
    assert |entries| == 1;
    var m := Seqs.Map(EpisodeUrl, entries);
    assert m == [EpisodeUrl([])];
    assert m[1..] == [];
  }

  /** Only the first play source is read: the rest of the field after the
      first `$$$` makes no difference. */
  lemma DetailUsesFirstSource(u: string)
    ensures DetailPlayEpisodes(Some(u)) == DetailPlayEpisodes(Some(Split(u, "$$$")[0]))
  {
    var g := Split(u, "$$$")[0];
    SplitWithoutSeparator(g, "$$$");
    if u != [] && g == [] {
      var m := Seqs.Map(EpisodeUrl, Split(g, "#"));
      assert Split(g, "#") == [[]] by {
        SplitWithoutSeparator(g, "#");
      }
      assert m == [EpisodeUrl([])];
      assert m[1..] == [];
    }
  }

  /** `link.replace(/^\$/, '')`. */
  function StripLeadingDollar(link: string): string {
    if link != [] && link[0] == '$' then link[1..] else link
  }

  /** The fallback of the detail interpretation: every bare `.m3u8` address in
      the description, with a leading `$` stripped. */
  function ContentEpisodes(content: string): (r: seq<string>)
    ensures |r| == |Scan(BareM3u8, content, 0)|
  {
    Seqs.Map(StripLeadingDollar, Scan(BareM3u8, content, 0))
  }

  /** The `$` strip never applies: a bare match starts with its scheme. So the
      fallback episodes are exactly the bare matches. */
  lemma ContentStripIsIdle(content: string)
    ensures ContentEpisodes(content) == Scan(BareM3u8, content, 0)
  {
    StripIdleOnLinks(Scan(BareM3u8, content, 0));
  }

  lemma StripIdleOnLinks(ms: seq<string>)
    requires forall k :: 0 <= k < |ms| ==> IsLink(BareM3u8, ms[k])
    ensures Seqs.Map(StripLeadingDollar, ms) == ms
  {
    forall i | 0 <= i < |ms| ensures StripLeadingDollar(ms[i]) == ms[i] {
      StripIdle(ms[i]);
    }
  }

  lemma StripIdle(t: string)
    requires IsLink(BareM3u8, t)
    ensures StripLeadingDollar(t) == t
  {
    assert StartsWithScheme(t);
    assert t[0] == t[..7][0];
  }

  /** The episodes of a detail record: the play-source entries, or, when those
      yield none and the description is non-empty, the addresses found in it. */
  function DetailEpisodes(playUrl: Option<string>, content: Option<string>): (r: seq<string>)
    ensures forall e :: e in r ==> StartsWithScheme(e)
  {
    var eps := DetailPlayEpisodes(playUrl);
    if eps == [] && content.Some? && content.value != [] then
      ContentStripIsIdle(content.value);
      ContentEpisodes(content.value)
    else eps
  }

  /** The description is consulted only when the play sources yield nothing, and
      then its bare `.m3u8` matches are the episodes. */
  lemma DetailEpisodesFallback(playUrl: Option<string>, content: Option<string>)
    ensures DetailPlayEpisodes(playUrl) != [] ==>
              DetailEpisodes(playUrl, content) == DetailPlayEpisodes(playUrl)
    ensures DetailPlayEpisodes(playUrl) == [] && content.Some? && content.value != [] ==>
              DetailEpisodes(playUrl, content) == Scan(BareM3u8, content.value, 0)
    ensures DetailPlayEpisodes(playUrl) == [] && (content.None? || content == Some([])) ==>
              DetailEpisodes(playUrl, content) == []
  {
    if content.Some? {
      ContentStripIsIdle(content.value);
    }
  }

  /** The raw matches of a detail page: the `ffzy` pattern for the source keyed
      `ffzy`, and the general `$`-prefixed pattern otherwise or when that finds
      nothing. */
  function PageMatches(html: string, key: string): (ms: seq<string>)
    ensures forall k :: 0 <= k < |ms| ==> IsLink(DollarM3u8, ms[k]) || IsLink(DollarFfzy, ms[k])
  {
    var ffzy := if key == "ffzy" then Scan(DollarFfzy, html, 0) else [];
    if ffzy == [] then Scan(DollarM3u8, html, 0) else ffzy
  }

  /** The episodes of a detail page: its matches de-duplicated and cleaned. */
  function PageEpisodes(html: string, key: string): (r: seq<string>)
    ensures forall e :: e in r ==> IsEpisodeUrl(e)
  {
    var ms := PageMatches(html, key);
    var p := if key == "ffzy" && Scan(DollarFfzy, html, 0) != [] then DollarFfzy else DollarM3u8;
    CleanLinksShape(p, ms);
    CleanLinks(ms)
  }

  /** Which pattern a detail page is read with: the dated `ffzy` layout only for
      that source and only when it occurs somewhere in the page. */
  lemma PageEpisodesPattern(html: string, key: string)
    ensures key != "ffzy" ==> PageEpisodes(html, key) == CleanLinks(Scan(DollarM3u8, html, 0))
    ensures key == "ffzy" && !NoMatchFrom(DollarFfzy, html, 0) ==>
              PageEpisodes(html, key) == CleanLinks(Scan(DollarFfzy, html, 0))
    ensures key == "ffzy" && NoMatchFrom(DollarFfzy, html, 0) ==>
              PageEpisodes(html, key) == CleanLinks(Scan(DollarM3u8, html, 0))
  {
  }
}
