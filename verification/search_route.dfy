/** The keyword search endpoint (`src/app/api/search/route.ts`): every
    configured site is searched and the results concatenated; when nothing is
    found the query is retried in up to two simpler forms, first cut at its
    first separator character, then with its digits removed. */
module SearchRoute {
  import opened Outcomes
  import opened JsString
  import Seqs
  import opened Downstream

  /** One site's view of the network: `net(site, query, page)`. */
  function AtSite(net: (Site, string, int) -> Fetch<Envelope>, site: Site): (string, int) -> Fetch<Envelope> {
    (q: string, n: int) => net(site, q, n)
  }

  /** The results of one site for `query`. */
  function SiteSearch(site: Site, query: string, maxPages: int,
                      net: (Site, string, int) -> Fetch<Envelope>): seq<SearchResult> {
    SearchFromApi(site, query, maxPages, AtSite(net, site)).Results()
  }

  /** `!query || query.trim() === ''`. */
  predicate IsBlank(query: string) {
    Trim(query) == []
  }

  /** The results of each site, in site order. */
  function SiteResults(query: string, sites: seq<Site>, maxPages: int,
                       net: (Site, string, int) -> Fetch<Envelope>): (r: seq<seq<SearchResult>>)
    ensures |r| == |sites|
    ensures forall i :: 0 <= i < |sites| ==> r[i] == SiteSearch(sites[i], query, maxPages, net)
  {
    Seqs.Map((s: Site) => SiteSearch(s, query, maxPages, net), sites)
  }

  /** `performSearch`: nothing for a blank query; otherwise every site searched
      concurrently and the answers concatenated in site order. */
  function PerformSearch(query: string, sites: seq<Site>, maxPages: int,
                         net: (Site, string, int) -> Fetch<Envelope>): (r: seq<SearchResult>)
    ensures IsBlank(query) ==> r == []
    ensures sites == [] ==> r == []
  {
    if IsBlank(query) then [] else Seqs.Flatten(SiteResults(query, sites, maxPages, net))
  }

  /** A result is found exactly when one of the sites returns it for the query. */
  lemma PerformSearchMembership(query: string, sites: seq<Site>, maxPages: int,
                                net: (Site, string, int) -> Fetch<Envelope>, x: SearchResult)
    requires !IsBlank(query)
    ensures x in PerformSearch(query, sites, maxPages, net) <==>
            exists i :: 0 <= i < |sites| && x in SiteSearch(sites[i], query, maxPages, net)
  {
    Seqs.FlattenMembership(SiteResults(query, sites, maxPages, net), x);
  }

  /** The number of results is the sum of the sites' numbers. */
  lemma PerformSearchLength(query: string, sites: seq<Site>, maxPages: int,
                            net: (Site, string, int) -> Fetch<Envelope>)
    requires !IsBlank(query)
    ensures |PerformSearch(query, sites, maxPages, net)| == Seqs.TotalLength(SiteResults(query, sites, maxPages, net))
  {
    Seqs.FlattenLength(SiteResults(query, sites, maxPages, net));
  }

  /** Searching two lists of sites one after the other gives the first list's
      results followed by the second's. */
  lemma PerformSearchSiteOrder(query: string, s1: seq<Site>, s2: seq<Site>, maxPages: int,
                               net: (Site, string, int) -> Fetch<Envelope>)
    ensures PerformSearch(query, s1 + s2, maxPages, net)
            == PerformSearch(query, s1, maxPages, net) + PerformSearch(query, s2, maxPages, net)
  {
    if !IsBlank(query) {
      var r1 := SiteResults(query, s1, maxPages, net);
      var r2 := SiteResults(query, s2, maxPages, net);
      Seqs.MapAppend((s: Site) => SiteSearch(s, query, maxPages, net), s1, s2);
      Seqs.FlattenAppend(r1, r2);
    }
  }

  /** With one site, the results are that site's list exactly as it answers
      it: same records, same order. */
  lemma PerformSearchSingleSite(query: string, site: Site, maxPages: int,
                                net: (Site, string, int) -> Fetch<Envelope>)
    requires !IsBlank(query)
    ensures PerformSearch(query, [site], maxPages, net) == SiteSearch(site, query, maxPages, net)
  {
    var rs := SiteResults(query, [site], maxPages, net);
    assert rs[1..] == [];
    assert Seqs.Flatten(rs) == rs[0] + Seqs.Flatten(rs[1..]);
  }

  /** The results are each site's list, in site order, every list kept whole
      and in the order the site answers it. */
  lemma PerformSearchIsSiteLists(query: string, sites: seq<Site>, maxPages: int,
                                 net: (Site, string, int) -> Fetch<Envelope>)
    requires !IsBlank(query)
    ensures sites != [] ==>
              PerformSearch(query, sites, maxPages, net)
              == SiteSearch(sites[0], query, maxPages, net) + PerformSearch(query, sites[1..], maxPages, net)
  {
    if sites != [] {
      assert sites == [sites[0]] + sites[1..];
      PerformSearchSiteOrder(query, [sites[0]], sites[1..], maxPages, net);
      PerformSearchSingleSite(query, sites[0], maxPages, net);
    }
  }

  /** `x` names one of `sites` as its source, by key and name. */
  predicate FromSites(x: SearchResult, sites: seq<Site>) {
    exists i :: 0 <= i < |sites| && x.source == sites[i].key && x.sourceName == sites[i].name
  }

  /** Every result names one of the configured sites as its source. */
  lemma PerformSearchAttributed(query: string, sites: seq<Site>, maxPages: int,
                                net: (Site, string, int) -> Fetch<Envelope>, x: SearchResult)
    requires x in PerformSearch(query, sites, maxPages, net)
    ensures FromSites(x, sites)
  {
    PerformSearchMembership(query, sites, maxPages, net, x);
    var i :| 0 <= i < |sites| && x in SiteSearch(sites[i], query, maxPages, net);
    SearchResultsAttributed(sites[i], query, maxPages, AtSite(net, sites[i]));
  }

  /** The class `[\s.·:：～~—_@，,\[\]!！-]` of the fallback. */
  predicate IsSeparator(c: char) {
    || IsSpace(c)
    || c in {'.', '·', ':', '：', '～', '~', '—', '_', '@', '，', ',', '[', ']', '!', '！', '-'}
  }

  predicate IsNotSeparator(c: char) {
    !IsSeparator(c)
  }

  /** `specialCharRegex.test(query)`. */
  predicate HasSeparator(query: string) {
    exists i :: 0 <= i < |query| && IsSeparator(query[i])
  }

  /** `query.split(specialCharRegex)[0]`: the query up to its first separator. */
  function SimplifiedQuery(query: string): (r: string)
    ensures StartsWith(query, r)
    ensures forall i :: 0 <= i < |r| ==> !IsSeparator(r[i])
    ensures |r| < |query| <==> HasSeparator(query)
    ensures |r| < |query| ==> IsSeparator(query[|r|])
  {
    var n := RunLength(IsNotSeparator, query, 0);
    assert forall i :: 0 <= i < n ==> query[..n][i] == query[i];
    query[..n]
  }

  /** `/\d/.test(query)`. */
  predicate HasDigit(query: string) {
    exists i :: 0 <= i < |query| && IsAsciiDigit(query[i])
  }

  /** `query.replace(/\d/g, '')`. */
  function RemoveDigits(query: string): (r: string)
    ensures forall c :: c in r <==> c in query && !IsAsciiDigit(c)
    ensures |r| < |query| <==> HasDigit(query)
  {
    var r := Seqs.Filter(IsNotAsciiDigit, query);
    Seqs.FilterLength(IsNotAsciiDigit, query);
    Seqs.FilterIdentity(IsNotAsciiDigit, query);
    r
  }

  /** Removing digits keeps the other characters in order: it works piece by
      piece, and leaves a digit-free string as it is. */
  lemma RemoveDigitsKeepsOrder(a: string, b: string)
    ensures RemoveDigits(a + b) == RemoveDigits(a) + RemoveDigits(b)
    ensures !HasDigit(a) ==> RemoveDigits(a) == a
  {
    Seqs.FilterAppend(IsNotAsciiDigit, a, b);
    Seqs.FilterIdentity(IsNotAsciiDigit, a);
  }

  /** What the endpoint answers with, and the queries it searched for, in
      order. */
  datatype GetOutcome = GetOutcome(results: seq<SearchResult>, queries: seq<string>)

  /** The staged search of `GET` for the parameter `q` (`None` when absent),
      where `search` answers one query: the original query; when it finds
      nothing and has a separator, its simplified form; when that finds nothing
      and has a digit, the simplified form without digits. */
  function Fallback(q: Option<string>, search: string -> seq<SearchResult>): (out: GetOutcome)
    ensures |out.queries| <= 3
    ensures out.queries == [] <==> q.None? || q == Some([])
    ensures out.queries == [] ==> out.results == []
    ensures out.queries != [] ==> out.queries[0] == q.value
    ensures out.queries != [] ==> out.results == search(out.queries[|out.queries| - 1])
  {
    if q.None? || q.value == [] then GetOutcome([], [])
    else
      var original := q.value;
      var first := search(original);
      if first != [] || !HasSeparator(original) then GetOutcome(first, [original])
      else
        var simplified := SimplifiedQuery(original);
        if simplified == [] || simplified == original then GetOutcome(first, [original])
        else
          var second := search(simplified);
          if second != [] || !HasDigit(simplified) then GetOutcome(second, [original, simplified])
          else
            var digitless := RemoveDigits(simplified);
            if digitless == [] then GetOutcome(second, [original, simplified])
            else GetOutcome(search(digitless), [original, simplified, digitless])
  }

  /** The search `GET` runs for each query: every configured site, each read
      for at most `maxPages` pages. */
  function SitesSearch(sites: seq<Site>, maxPages: int,
                       net: (Site, string, int) -> Fetch<Envelope>): string -> seq<SearchResult> {
    (query: string) => PerformSearch(query, sites, maxPages, net)
  }

  /** The fallback over the search of every site answers with that search's
      results for its last query, which name only those sites. */
  lemma OutcomeOverSites(out: GetOutcome, sites: seq<Site>, maxPages: int,
                         net: (Site, string, int) -> Fetch<Envelope>)
    requires out.queries == [] ==> out.results == []
    requires out.queries != [] ==> out.results == SitesSearch(sites, maxPages, net)(out.queries[|out.queries| - 1])
    ensures out.queries != [] ==>
              out == GetOutcome(PerformSearch(out.queries[|out.queries| - 1], sites, maxPages, net), out.queries)
    ensures forall x :: x in out.results ==> FromSites(x, sites)
  {
    OutcomeAttributed(out, SitesSearch(sites, maxPages, net), sites, maxPages, net);
  }

  /** `GET` (lines 46-86): the staged search over the configured sites, each
      reading at most `MaxSearchPages(pageSetting)` pages, where `pageSetting`
      is the page-limit setting of the environment. It answers with the
      search of its last query, and every result names one of those sites. */
  function Get(q: Option<string>, sites: seq<Site>, pageSetting: Option<int>,
               net: (Site, string, int) -> Fetch<Envelope>): (out: GetOutcome)
    ensures |out.queries| <= 3
    ensures out.queries == [] <==> q.None? || q == Some([])
    ensures out.queries == [] ==> out.results == []
    ensures out.queries != [] ==> out.queries[0] == q.value
    ensures out.queries != [] ==>
              out == GetOutcome(PerformSearch(out.queries[|out.queries| - 1], sites, MaxSearchPages(pageSetting), net),
                                out.queries)
    ensures forall x :: x in out.results ==> FromSites(x, sites)
  {
    var out := Fallback(q, SitesSearch(sites, MaxSearchPages(pageSetting), net));
    OutcomeOverSites(out, sites, MaxSearchPages(pageSetting), net);
    out
  }

  /** `GET` is the staged fallback over any search that agrees with searching
      every site with the configured page limit. */
  lemma GetIsFallback(q: Option<string>, sites: seq<Site>, pageSetting: Option<int>,
                      net: (Site, string, int) -> Fetch<Envelope>, search: string -> seq<SearchResult>)
    requires forall query :: search(query) == PerformSearch(query, sites, MaxSearchPages(pageSetting), net)
    ensures Get(q, sites, pageSetting, net) == Fallback(q, search)
  {
    FallbackExtensional(q, SitesSearch(sites, MaxSearchPages(pageSetting), net), search);
  }

  /** The fallback depends only on what the search answers. */
  lemma FallbackExtensional(q: Option<string>, f: string -> seq<SearchResult>, g: string -> seq<SearchResult>)
    requires forall query :: f(query) == g(query)
    ensures Fallback(q, f) == Fallback(q, g)
  {
  }

  /** `GET` retries with the simplified query exactly when the original,
      searched over every site, finds nothing and has a separator that is
      not its first character. */
  lemma GetSecondSearchWhen(original: string, sites: seq<Site>, pageSetting: Option<int>,
                            net: (Site, string, int) -> Fetch<Envelope>)
    ensures var out := Get(Some(original), sites, pageSetting, net);
            |out.queries| >= 2 <==>
              && original != []
              && PerformSearch(original, sites, MaxSearchPages(pageSetting), net) == []
              && HasSeparator(original)
              && !IsSeparator(original[0])
    ensures var out := Get(Some(original), sites, pageSetting, net);
            |out.queries| >= 2 ==> out.queries[1] == SimplifiedQuery(original)
  {
    var search := SitesSearch(sites, MaxSearchPages(pageSetting), net);
    GetIsFallback(Some(original), sites, pageSetting, net, search);
    SecondSearchWhen(original, search);
  }

  /** `GET` tries the digit-free query exactly when it tried the simplified
      one, which found nothing and has a digit and something besides. */
  lemma GetThirdSearchWhen(original: string, sites: seq<Site>, pageSetting: Option<int>,
                           net: (Site, string, int) -> Fetch<Envelope>)
    ensures var out := Get(Some(original), sites, pageSetting, net);
            var simplified := SimplifiedQuery(original);
            |out.queries| == 3 <==>
              && |out.queries| >= 2
              && PerformSearch(simplified, sites, MaxSearchPages(pageSetting), net) == []
              && HasDigit(simplified)
              && RemoveDigits(simplified) != []
    ensures var out := Get(Some(original), sites, pageSetting, net);
            |out.queries| == 3 ==> out.queries[2] == RemoveDigits(SimplifiedQuery(original))
  {
    var search := SitesSearch(sites, MaxSearchPages(pageSetting), net);
    GetIsFallback(Some(original), sites, pageSetting, net, search);
    ThirdSearchWhen(original, search);
  }

  /** An outcome that answers with the search for its last query, or with
      nothing, names only the sites searched over. */
  lemma OutcomeAttributed(out: GetOutcome, search: string -> seq<SearchResult>, sites: seq<Site>,
                          maxPages: int, net: (Site, string, int) -> Fetch<Envelope>)
    requires forall query :: search(query) == PerformSearch(query, sites, maxPages, net)
    requires out.queries == [] ==> out.results == []
    requires out.queries != [] ==> out.results == search(out.queries[|out.queries| - 1])
    ensures forall x :: x in out.results ==> FromSites(x, sites)
  {
    forall x | x in out.results
      ensures FromSites(x, sites)
    {
      var last := out.queries[|out.queries| - 1];
      PerformSearchAttributed(last, sites, maxPages, net, x);
    }
  }

  /** Every query searched for is non-empty and strictly shorter than the one
      before it. */
  lemma FallbackQueriesShrink(q: Option<string>, search: string -> seq<SearchResult>)
    ensures var out := Fallback(q, search);
            && (forall i :: 0 < i < |out.queries| ==> |out.queries[i]| < |out.queries[i - 1]|)
            && (forall i :: 0 <= i < |out.queries| ==> out.queries[i] != [])
  {
  }

  /** A query that finds something is never retried. */
  lemma NoFallbackWhenFound(original: string, search: string -> seq<SearchResult>)
    requires original != [] && search(original) != []
    ensures Fallback(Some(original), search) == GetOutcome(search(original), [original])
  {
  }

  /** The simplified query is tried exactly when the original is non-empty,
      finds nothing, and has a separator that is not its first character. */
  lemma SecondSearchWhen(original: string, search: string -> seq<SearchResult>)
    ensures var out := Fallback(Some(original), search);
            |out.queries| >= 2 <==>
              && original != []
              && search(original) == []
              && HasSeparator(original)
              && !IsSeparator(original[0])
    ensures var out := Fallback(Some(original), search);
            |out.queries| >= 2 ==> out.queries[1] == SimplifiedQuery(original)
  {
  }

  /** The digit-free query is tried exactly when the simplified one was tried,
      found nothing, and has a digit and something besides digits. */
  lemma ThirdSearchWhen(original: string, search: string -> seq<SearchResult>)
    ensures var out := Fallback(Some(original), search);
            var simplified := SimplifiedQuery(original);
            |out.queries| == 3 <==>
              && |out.queries| >= 2
              && search(simplified) == []
              && HasDigit(simplified)
              && RemoveDigits(simplified) != []
    ensures var out := Fallback(Some(original), search);
            |out.queries| == 3 ==> out.queries[2] == RemoveDigits(SimplifiedQuery(original))
  {
  }

  /** A query with a separator always simplifies to something shorter, so the
      check that the simplified query differs from the original never fails. */
  lemma SimplifiedDiffers(original: string)
    requires HasSeparator(original)
    ensures SimplifiedQuery(original) != original
  {
  }

  /** "庆余年2.第二季" is retried as "庆余年2", then as "庆余年". */
  lemma FallbackExample()
    ensures SimplifiedQuery("庆余年2.第二季") == "庆余年2"
    ensures HasDigit("庆余年2") && RemoveDigits("庆余年2") == "庆余年"
  {
    var q := "庆余年2.第二季";
    assert IsSeparator(q[4]);
    assert forall i :: 0 <= i < 4 ==> !IsSeparator(q[i]);
    assert "庆余年2"[3] == '2';
  }
}
