/**
 The deterministic part of `search_duckduckgo`: the request URL, the selection of
 result containers, the canonicalisation of DuckDuckGo redirect links, and the
 text block the chat loop shows for a list of results.
 The HTTP request and the HTML parse are not modelled: the parsed page is given
 as the sequence of its `div.result` containers.
 */
module Search {
  import opened Wrappers
  import opened PyStr
  import Percent
  import Utf8

  /** The fixed part of the request URL; the percent-encoded query follows it. */
  const EndpointPrefix := "https://html.duckduckgo.com/html/?q="

  /** A link of this shape is a DuckDuckGo redirect to the real destination. */
  const RedirectMarker := "duckduckgo.com/l/?uddg="

  /** The query parameter that carries the destination. */
  const DestinationKey := "uddg="

  /** Where DuckDuckGo's tracking suffix starts in a decoded destination. */
  const TrackingMarker := "&rut="

  /** The default of `num_results`. */
  const DefaultNumResults := 5

  /**
   One `div.result` container as the parser sees it: the text and `href` of its
   `a.result__a` element and the text of its `a.result__snippet` element, each
   absent when the element or attribute is missing.
   */
  datatype Container = Container(title: Option<string>, href: Option<string>, snippet: Option<string>)

  /** One entry of the returned list: `{"title", "url", "description"}`. */
  datatype SearchResult = SearchResult(title: string, url: string, description: Option<string>)

  /** The request URL for `query`: the prefix, then `quote(query)`, which decodes back to the query. */
  function SearchUrl(query: string): (url: string)
    ensures |url| >= |EndpointPrefix| && url[..|EndpointPrefix|] == EndpointPrefix
    ensures Percent.WellEncoded(url[|EndpointPrefix|..])
    ensures Percent.Unquote(url[|EndpointPrefix|..]) == query
  {
    var encoded := Percent.Quote(query);
    Percent.QuoteBytesWellEncoded(Utf8.Encode(query));
    Percent.UnquoteQuote(query);
    assert (EndpointPrefix + encoded)[|EndpointPrefix|..] == encoded;
    EndpointPrefix + encoded
  }

  /** `url.split('&rut=')[0]` when the marker is present, the URL itself otherwise. */
  function StripTracking(url: string): (r: string)
    ensures Lacks(r, TrackingMarker)
    ensures !Contains(url, TrackingMarker) ==> r == url
    ensures Contains(url, TrackingMarker) ==> r == url[..FindFrom(url, TrackingMarker, 0)]
  {
    ContainsIff(url, TrackingMarker);
    SplitPartsLackSeparator(url, TrackingMarker);
    if Contains(url, TrackingMarker) then Split(url, TrackingMarker)[0] else url
  }

  /** The redirect marker ends with the destination key, so the guard guarantees a second split part. */
  lemma RedirectHasKey(link: string)
    requires Contains(link, RedirectMarker)
    ensures Contains(link, DestinationKey)
    ensures |Split(link, DestinationKey)| >= 2
  {
    var p := FindFrom(link, RedirectMarker, 0);
    assert RedirectMarker[18..23] == DestinationKey;
    assert link[p + 18..p + 23] == link[p..p + 23][18..23];
    assert OccursAt(link, DestinationKey, p + 18);
    ContainsIff(link, DestinationKey);
    SplitSinglePartIff(link, DestinationKey);
  }

  /**
   The URL a result link stands for: a redirect link is replaced by its decoded
   destination without the tracking suffix; any other link is kept.
   */
  function CanonicalUrl(link: string): (url: string)
    ensures !Contains(link, RedirectMarker) ==> url == link
    ensures Contains(link, RedirectMarker) ==> Lacks(url, TrackingMarker)
  {
    if Contains(link, RedirectMarker) then
      RedirectHasKey(link);
      StripTracking(Percent.Unquote(Split(link, DestinationKey)[1]))
    else
      link
  }

  /**
   Where the destination sits in a link holding `uddg=`: from just after the
   first `uddg=` up to the next one, or up to the end of the link.
   */
  function DestinationBounds(link: string): (b: (nat, nat))
    requires Contains(link, DestinationKey)
    ensures b.0 <= b.1 <= |link|
  {
    var i := FindFrom(link, DestinationKey, 0);
    var j := FindFrom(link, DestinationKey, i + |DestinationKey|);
    (i + |DestinationKey|, if j < 0 then |link| else j)
  }

  /** Where a URL is cut: at its first `&rut=`, or at its end when it has none. */
  function TrackingCut(url: string): (n: nat)
    ensures n <= |url|
  {
    if Contains(url, TrackingMarker) then FindFrom(url, TrackingMarker, 0) else |url|
  }

  /**
   How a redirect link is resolved: the destination text is percent-decoded and
   then cut at its first `&rut=` (or kept whole when it has none).
   */
  lemma CanonicalUrlOfRedirect(link: string)
    requires Contains(link, RedirectMarker)
    ensures Contains(link, DestinationKey)
    ensures var b := DestinationBounds(link);
      var decoded := Percent.Unquote(link[b.0..b.1]);
      CanonicalUrl(link) == decoded[..TrackingCut(decoded)]
  {
    RedirectHasKey(link);
    DestinationIsSecondPart(link);
    CanonicalUrlUnfold(link);
    var b := DestinationBounds(link);
    StripTrackingCut(Percent.Unquote(link[b.0..b.1]));
  }

  /** The destination bounds delimit the second part of `link.split('uddg=')`. */
  lemma DestinationIsSecondPart(link: string)
    requires Contains(link, DestinationKey)
    ensures |Split(link, DestinationKey)| >= 2
    ensures var b := DestinationBounds(link); Split(link, DestinationKey)[1] == link[b.0..b.1]
  {
    var i := FindFrom(link, DestinationKey, 0);
    var j := FindFrom(link, DestinationKey, i + |DestinationKey|);
    SplitSecondPart(link, DestinationKey, i, j);
    var b := DestinationBounds(link);
    assert b.0 == i + |DestinationKey| && b.1 == (if j < 0 then |link| else j);
  }

  /** `StripTracking` keeps the prefix before the first `&rut=`, or everything. */
  lemma StripTrackingCut(url: string)
    ensures StripTracking(url) == url[..TrackingCut(url)]
  {
    assert url[..|url|] == url;
  }

  lemma CanonicalUrlUnfold(link: string)
    requires Contains(link, RedirectMarker)
    ensures |Split(link, DestinationKey)| >= 2
    ensures CanonicalUrl(link) == StripTracking(Percent.Unquote(Split(link, DestinationKey)[1]))
  {
    RedirectHasKey(link);
  }

  /** A redirect whose destination is empty gives an empty URL: only the raw link is checked for emptiness. */
  lemma EmptyDestinationGivesEmptyUrl()
    ensures CanonicalUrl("duckduckgo.com/l/?uddg=") == ""
  {
    var link := "duckduckgo.com/l/?uddg=";
    assert OccursAt(link, RedirectMarker, 0);
    FirstKeyOfBareRedirect();
    assert FindFrom(link, DestinationKey, 23) == -1;
    CanonicalUrlOfRedirect(link);
    assert DestinationBounds(link) == (23, 23);
    assert link[23..23] == "";
  }

  lemma FirstKeyOfBareRedirect()
    ensures FindFrom("duckduckgo.com/l/?uddg=", DestinationKey, 0) == 18
  {
    var link := "duckduckgo.com/l/?uddg=";
    assert OccursAt(link, DestinationKey, 18);
    forall j | 0 <= j < 18
      ensures !OccursAt(link, DestinationKey, j)
    {
      assert link[j + 4] != '=';
    }
  }

  /** A container survives exactly when its title text and its link are both non-empty. */
  predicate IsComplete(c: Container) {
    c.title.Some? && c.title.value != "" && c.href.Some? && c.href.value != ""
  }

  function ToResult(c: Container): SearchResult
    requires IsComplete(c)
  {
    SearchResult(c.title.value, CanonicalUrl(c.href.value), c.snippet)
  }

  /** The loop body over the selected containers: incomplete ones are skipped, the rest converted. */
  function Collect(cs: seq<Container>): (rs: seq<SearchResult>)
    ensures |rs| <= |cs|
    ensures forall k :: 0 <= k < |rs| ==> rs[k].title != ""
  {
    if cs == [] then []
    else (if IsComplete(cs[0]) then [ToResult(cs[0])] else []) + Collect(cs[1..])
  }

  /** `search_duckduckgo` after the parse: containers cut to `[:num_results]`, then collected. */
  function ExtractResults(cs: seq<Container>, numResults: int): (rs: seq<SearchResult>)
    ensures numResults >= 0 ==> |rs| <= numResults && |rs| <= |cs|
    ensures numResults < 0 ==> |rs| <= (if |cs| + numResults < 0 then 0 else |cs| + numResults)
    ensures forall k :: 0 <= k < |rs| ==> rs[k].title != ""
  {
    Collect(Slice(cs, 0, numResults))
  }

  /** Indices at or after `i` of the containers that survive. */
  function KeptFrom(cs: seq<Container>, i: nat): seq<nat>
    requires i <= |cs|
    decreases |cs| - i
  {
    if i == |cs| then [] else (if IsComplete(cs[i]) then [i] else []) + KeptFrom(cs, i + 1)
  }

  /**
   `Collect` keeps exactly the complete containers, in page order: result `k`
   comes from container `idx[k]`, the indices increase, and every complete
   container at or after `i` is among them.
   */
  lemma {:induction false} CollectKeepsOrder(cs: seq<Container>, i: nat)
    requires i <= |cs|
    ensures var rs := Collect(cs[i..]);
      var idx := KeptFrom(cs, i);
      && |rs| == |idx|
      && (forall k :: 0 <= k < |idx| ==> i <= idx[k] < |cs| && IsComplete(cs[idx[k]]) && rs[k] == ToResult(cs[idx[k]]))
      && (forall k, l :: 0 <= k < l < |idx| ==> idx[k] < idx[l])
      && (forall j :: i <= j < |cs| && IsComplete(cs[j]) ==> j in idx)
    decreases |cs| - i
  {
    if i < |cs| {
      CollectKeepsOrder(cs, i + 1);
      var rest := Collect(cs[i + 1..]);
      var later := KeptFrom(cs, i + 1);
      assert cs[i..][1..] == cs[i + 1..];
      assert cs[i..][0] == cs[i];
      if IsComplete(cs[i]) {
        assert Collect(cs[i..]) == [ToResult(cs[i])] + rest;
        assert KeptFrom(cs, i) == [i] + later;
        KeptStep(cs, i, rest, later);
      } else {
        assert Collect(cs[i..]) == rest;
        assert KeptFrom(cs, i) == later;
      }
    }
  }

  /** A complete container at `i` puts its result and index in front of those of the rest. */
  lemma KeptStep(cs: seq<Container>, i: nat, rest: seq<SearchResult>, later: seq<nat>)
    requires i < |cs| && IsComplete(cs[i])
    requires |rest| == |later|
    requires forall k :: 0 <= k < |later| ==> i + 1 <= later[k] < |cs| && IsComplete(cs[later[k]]) && rest[k] == ToResult(cs[later[k]])
    requires forall k, l :: 0 <= k < l < |later| ==> later[k] < later[l]
    requires forall j :: i + 1 <= j < |cs| && IsComplete(cs[j]) ==> j in later
    ensures var rs := [ToResult(cs[i])] + rest;
      var idx := [i] + later;
      && |rs| == |idx|
      && (forall k :: 0 <= k < |idx| ==> i <= idx[k] < |cs| && IsComplete(cs[idx[k]]) && rs[k] == ToResult(cs[idx[k]]))
      && (forall k, l :: 0 <= k < l < |idx| ==> idx[k] < idx[l])
      && (forall j :: i <= j < |cs| && IsComplete(cs[j]) ==> j in idx)
  {
    var rs := [ToResult(cs[i])] + rest;
    var idx := [i] + later;
    forall k | 0 < k < |idx| ensures idx[k] == later[k - 1] && rs[k] == rest[k - 1] {
    }
  }

  /** The results are the complete selected containers, converted, in the page's order. */
  lemma ResultsInPageOrder(cs: seq<Container>, numResults: int)
    ensures var sel := Slice(cs, 0, numResults);
      var rs := ExtractResults(cs, numResults);
      var idx := KeptFrom(sel, 0);
      && |rs| == |idx|
      && (forall k :: 0 <= k < |idx| ==> idx[k] < |sel| && IsComplete(sel[idx[k]]) && rs[k] == ToResult(sel[idx[k]]))
      && (forall k, l :: 0 <= k < l < |idx| ==> idx[k] < idx[l])
      && (forall j :: 0 <= j < |sel| && IsComplete(sel[j]) ==> j in idx)
  {
    var sel := Slice(cs, 0, numResults);
    CollectKeepsOrder(sel, 0);
    assert sel[0..] == sel;
  }

  /** With only complete containers there is no dropping and no padding: `min(num_results, N)` results. */
  lemma {:induction false} AllCompleteCount(cs: seq<Container>, numResults: nat)
    requires forall k :: 0 <= k < |cs| ==> IsComplete(cs[k])
    ensures |ExtractResults(cs, numResults)| == if numResults < |cs| then numResults else |cs|
  {
    var sel := Slice(cs, 0, numResults);
    assert forall k :: 0 <= k < |sel| ==> IsComplete(sel[k]);
    CollectAllComplete(sel);
  }

  lemma {:induction false} CollectAllComplete(cs: seq<Container>)
    requires forall k :: 0 <= k < |cs| ==> IsComplete(cs[k])
    ensures |Collect(cs)| == |cs|
  {
    if cs != [] {
      CollectAllComplete(cs[1..]);
    }
  }

  /** `str(x)` of an optional text: Python prints `None` for a missing description. */
  function ShowOption(o: Option<string>): string {
    match o
    case Some(s) => s
    case None => "None"
  }

  predicate IsDigit(c: char) {
    '0' <= c <= '9'
  }

  /** `str(n)` for a natural number: decimal digits without a leading zero. */
  function NatToDecimal(n: nat): (s: string)
    ensures |s| >= 1
    ensures forall k :: 0 <= k < |s| ==> IsDigit(s[k])
    ensures n > 0 ==> s[0] != '0'
    ensures |s| == 1 || s[0] != '0'
  {
    if n < 10 then [('0' as int + n) as char]
    else NatToDecimal(n / 10) + [('0' as int + n % 10) as char]
  }

  /** The value of a string of decimal digits. */
  function DecimalValue(s: string): nat
    requires forall k :: 0 <= k < |s| ==> IsDigit(s[k])
  {
    if s == [] then 0
    else
      assert IsDigit(s[|s| - 1]);
      DecimalValue(s[..|s| - 1]) * 10 + (s[|s| - 1] as int - '0' as int)
  }

  /** `str(n)` reads back as `n`. */
  lemma {:induction false} DecimalRoundTrip(n: nat)
    ensures DecimalValue(NatToDecimal(n)) == n
  {
    if n >= 10 {
      DecimalRoundTrip(n / 10);
      var s := NatToDecimal(n);
      assert s[..|s| - 1] == NatToDecimal(n / 10);
    }
  }

  /** The header line of the displayed block. */
  const SearchHeader := "\U{1F50D} **Search Results**"

  /** The three display lines of each result, numbered from `first`. */
  function ResultLines(rs: seq<SearchResult>, first: nat): (lines: seq<string>)
    ensures |lines| == 3 * |rs|
  {
    if rs == [] then []
    else
      [ NatToDecimal(first) + ". **" + rs[0].title + "**"
      , "   URL: " + rs[0].url
      , "   " + ShowOption(rs[0].description)
      ] + ResultLines(rs[1..], first + 1)
  }

  /** The lines of the search block shown to the user and sent back to the model. */
  function SearchBlockLines(query: string, rs: seq<SearchResult>): seq<string> {
    [SearchHeader, "Query: " + query] + ResultLines(rs, 1)
  }

  /** `"\n".join(search_block)`. */
  function SearchBlock(query: string, rs: seq<SearchResult>): string {
    Join("\n", SearchBlockLines(query, rs))
  }

  /** Result `k` (counting from `first`) occupies lines `3k`, `3k+1`, `3k+2`, numbered `first + k`. */
  lemma {:induction false} ResultLinesAt(rs: seq<SearchResult>, first: nat, k: nat)
    requires k < |rs|
    ensures ResultLines(rs, first)[3 * k] == NatToDecimal(first + k) + ". **" + rs[k].title + "**"
    ensures ResultLines(rs, first)[3 * k + 1] == "   URL: " + rs[k].url
    ensures ResultLines(rs, first)[3 * k + 2] == "   " + ShowOption(rs[k].description)
  {
    if k > 0 {
      ResultLinesAt(rs[1..], first + 1, k - 1);
      assert rs[1..][k - 1] == rs[k];
    }
  }

  /** No field of a result contains a newline. */
  predicate OneLine(r: SearchResult) {
    '\n' !in r.title && '\n' !in r.url && '\n' !in ShowOption(r.description)
  }

  lemma {:induction false} ResultLinesOneLine(rs: seq<SearchResult>, first: nat)
    requires forall k :: 0 <= k < |rs| ==> OneLine(rs[k])
    ensures forall k :: 0 <= k < |ResultLines(rs, first)| ==> '\n' !in ResultLines(rs, first)[k]
  {
    if rs != [] {
      ResultLinesOneLine(rs[1..], first + 1);
      var d := NatToDecimal(first);
      assert '\n' !in d;
      var lines := ResultLines(rs, first);
      assert lines[0] == d + ". **" + rs[0].title + "**";
      forall k | 0 <= k < |lines| ensures '\n' !in lines[k] {
        if k >= 3 {
          assert lines[k] == ResultLines(rs[1..], first + 1)[k - 3];
        }
      }
    }
  }

  /**
   The displayed block can be read back line by line: when no field holds a
   newline, splitting it on `\n` gives the header, the query line and three lines
   per result, result `k` being numbered `k + 1`.
   */
  lemma SearchBlockReadsBack(query: string, rs: seq<SearchResult>)
    requires '\n' !in query
    requires forall k :: 0 <= k < |rs| ==> OneLine(rs[k])
    ensures var lines := Split(SearchBlock(query, rs), "\n");
      && |lines| == 2 + 3 * |rs|
      && lines[0] == SearchHeader
      && lines[1] == "Query: " + query
      && forall k :: 0 <= k < |rs| ==>
           && lines[2 + 3 * k] == NatToDecimal(k + 1) + ". **" + rs[k].title + "**"
           && lines[3 + 3 * k] == "   URL: " + rs[k].url
           && lines[4 + 3 * k] == "   " + ShowOption(rs[k].description)
  {
    SearchBlockSplits(query, rs);
    forall k | 0 <= k < |rs|
      ensures SearchBlockLines(query, rs)[2 + 3 * k] == NatToDecimal(k + 1) + ". **" + rs[k].title + "**"
      ensures SearchBlockLines(query, rs)[3 + 3 * k] == "   URL: " + rs[k].url
      ensures SearchBlockLines(query, rs)[4 + 3 * k] == "   " + ShowOption(rs[k].description)
    {
      SearchBlockLinesAt(query, rs, k);
    }
  }

  /** Splitting the joined block on `\n` gives its lines back when none of them holds a newline. */
  lemma SearchBlockSplits(query: string, rs: seq<SearchResult>)
    requires '\n' !in query
    requires forall k :: 0 <= k < |rs| ==> OneLine(rs[k])
    ensures Split(SearchBlock(query, rs), "\n") == SearchBlockLines(query, rs)
  {
    var lines := SearchBlockLines(query, rs);
    var tail := ResultLines(rs, 1);
    ResultLinesOneLine(rs, 1);
    assert '\n' !in SearchHeader;
    forall k | 0 <= k < |lines| ensures "\n"[0] !in lines[k] {
      if k >= 2 {
        assert lines[k] == tail[k - 2];
      }
    }
    SplitJoin("\n", lines);
  }

  lemma SearchBlockLinesAt(query: string, rs: seq<SearchResult>, k: nat)
    requires k < |rs|
    ensures SearchBlockLines(query, rs)[2 + 3 * k] == NatToDecimal(k + 1) + ". **" + rs[k].title + "**"
    ensures SearchBlockLines(query, rs)[3 + 3 * k] == "   URL: " + rs[k].url
    ensures SearchBlockLines(query, rs)[4 + 3 * k] == "   " + ShowOption(rs[k].description)
  {
    var tail := ResultLines(rs, 1);
    ResultLinesAt(rs, 1, k);
    assert SearchBlockLines(query, rs)[2 + 3 * k] == tail[3 * k];
    assert SearchBlockLines(query, rs)[3 + 3 * k] == tail[3 * k + 1];
    assert SearchBlockLines(query, rs)[4 + 3 * k] == tail[3 * k + 2];
  }
}
