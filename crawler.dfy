/**
 * `extract_next_links` and `scraper`: the status gate, one fragment-free
 * absolute URL per anchor in document order, the per-page word record that
 * the source appends to `data.txt`, and the `is_valid` filter.
 */
module Crawler {
  import opened Wrappers
  import opened Seqs
  import opened Scanner
  import opened Tokenizer
  import opened Frequencies
  import opened UrlValidator

  /**
   * What the HTML parser yields for the page body: the `href` of every `<a>`
   * element in document order (`None` when it has none) and the visible text.
   */
  datatype Document = Document(hrefs: seq<Option<string>>, text: string)

  /** The fetched page: status code, actual (post-redirect) URL and parsed body. */
  datatype Response = Response(status: int, url: string, content: Document)

  /** The record written to `data.txt` for an accepted page. */
  datatype PageLog = PageLog(url: string, urlCount: nat, frequencies: map<string, nat>)

  /** `u.split('#')[0]`: everything before the first `#`. */
  function StripFragment(u: string): (r: string)
    ensures '#' !in r
    ensures |r| <= |u| && r == u[..|r|]
    ensures |r| < |u| ==> u[|r|] == '#'
    decreases |u|
  {
    if u == [] || u[0] == '#' then []
    else [u[0]] + StripFragment(u[1..])
  }

  /** Stripping leaves a URL without `#` alone, so stripping twice is stripping once. */
  lemma StripFragmentIdempotent(u: string)
    ensures StripFragment(StripFragment(u)) == StripFragment(u)
    ensures StripFragment(u) == u <==> '#' !in u
  {
  }

  /**
   * The links `extract_next_links` returns: none unless the status is 200,
   * otherwise one per anchor, resolved against the page URL and cut at `#`.
   */
  function ExtractedLinks(resp: Response, resolve: (string, Option<string>) -> string): seq<string> {
    if resp.status != 200 then []
    else
      seq(|resp.content.hrefs|, k requires 0 <= k < |resp.content.hrefs| =>
        StripFragment(resolve(resp.url, resp.content.hrefs[k])))
  }

  /**
   * Nothing comes back from a page turned away at the status gate; otherwise one
   * link per anchor, each the resolved URL up to (not including) its first `#`.
   */
  lemma ExtractedLinksFacts(resp: Response, resolve: (string, Option<string>) -> string)
    ensures var urls := ExtractedLinks(resp, resolve);
            && (resp.status != 200 ==> urls == [])
            && (resp.status == 200 ==> |urls| == |resp.content.hrefs|)
            && (forall k :: 0 <= k < |urls| ==>
                  var absolute := resolve(resp.url, resp.content.hrefs[k]);
                  && '#' !in urls[k]
                  && urls[k] == absolute[..|urls[k]|]
                  && (|urls[k]| == |absolute| || absolute[|urls[k]|] == '#'))
  {
  }

  /**
   * `extract_next_links(url, resp)`, where `resolve` stands for `urljoin`. The
   * second result is what is appended to `data.txt`: nothing for a page that is
   * turned away at the status gate.
   */
  method ExtractNextLinks(resp: Response, resolve: (string, Option<string>) -> string)
    returns (urls: seq<string>, log: Option<PageLog>)
    ensures urls == ExtractedLinks(resp, resolve)
    ensures resp.status != 200 ==> log == None
    ensures resp.status == 200 ==> log == Some(PageLog(resp.url, |urls|, Tally(Tokens(resp.content.text))))
  {
    if resp.status != 200 {
      return [], None;
    }
    var hrefs := resp.content.hrefs;
    urls := [];
    var i := 0;
    while i < |hrefs|
      invariant i <= |hrefs|
      invariant |urls| == i
      invariant forall k :: 0 <= k < i ==> urls[k] == StripFragment(resolve(resp.url, hrefs[k]))
    {
      var absolute := resolve(resp.url, hrefs[i]);
      urls := urls + [StripFragment(absolute)];
      i := i + 1;
    }
    var tokens := Tokenize(resp.content.text);
    var frequencies := ComputeWordFrequencies(tokens);
    log := Some(PageLog(resp.url, |urls|, frequencies));
  }

  /** The test of the list comprehension in `scraper`. */
  function ValidLink(parse: string -> UrlParts, robots: string -> RobotsOutcome): string -> bool {
    link => IsValid(parse(link), robots(link))
  }

  /** What filtering fragment-free links by `is_valid` keeps. */
  lemma ValidLinksFacts(extracted: seq<string>, parse: string -> UrlParts, robots: string -> RobotsOutcome)
    requires forall k :: 0 <= k < |extracted| ==> '#' !in extracted[k]
    ensures var links := Filter(extracted, ValidLink(parse, robots));
            && Subseq(links, extracted)
            && (forall k :: 0 <= k < |links| ==> IsValid(parse(links[k]), robots(links[k])) && '#' !in links[k])
            && (forall l :: multiset(links)[l] == if IsValid(parse(l), robots(l)) then multiset(extracted)[l] else 0)
  {
    var links := Filter(extracted, ValidLink(parse, robots));
    FilterSubseq(extracted, ValidLink(parse, robots));
    forall k | 0 <= k < |links|
      ensures '#' !in links[k]
    {
      SubseqIn(links, extracted, links[k]);
    }
    forall l
      ensures multiset(links)[l] == if IsValid(parse(l), robots(l)) then multiset(extracted)[l] else 0
    {
      FilterCount(extracted, ValidLink(parse, robots), l);
    }
  }

  /**
   * `scraper(url, resp)`: exactly the extracted links that `is_valid` accepts,
   * in their order and with their multiplicity. `parse` stands for `urlparse`
   * and `robots` for the robots.txt outcome of each link.
   */
  method Scraper(resp: Response, resolve: (string, Option<string>) -> string,
                 parse: string -> UrlParts, robots: string -> RobotsOutcome)
    returns (links: seq<string>)
    ensures links == Filter(ExtractedLinks(resp, resolve), ValidLink(parse, robots))
    ensures resp.status != 200 ==> links == []
    ensures Subseq(links, ExtractedLinks(resp, resolve))
    ensures forall k :: 0 <= k < |links| ==> IsValid(parse(links[k]), robots(links[k])) && '#' !in links[k]
    ensures forall l :: multiset(links)[l] ==
              if IsValid(parse(l), robots(l)) then multiset(ExtractedLinks(resp, resolve))[l] else 0
  {
    var extracted, _ := ExtractNextLinks(resp, resolve);
    links := Filter(extracted, ValidLink(parse, robots));
    ExtractedLinksFacts(resp, resolve);
    ValidLinksFacts(extracted, parse, robots);
  }
}
