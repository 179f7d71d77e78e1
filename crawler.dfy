/** The crawl itself (main.go): the loop body of `worker`, run by a single
    worker over the whole job list, and the root sequence of `crawlSiteMap`
    (fetch, sanitize, resolve, then hand every URL to the worker). */
module Crawler {
  import opened Wrappers
  import opened Text
  import opened Sanitize
  import opened Transport
  import opened Sitemap
  import opened Html

  datatype CrawlResult = CrawlResult(url: string, status: int, title: string, metaDescription: string, canonical: string)

  /** The Content-Type test: a plain, case-sensitive substring search, so
      it holds exactly when "text/html" occurs somewhere in the header. */
  function IsHTML(contentType: string): (r: bool)
    ensures r <==> exists i :: OccursAt(contentType, "text/html", i)
  {
    ContainsIffOccurs(contentType, "text/html");
    Contains(contentType, "text/html")
  }

  /** One job: a failed fetch gives no result, a non-HTML response a result
      with empty metadata, an HTML response a result with the metadata
      extracted from its body. */
  function ProcessJob(net: Network, parse: Bytes -> Option<Node>, url: string): (r: Option<CrawlResult>)
    ensures r.None? <==> Fetch(net, url).Failure?
    ensures r.Some? ==> r.value.url == url && r.value.status == Fetch(net, url).value.status
    ensures r.Some? ==> Trimmed(r.value.title)
  {
    match Fetch(net, url)
    case Failure(_) => None
    case Success(resp) =>
      if !IsHTML(resp.contentType) then Some(CrawlResult(url, resp.status, "", "", ""))
      else
        var md := ExtractMetadata(parse(resp.body));
        Some(CrawlResult(url, resp.status, md.title, md.description, md.canonical))
  }

  function ResultOf(o: Option<CrawlResult>): seq<CrawlResult> {
    if o.Some? then [o.value] else []
  }

  /** The results one worker emits for a job list, in job order. */
  function Crawl(net: Network, parse: Bytes -> Option<Node>, jobs: seq<string>): (r: seq<CrawlResult>)
    ensures |r| <= |jobs|
    decreases |jobs|
  {
    if jobs == [] then []
    else Crawl(net, parse, jobs[..|jobs| - 1]) + ResultOf(ProcessJob(net, parse, jobs[|jobs| - 1]))
  }

  /** The last job appends its result, if any, to those of the others. */
  lemma CrawlStep(net: Network, parse: Bytes -> Option<Node>, jobs: seq<string>)
    requires jobs != []
    ensures Crawl(net, parse, jobs)
        == Crawl(net, parse, jobs[..|jobs| - 1]) + ResultOf(ProcessJob(net, parse, jobs[|jobs| - 1]))
  {
  }

  /** One worker draining the job list: each job is fetched once; a failed
      fetch is dropped with `continue`, every other job appends one result. */
  method Worker(net: Network, parse: Bytes -> Option<Node>, jobs: seq<string>) returns (results: seq<CrawlResult>)
    ensures results == Crawl(net, parse, jobs)
  {
    results := [];
    for i := 0 to |jobs|
      invariant results == Crawl(net, parse, jobs[..i])
    {
      assert jobs[..i + 1][..i] == jobs[..i];
      var url := jobs[i];
      var fetched := Fetch(net, url);
      if fetched.Failure? {
        continue;
      }
      var resp := fetched.value;
      if !Contains(resp.contentType, "text/html") {
        results := results + [CrawlResult(url, resp.status, "", "", "")];
        continue;
      }
      var md := ParseHTML(parse, resp.body);
      results := results + [CrawlResult(url, resp.status, md.title, md.description, md.canonical)];
    }
    assert jobs[..|jobs|] == jobs;
  }

  /** The three outcomes of a job. */
  lemma JobOutcome(net: Network, parse: Bytes -> Option<Node>, url: string)
    ensures ProcessJob(net, parse, url).None? <==> Fetch(net, url).Failure?
    ensures Fetch(net, url).Success? ==>
      var resp := Fetch(net, url).value;
      var r := ProcessJob(net, parse, url).value;
      && r.url == url && r.status == resp.status
      && (!IsHTML(resp.contentType) ==> r.title == "" && r.metaDescription == "" && r.canonical == "")
      && (IsHTML(resp.contentType) ==>
            Metadata(r.title, r.metaDescription, r.canonical) == ExtractMetadata(parse(resp.body)))
  {
  }

  /** Results never outnumber jobs, and there is one per job exactly when
      every fetch succeeds. */
  lemma {:induction false} CrawlCount(net: Network, parse: Bytes -> Option<Node>, jobs: seq<string>)
    ensures |Crawl(net, parse, jobs)| <= |jobs|
    ensures |Crawl(net, parse, jobs)| == |jobs| <==> forall i | 0 <= i < |jobs| :: Fetch(net, jobs[i]).Success?
    decreases |jobs|
  {
    if jobs != [] {
      var n := |jobs| - 1;
      var prefix := jobs[..n];
      CrawlStep(net, parse, jobs);
      CrawlCount(net, parse, prefix);
      assert jobs == prefix + [jobs[n]];
      FetchedSnoc(net, prefix, jobs[n]);
    }
  }

  /** Every job of `jobs + [last]` was fetched exactly when every job of
      `jobs` was, and `last` was too. */
  lemma FetchedSnoc(net: Network, jobs: seq<string>, last: string)
    ensures (forall i | 0 <= i < |jobs + [last]| :: Fetch(net, (jobs + [last])[i]).Success?)
        <==> (forall i | 0 <= i < |jobs| :: Fetch(net, jobs[i]).Success?) && Fetch(net, last).Success?
  {
    assert forall i | 0 <= i < |jobs| :: (jobs + [last])[i] == jobs[i];
    assert (jobs + [last])[|jobs|] == last;
  }

  /** For each result, the index of the job it came from. */
  function Origins(net: Network, parse: Bytes -> Option<Node>, jobs: seq<string>): seq<nat>
    decreases |jobs|
  {
    if jobs == [] then []
    else
      var n := |jobs| - 1;
      var prev := Origins(net, parse, jobs[..n]);
      if ProcessJob(net, parse, jobs[n]).Some? then prev + [n] else prev
  }

  /** The origins are job indices, strictly increasing. */
  lemma {:induction false} OriginsIncrease(net: Network, parse: Bytes -> Option<Node>, jobs: seq<string>)
    ensures forall k | 0 <= k < |Origins(net, parse, jobs)| :: Origins(net, parse, jobs)[k] < |jobs|
    ensures forall k, l | 0 <= k < l < |Origins(net, parse, jobs)| ::
              Origins(net, parse, jobs)[k] < Origins(net, parse, jobs)[l]
    decreases |jobs|
  {
    if jobs != [] {
      var n := |jobs| - 1;
      var prefix := jobs[..n];
      OriginsIncrease(net, parse, prefix);
      var prev := Origins(net, parse, prefix);
      var idx := Origins(net, parse, jobs);
      assert forall k | 0 <= k < |prev| :: prev[k] < |prefix|;
      if ProcessJob(net, parse, jobs[n]).Some? {
        assert idx == prev + [n];
        forall k | 0 <= k < |prev| ensures idx[k] == prev[k] && prev[k] < n { }
        assert idx[|prev|] == n;
      } else {
        assert idx == prev;
      }
    }
  }

  /** Every job whose fetch succeeded is among the origins. */
  lemma {:induction false} OriginsCover(net: Network, parse: Bytes -> Option<Node>, jobs: seq<string>)
    ensures forall i | 0 <= i < |jobs| && Fetch(net, jobs[i]).Success? :: i in Origins(net, parse, jobs)
    decreases |jobs|
  {
    if jobs != [] {
      var n := |jobs| - 1;
      var prefix := jobs[..n];
      OriginsCover(net, parse, prefix);
      assert forall i | 0 <= i < n :: prefix[i] == jobs[i];
    }
  }

  /** The k-th result is what the k-th origin job produced. */
  lemma {:induction false} ResultsFromOrigins(net: Network, parse: Bytes -> Option<Node>, jobs: seq<string>)
    ensures var idx := Origins(net, parse, jobs);
      && |idx| == |Crawl(net, parse, jobs)|
      && forall k | 0 <= k < |idx| ::
           idx[k] < |jobs| && ProcessJob(net, parse, jobs[idx[k]]) == Some(Crawl(net, parse, jobs)[k])
    decreases |jobs|
  {
    if jobs != [] {
      var n := |jobs| - 1;
      var prefix := jobs[..n];
      ResultsFromOrigins(net, parse, prefix);
      var prev := Origins(net, parse, prefix);
      var before := Crawl(net, parse, prefix);
      var idx := Origins(net, parse, jobs);
      var results := Crawl(net, parse, jobs);
      var o := ProcessJob(net, parse, jobs[n]);
      CrawlStep(net, parse, jobs);
      assert idx == if o.Some? then prev + [n] else prev;
      assert results == before + ResultOf(o);
      forall k | 0 <= k < |idx|
        ensures idx[k] < |jobs| && ProcessJob(net, parse, jobs[idx[k]]) == Some(results[k])
      {
        if k < |prev| {
          assert idx[k] == prev[k] && results[k] == before[k];
          assert jobs[prev[k]] == prefix[prev[k]];
        }
      }
    }
  }

  /** Results appear in job order: each result comes from its origin job,
      the origins strictly increase, and every job whose fetch succeeded is
      among them. */
  lemma ResultsInJobOrder(net: Network, parse: Bytes -> Option<Node>, jobs: seq<string>)
    ensures var idx := Origins(net, parse, jobs);
      && |idx| == |Crawl(net, parse, jobs)|
      && (forall k | 0 <= k < |idx| ::
            idx[k] < |jobs| && ProcessJob(net, parse, jobs[idx[k]]) == Some(Crawl(net, parse, jobs)[k]))
      && (forall k, l | 0 <= k < l < |idx| :: idx[k] < idx[l])
      && (forall i | 0 <= i < |jobs| && Fetch(net, jobs[i]).Success? :: i in idx)
  {
    OriginsIncrease(net, parse, jobs);
    OriginsCover(net, parse, jobs);
    ResultsFromOrigins(net, parse, jobs);
  }

  /** How a whole run ends: the root could not be fetched, the root is not a
      sitemap, discovery ran out of fuel, or the URLs were crawled. */
  datatype CrawlOutcome =
    | RootFetchFailed(error: FetchError)
    | RootUnsupported
    | DiscoveryExhausted
    | Crawled(urls: seq<string>, results: seq<CrawlResult>)

  /** The root sequence of `crawlSiteMap`, as a function. */
  function CrawlSiteMapSpec(net: Network, dec: Decoders, parse: Bytes -> Option<Node>, root: string, fuel: nat): (r: CrawlOutcome)
    ensures r.RootFetchFailed? <==> Fetch(net, root).Failure?
    ensures r.Crawled? ==> |r.results| <= |r.urls|
  {
    match Fetch(net, root)
    case Failure(e) => RootFetchFailed(e)
    case Success(resp) =>
      match Resolve(net, dec, SanitizeXML(resp.body), fuel)
      case Unsupported => RootUnsupported
      case Exhausted => DiscoveryExhausted
      case Found(urls) => Crawled(urls, Crawl(net, parse, urls))
  }

  /** `crawlSiteMap`: fetch the root, sanitize it, resolve it, and only then
      queue every discovered URL as a job for the worker. */
  method CrawlSiteMap(net: Network, dec: Decoders, parse: Bytes -> Option<Node>, root: string, fuel: nat)
    returns (r: CrawlOutcome)
    ensures r == CrawlSiteMapSpec(net, dec, parse, root, fuel)
  {
    var fetched := Fetch(net, root);
    if fetched.Failure? {
      return RootFetchFailed(fetched.error);
    }
    var data := SanitizeXML(fetched.value.body);
    var resolved := ExtractURLs(net, dec, data, fuel);
    if resolved.Unsupported? {
      return RootUnsupported;
    }
    if resolved.Exhausted? {
      return DiscoveryExhausted;
    }
    var results := Worker(net, parse, resolved.urls);
    return Crawled(resolved.urls, results);
  }

  /** A root that cannot be fetched, or that neither decode accepts, ends the
      run before any job exists; otherwise (with enough fuel) every
      discovered URL is crawled, with at most one result each. */
  lemma RootOutcome(net: Network, dec: Decoders, parse: Bytes -> Option<Node>, root: string, fuel: nat)
    ensures Fetch(net, root).Failure? ==> CrawlSiteMapSpec(net, dec, parse, root, fuel) == RootFetchFailed(Fetch(net, root).error)
    ensures Fetch(net, root).Success? ==>
      var data := SanitizeXML(Fetch(net, root).value.body);
      (CrawlSiteMapSpec(net, dec, parse, root, fuel).RootUnsupported? <==>
         !HasEntries(dec.urlSet(data)) && !HasEntries(dec.index(data)))
    ensures CrawlSiteMapSpec(net, dec, parse, root, fuel).Crawled? ==>
      var out := CrawlSiteMapSpec(net, dec, parse, root, fuel);
      out.results == Crawl(net, parse, out.urls) && |out.results| <= |out.urls|
  {
    var out := CrawlSiteMapSpec(net, dec, parse, root, fuel);
    if out.Crawled? {
      CrawlCount(net, parse, out.urls);
    }
  }

  /** A root index with two children, the first a urlset of three pages and
      the second unreachable: discovery yields exactly the three pages and
      the crawl gives at most three results. */
  lemma IndexWithUnreachableChild(net: Network, dec: Decoders, parse: Bytes -> Option<Node>,
                                  root: string, a: string, b: string, rootResp: Response, aResp: Response,
                                  pages: seq<string>, fuel: nat)
    requires Fetch(net, root) == Success(rootResp)
    requires !HasEntries(dec.urlSet(SanitizeXML(rootResp.body)))
    requires dec.index(SanitizeXML(rootResp.body)) == Some([a, b])
    requires Fetch(net, a) == Success(aResp)
    requires dec.urlSet(SanitizeXML(aResp.body)) == Some(pages) && |pages| == 3
    requires Fetch(net, b).Failure?
    requires fuel >= 1
    ensures CrawlSiteMapSpec(net, dec, parse, root, fuel).Crawled?
    ensures CrawlSiteMapSpec(net, dec, parse, root, fuel).urls == pages
    ensures |CrawlSiteMapSpec(net, dec, parse, root, fuel).results| <= 3
  {
    var cs := [a, b];
    assert cs[..1] == [a];
    assert cs[..1][..0] == [];
    assert Resolve(net, dec, SanitizeXML(aResp.body), fuel - 1) == Found(pages);
    assert FollowChild(net, dec, a, fuel - 1) == Some(Found(pages));
    assert FollowChild(net, dec, b, fuel - 1) == None;
    assert ResolveChildren(net, dec, cs[..1], fuel - 1) == Found(pages);
    assert ResolveChildren(net, dec, cs, fuel - 1) == Found(pages);
    CrawlCount(net, parse, pages);
  }
}
