/** `extractURLsFromXML` (main.go): flattening a sitemap, or a tree of
    sitemap indexes, into the list of page URLs it names (sitemaps.org
    protocol 0.9: `<urlset>/<url>/<loc>` and `<sitemapindex>/<sitemap>/<loc>`). */
module Sitemap {
  import opened Wrappers
  import opened Text
  import opened Sanitize
  import opened Transport

  /** The two `xml.Unmarshal` calls, as given decoders. Each yields the `loc`
      strings of its shape in document order, or None when unmarshalling
      fails. Go's decoder does not check the root element's name, so a
      document of the other shape decodes to an empty list. */
  datatype Decoders = Decoders(urlSet: Bytes -> Option<seq<string>>, index: Bytes -> Option<seq<string>>)

  /** What resolving one document gives: the page URLs, the
      "unsupported sitemap format" error, or Exhausted when the nesting of
      indexes is deeper than the fuel allows. Exhausted exists only to make
      the recursion terminate; the source has no such outcome. */
  datatype Resolution = Found(urls: seq<string>) | Unsupported | Exhausted

  /** The decode succeeded and found at least one entry. */
  predicate HasEntries(d: Option<seq<string>>) {
    d.Some? && |d.value| > 0
  }

  /** Resolution of a sanitized document; `fuel` bounds how many levels of
      index may still be descended. A urlset with entries is the answer;
      "unsupported sitemap format" is reported exactly when neither decode
      yields an entry; only an index can run out of fuel. */
  function Resolve(net: Network, dec: Decoders, data: Bytes, fuel: nat): (r: Resolution)
    ensures HasEntries(dec.urlSet(data)) ==> r == Found(dec.urlSet(data).value)
    ensures r.Unsupported? <==> !HasEntries(dec.urlSet(data)) && !HasEntries(dec.index(data))
    ensures r.Exhausted? ==> !HasEntries(dec.urlSet(data)) && HasEntries(dec.index(data))
    decreases fuel, 0
  {
    if HasEntries(dec.urlSet(data)) then Found(dec.urlSet(data).value)
    else if HasEntries(dec.index(data)) then
      if fuel == 0 then Exhausted else ResolveChildren(net, dec, dec.index(data).value, fuel - 1)
    else Unsupported
  }

  /** Following one child of an index: None when its fetch fails, otherwise
      the resolution of its sanitized body. */
  function FollowChild(net: Network, dec: Decoders, url: string, fuel: nat): (r: Option<Resolution>)
    ensures r.None? <==> Fetch(net, url).Failure?
    decreases fuel, 1
  {
    match Fetch(net, url)
    case Failure(_) => None
    case Success(resp) => Some(Resolve(net, dec, SanitizeXML(resp.body), fuel))
  }

  /** A child that fails to fetch or to resolve; it is skipped. */
  predicate ChildFails(net: Network, dec: Decoders, url: string, fuel: nat) {
    var o := FollowChild(net, dec, url, fuel);
    o.None? || o.value.Unsupported?
  }

  /** What one followed child adds to the aggregate. */
  function Contribution(o: Option<Resolution>): seq<string> {
    if o.Some? && o.value.Found? then o.value.urls else []
  }

  /** The children of an index, resolved one after another in document
      order; failed children are skipped, the first exhausted one ends
      the whole resolution. Never Unsupported: an index whose children all
      fail still succeeds. */
  function ResolveChildren(net: Network, dec: Decoders, cs: seq<string>, fuel: nat): (r: Resolution)
    ensures r.Found? || r.Exhausted?
    decreases fuel, 2, |cs|
  {
    if cs == [] then Found([])
    else Extend(ResolveChildren(net, dec, cs[..|cs| - 1], fuel), FollowChild(net, dec, cs[|cs| - 1], fuel))
  }

  /** One loop iteration over an index's children: after an exhausted
      child nothing changes; an exhausted child ends the resolution; a
      resolved child appends its URLs; a failed one is skipped. */
  function Extend(prev: Resolution, child: Option<Resolution>): (r: Resolution)
    requires prev.Found? || prev.Exhausted?
    ensures prev.Exhausted? || child == Some(Exhausted) ==> r == Exhausted
    ensures prev.Found? && child != Some(Exhausted) ==> r == Found(prev.urls + Contribution(child))
  {
    if prev.Exhausted? then Exhausted
    else
      match child
      case Some(Exhausted) => Exhausted
      case Some(Found(u)) => Found(prev.urls + u)
      case _ => prev
  }

  /** The imperative resolver: the urlset loop copies the `loc` strings;
      an index has its children resolved by the loop of ExtractChildren. */
  method ExtractURLs(net: Network, dec: Decoders, data: Bytes, fuel: nat) returns (r: Resolution)
    ensures r == Resolve(net, dec, data, fuel)
    decreases fuel, 0
  {
    var us := dec.urlSet(data);
    if us.Some? && |us.value| > 0 {
      var urls: seq<string> := [];
      for i := 0 to |us.value|
        invariant urls == us.value[..i]
      {
        urls := urls + [us.value[i]];
      }
      return Found(urls);
    }
    var si := dec.index(data);
    if si.Some? && |si.value| > 0 {
      if fuel == 0 {
        return Exhausted;
      }
      r := ExtractChildren(net, dec, si.value, fuel - 1);
      return;
    }
    return Unsupported;
  }

  /** The loop over an index's children: fetch each, sanitize it, resolve
      it recursively and append its URLs, skipping a child with `continue`
      when its fetch or its own resolution fails. */
  method ExtractChildren(net: Network, dec: Decoders, children: seq<string>, fuel: nat) returns (r: Resolution)
    ensures r == ResolveChildren(net, dec, children, fuel)
    decreases fuel, 1
  {
    var urls: seq<string> := [];
    for i := 0 to |children|
      invariant ResolveChildren(net, dec, children[..i], fuel) == Found(urls)
    {
      ResolveChildrenStep(net, dec, children, i, fuel);
      var fetched := Fetch(net, children[i]);
      if fetched.Failure? {
        continue;
      }
      var childData := SanitizeXML(fetched.value.body);
      var child := ExtractURLs(net, dec, childData, fuel);
      assert FollowChild(net, dec, children[i], fuel) == Some(child);
      if child.Exhausted? {
        ExhaustedPersists(net, dec, children, i + 1, fuel);
        return Exhausted;
      }
      if child.Unsupported? {
        continue;
      }
      urls := urls + child.urls;
    }
    assert children[..|children|] == children;
    return Found(urls);
  }

  /** The children up to `i`, inclusive, extend those before `i`. */
  lemma ResolveChildrenStep(net: Network, dec: Decoders, cs: seq<string>, i: nat, fuel: nat)
    requires i < |cs|
    ensures ResolveChildren(net, dec, cs[..i + 1], fuel)
        == Extend(ResolveChildren(net, dec, cs[..i], fuel), FollowChild(net, dec, cs[i], fuel))
  {
    assert cs[..i + 1][..i] == cs[..i];
  }

  /** Once a prefix of the children is exhausted, so is every longer one. */
  lemma {:induction false} ExhaustedPersists(net: Network, dec: Decoders, cs: seq<string>, k: nat, fuel: nat)
    requires k <= |cs|
    requires ResolveChildren(net, dec, cs[..k], fuel).Exhausted?
    ensures ResolveChildren(net, dec, cs, fuel).Exhausted?
    decreases |cs| - k
  {
    if k == |cs| {
      assert cs[..k] == cs;
    } else {
      assert cs[..k + 1][..k] == cs[..k];
      ExhaustedPersists(net, dec, cs, k + 1, fuel);
    }
  }

  /** A urlset with at least one entry is the answer, whatever the index
      decoder would have said: the urlset shape wins ties and the index
      decode is never consulted. */
  lemma UrlSetWins(net: Network, dec: Decoders, data: Bytes, fuel: nat, otherIndex: Bytes -> Option<seq<string>>)
    requires HasEntries(dec.urlSet(data))
    ensures Resolve(net, dec, data, fuel) == Found(dec.urlSet(data).value)
    ensures Resolve(net, Decoders(dec.urlSet, otherIndex), data, fuel) == Resolve(net, dec, data, fuel)
  {
  }

  function Contributions(net: Network, dec: Decoders, cs: seq<string>, fuel: nat): seq<seq<string>> {
    seq(|cs|, i requires 0 <= i < |cs| => Contribution(FollowChild(net, dec, cs[i], fuel)))
  }

  /** One more child that does not run out of fuel adds its contribution. */
  lemma ResolveChildrenSnoc(net: Network, dec: Decoders, cs: seq<string>, fuel: nat)
    requires cs != [] && ResolveChildren(net, dec, cs[..|cs| - 1], fuel).Found?
    requires FollowChild(net, dec, cs[|cs| - 1], fuel) != Some(Exhausted)
    ensures ResolveChildren(net, dec, cs, fuel)
        == Found(ResolveChildren(net, dec, cs[..|cs| - 1], fuel).urls + Contribution(FollowChild(net, dec, cs[|cs| - 1], fuel)))
  {
  }

  /** An index resolves to the in-order concatenation of what each child
      contributes (nothing for a failed child) when no child runs out of
      fuel. */
  lemma {:induction false} ResolveChildrenIsConcat(net: Network, dec: Decoders, cs: seq<string>, fuel: nat)
    requires forall i | 0 <= i < |cs| :: FollowChild(net, dec, cs[i], fuel) != Some(Exhausted)
    ensures ResolveChildren(net, dec, cs, fuel) == Found(Flatten(Contributions(net, dec, cs, fuel)))
    decreases |cs|
  {
    if cs != [] {
      var n := |cs| - 1;
      var prefix := cs[..n];
      assert forall i | 0 <= i < n :: prefix[i] == cs[i];
      ResolveChildrenIsConcat(net, dec, prefix, fuel);
      ResolveChildrenSnoc(net, dec, cs, fuel);
      ContributionsSnoc(net, dec, cs, fuel);
      FlattenSnoc(Contributions(net, dec, prefix, fuel), Contribution(FollowChild(net, dec, cs[n], fuel)));
    }
  }

  lemma ContributionsSnoc(net: Network, dec: Decoders, cs: seq<string>, fuel: nat)
    requires cs != []
    ensures Contributions(net, dec, cs, fuel)
        == Contributions(net, dec, cs[..|cs| - 1], fuel) + [Contribution(FollowChild(net, dec, cs[|cs| - 1], fuel))]
  {
    var n := |cs| - 1;
    var before := Contributions(net, dec, cs[..n], fuel);
    var all := Contributions(net, dec, cs, fuel);
    assert forall i | 0 <= i < n :: all[i] == before[i];
  }

  /** If some child runs out of fuel, so does the whole index. */
  lemma {:induction false} ResolveChildrenExhausted(net: Network, dec: Decoders, cs: seq<string>, k: nat, fuel: nat)
    requires k < |cs| && FollowChild(net, dec, cs[k], fuel) == Some(Exhausted)
    ensures ResolveChildren(net, dec, cs, fuel) == Exhausted
  {
    var prefix := cs[..k + 1];
    assert prefix[..k + 1 - 1] == cs[..k];
    assert prefix[k] == cs[k];
    assert ResolveChildren(net, dec, prefix, fuel) == Exhausted;
    ExhaustedPersists(net, dec, cs, k + 1, fuel);
  }

  /** Resolving a concatenation of child lists is resolving each and
      joining the results. */
  function Join(a: Resolution, b: Resolution): Resolution {
    if a.Found? && b.Found? then Found(a.urls + b.urls) else Exhausted
  }

  lemma {:induction false} ResolveChildrenAppend(net: Network, dec: Decoders, a: seq<string>, b: seq<string>, fuel: nat)
    ensures ResolveChildren(net, dec, a + b, fuel)
        == Join(ResolveChildren(net, dec, a, fuel), ResolveChildren(net, dec, b, fuel))
    decreases |b|
  {
    if b == [] {
      assert a + b == a;
    } else {
      var n := |b| - 1;
      var ab := a + b;
      assert ab[..|ab| - 1] == a + b[..n];
      assert ab[|ab| - 1] == b[n];
      ResolveChildrenAppend(net, dec, a, b[..n], fuel);
      ExtendJoin(ResolveChildren(net, dec, a, fuel), ResolveChildren(net, dec, b[..n], fuel),
                 FollowChild(net, dec, b[n], fuel));
    }
  }

  /** Extending after a join is joining with the extension. */
  lemma ExtendJoin(pa: Resolution, pb: Resolution, child: Option<Resolution>)
    requires pa.Found? || pa.Exhausted?
    requires pb.Found? || pb.Exhausted?
    ensures Extend(Join(pa, pb), child) == Join(pa, Extend(pb, child))
  {
    if pa.Found? && pb.Found? && child != Some(Exhausted) {
      assert pa.urls + pb.urls + Contribution(child) == pa.urls + (pb.urls + Contribution(child));
    }
  }

  /** A failed child contributes nothing and does not stop its later
      siblings: removing it changes nothing. */
  lemma FailedChildSkipped(net: Network, dec: Decoders, a: seq<string>, c: string, b: seq<string>, fuel: nat)
    requires ChildFails(net, dec, c, fuel)
    ensures ResolveChildren(net, dec, a + [c] + b, fuel) == ResolveChildren(net, dec, a + b, fuel)
  {
    ResolveChildrenAppend(net, dec, a + [c], b, fuel);
    ResolveChildrenAppend(net, dec, a, b, fuel);
    assert (a + [c])[..|a + [c]| - 1] == a;
  }

  /** An index whose children all fail still succeeds, with no URLs. */
  lemma {:induction false} AllChildrenFail(net: Network, dec: Decoders, cs: seq<string>, fuel: nat)
    requires forall i | 0 <= i < |cs| :: ChildFails(net, dec, cs[i], fuel)
    ensures ResolveChildren(net, dec, cs, fuel) == Found([])
    decreases |cs|
  {
    if cs != [] {
      var n := |cs| - 1;
      assert forall i | 0 <= i < n :: cs[..n][i] == cs[i];
      AllChildrenFail(net, dec, cs[..n], fuel);
    }
  }

  /** Fuel only cuts the recursion off: a resolution that did not run out
      is unchanged by more fuel. */
  lemma {:induction false} ResolveFuelMonotone(net: Network, dec: Decoders, data: Bytes, f: nat, g: nat)
    requires f <= g
    requires !Resolve(net, dec, data, f).Exhausted?
    ensures Resolve(net, dec, data, g) == Resolve(net, dec, data, f)
    decreases f, 0
  {
    if !HasEntries(dec.urlSet(data)) && HasEntries(dec.index(data)) {
      ChildrenFuelMonotone(net, dec, dec.index(data).value, f - 1, g - 1);
    }
  }

  lemma {:induction false} ChildrenFuelMonotone(net: Network, dec: Decoders, cs: seq<string>, f: nat, g: nat)
    requires f <= g
    requires !ResolveChildren(net, dec, cs, f).Exhausted?
    ensures ResolveChildren(net, dec, cs, g) == ResolveChildren(net, dec, cs, f)
    decreases f, 1, |cs|
  {
    if cs != [] {
      var n := |cs| - 1;
      ChildrenFuelMonotone(net, dec, cs[..n], f, g);
      var fetched := Fetch(net, cs[n]);
      if fetched.Success? {
        ResolveFuelMonotone(net, dec, SanitizeXML(fetched.value.body), f, g);
      }
    }
  }
}
