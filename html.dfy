/** `parseHTML` (main.go): one pre-order walk over the parsed document that
    overwrites three captured variables, so each keeps the value from the
    LAST element that matches. The canonical link is the relation of
    RFC 6596. */
module Html {
  import opened Wrappers
  import opened Text

  /** The node types of golang.org/x/net/html. */
  datatype NodeType = ErrorNode | TextNode | DocumentNode | ElementNode | CommentNode | DoctypeNode | RawNode

  /** An attribute; its namespace is never consulted, so it is omitted. */
  datatype Attribute = Attribute(key: string, val: string)

  /** A parsed node: for an element `data` is the tag name, for a text node
      the text. The FirstChild/NextSibling chain is the `children` list. */
  datatype Node = Node(kind: NodeType, data: string, attrs: seq<Attribute>, children: seq<Node>)

  /** The three captured variables: title, metaDesc, canonical. */
  datatype Metadata = Metadata(title: string, description: string, canonical: string)

  const NoMetadata := Metadata("", "", "")

  /** Some attribute has exactly this key and value. */
  predicate HasAttribute(attrs: seq<Attribute>, key: string, val: string) {
    exists i | 0 <= i < |attrs| :: attrs[i].key == key && attrs[i].val == val
  }

  /** Some attribute has this key. */
  predicate HasKey(attrs: seq<Attribute>, key: string) {
    exists i | 0 <= i < |attrs| :: attrs[i].key == key
  }

  /** The value of the last attribute with this key, `dflt` when there is
      none. */
  function LastValue(attrs: seq<Attribute>, key: string, dflt: string): (r: string)
    ensures !HasKey(attrs, key) ==> r == dflt
    decreases |attrs|
  {
    if attrs == [] then dflt
    else if attrs[|attrs| - 1].key == key then attrs[|attrs| - 1].val
    else LastValue(attrs[..|attrs| - 1], key, dflt)
  }

  /** `v` is the value of an attribute with this key after which no
      attribute has the key. */
  predicate IsLastValue(attrs: seq<Attribute>, key: string, v: string) {
    exists i | 0 <= i < |attrs| :: attrs[i].key == key && attrs[i].val == v
                && forall j | i < j < |attrs| :: attrs[j].key != key
  }

  /** LastValue names the last attribute with the key: one with that key
      and that value exists, and none with the key comes after it. */
  lemma {:induction false} LastValueIsLast(attrs: seq<Attribute>, key: string, dflt: string)
    requires HasKey(attrs, key)
    ensures IsLastValue(attrs, key, LastValue(attrs, key, dflt))
    decreases |attrs|
  {
    var n := |attrs| - 1;
    if attrs[n].key == key {
      assert attrs[n].val == LastValue(attrs, key, dflt);
    } else {
      var prefix := attrs[..n];
      var k :| 0 <= k < |attrs| && attrs[k].key == key;
      assert prefix[k].key == key;
      LastValueIsLast(prefix, key, dflt);
      assert IsLastValue(prefix, key, LastValue(prefix, key, dflt));
      var i :| 0 <= i < n && prefix[i].key == key && prefix[i].val == LastValue(prefix, key, dflt)
                && forall j | i < j < n :: prefix[j].key != key;
      assert attrs[i] == prefix[i];
      assert forall j | i < j < |attrs| :: attrs[j].key != key by {
        forall j | i < j < |attrs| ensures attrs[j].key != key {
          if j < n { assert attrs[j] == prefix[j]; }
        }
      }
    }
  }

  lemma LastValueFound(attrs: seq<Attribute>, key: string, dflt: string)
    ensures HasKey(attrs, key) ==> IsLastValue(attrs, key, LastValue(attrs, key, dflt))
  {
    if HasKey(attrs, key) {
      LastValueIsLast(attrs, key, dflt);
    }
  }

  /** When a key is present the default is irrelevant. */
  lemma {:induction false} LastValueDefault(attrs: seq<Attribute>, key: string, d1: string, d2: string)
    requires HasKey(attrs, key)
    ensures LastValue(attrs, key, d1) == LastValue(attrs, key, d2)
    decreases |attrs|
  {
    var n := |attrs| - 1;
    if attrs[n].key != key {
      var k :| 0 <= k < |attrs| && attrs[k].key == key;
      assert attrs[..n][k].key == key;
      LastValueDefault(attrs[..n], key, d1, d2);
    }
  }

  /** Neither the first nor the last character is white space. */
  predicate Trimmed(s: string) {
    s != [] ==> !IsSpace(s[0]) && !IsSpace(s[|s| - 1])
  }

  /** What an element does to `title`: a `<title>` with a first child gives
      that child's trimmed data; a childless `<title>` changes nothing. */
  function TitleOf(n: Node): (r: Option<string>)
    ensures r.Some? <==> n.kind == ElementNode && n.data == "title" && |n.children| > 0
    ensures r.Some? ==> Trimmed(r.value) && exists k :: IsTrimmedSlice(n.children[0].data, r.value, k)
  {
    if n.kind == ElementNode && n.data == "title" && |n.children| > 0
    then Some(TrimSpace(n.children[0].data))
    else None
  }

  /** What an element does to `metaDesc`: a `<meta>` with
      `name="description"` gives its last `content` value, or "" when it
      has none. */
  function DescriptionOf(n: Node): (r: Option<string>)
    ensures r.Some? <==> n.kind == ElementNode && n.data == "meta" && HasAttribute(n.attrs, "name", "description")
    ensures r.Some? && !HasKey(n.attrs, "content") ==> r.value == ""
    ensures r.Some? && HasKey(n.attrs, "content") ==> IsLastValue(n.attrs, "content", r.value)
  {
    if n.kind == ElementNode && n.data == "meta" && HasAttribute(n.attrs, "name", "description")
    then LastValueFound(n.attrs, "content", ""); Some(LastValue(n.attrs, "content", ""))
    else None
  }

  /** What an element does to `canonical`: a `<link>` with `rel` exactly
      "canonical" gives its last `href` value; without an `href` it changes
      nothing. */
  function CanonicalOf(n: Node): (r: Option<string>)
    ensures r.Some? <==> n.kind == ElementNode && n.data == "link" && HasAttribute(n.attrs, "rel", "canonical")
                         && HasKey(n.attrs, "href")
    ensures r.Some? ==> IsLastValue(n.attrs, "href", r.value)
  {
    if n.kind == ElementNode && n.data == "link" && HasAttribute(n.attrs, "rel", "canonical") && HasKey(n.attrs, "href")
    then LastValueFound(n.attrs, "href", ""); Some(LastValue(n.attrs, "href", ""))
    else None
  }

  function Override(current: string, update: Option<string>): string {
    if update.Some? then update.value else current
  }

  /** The effect of visiting one node on the captured variables: only an
      element changes anything, a field changes only to the value its own
      update gives, and a node whose update gives a value sets that field
      to it. A trimmed title stays trimmed. */
  function Visit(n: Node, m: Metadata): (r: Metadata)
    ensures n.kind != ElementNode ==> r == m
    ensures r.title != m.title ==> TitleOf(n) == Some(r.title)
    ensures r.description != m.description ==> DescriptionOf(n) == Some(r.description)
    ensures r.canonical != m.canonical ==> CanonicalOf(n) == Some(r.canonical)
    ensures TitleOf(n).Some? ==> r.title == TitleOf(n).value
    ensures DescriptionOf(n).Some? ==> r.description == DescriptionOf(n).value
    ensures CanonicalOf(n).Some? ==> r.canonical == CanonicalOf(n).value
    ensures r.title == m.title || Trimmed(r.title)
  {
    Metadata(Override(m.title, TitleOf(n)), Override(m.description, DescriptionOf(n)),
             Override(m.canonical, CanonicalOf(n)))
  }

  /** `walk(n)`: visit `n`, then walk its children left to right. */
  function WalkNode(n: Node, m: Metadata): (r: Metadata)
    ensures r.title == m.title || Trimmed(r.title)
    decreases n, |n.children| + 1
  {
    WalkChildren(n, |n.children|, Visit(n, m))
  }

  /** Walking the first `k` children of `n`, in order. */
  function WalkChildren(n: Node, k: nat, m: Metadata): (r: Metadata)
    requires k <= |n.children|
    ensures r.title == m.title || Trimmed(r.title)
    decreases n, k
  {
    if k == 0 then m else WalkNode(n.children[k - 1], WalkChildren(n, k - 1, m))
  }

  /** The nodes of the tree in pre-order: a node, then its children's
      subtrees left to right. */
  function Preorder(n: Node): seq<Node>
    decreases n, |n.children| + 1
  {
    [n] + PreorderChildren(n, |n.children|)
  }

  function PreorderChildren(n: Node, k: nat): seq<Node>
    requires k <= |n.children|
    decreases n, k
  {
    if k == 0 then [] else PreorderChildren(n, k - 1) + Preorder(n.children[k - 1])
  }

  /** Visiting a sequence of nodes in order. */
  function VisitAll(s: seq<Node>, m: Metadata): Metadata
    decreases |s|
  {
    if s == [] then m else Visit(s[|s| - 1], VisitAll(s[..|s| - 1], m))
  }

  lemma {:induction false} VisitAllAppend(a: seq<Node>, b: seq<Node>, m: Metadata)
    ensures VisitAll(a + b, m) == VisitAll(b, VisitAll(a, m))
    decreases |b|
  {
    if b == [] {
      assert a + b == a;
    } else {
      var n := |b| - 1;
      assert (a + b)[..|a + b| - 1] == a + b[..n];
      assert (a + b)[|a + b| - 1] == b[n];
      VisitAllAppend(a, b[..n], m);
    }
  }

  /** The walk is a visit of the pre-order sequence. */
  lemma {:induction false} WalkIsPreorder(n: Node, m: Metadata)
    ensures WalkNode(n, m) == VisitAll(Preorder(n), m)
    decreases n, |n.children| + 1
  {
    WalkChildrenIsPreorder(n, |n.children|, Visit(n, m));
    VisitAllAppend([n], PreorderChildren(n, |n.children|), m);
    assert [n][..0] == [];
  }

  lemma {:induction false} WalkChildrenIsPreorder(n: Node, k: nat, m: Metadata)
    requires k <= |n.children|
    ensures WalkChildren(n, k, m) == VisitAll(PreorderChildren(n, k), m)
    decreases n, k
  {
    if k > 0 {
      var c := n.children[k - 1];
      var before := WalkChildren(n, k - 1, m);
      var pre := PreorderChildren(n, k - 1);
      assert WalkChildren(n, k, m) == WalkNode(c, before) by {
        WalkChildrenStep(n, k - 1, m);
      }
      assert WalkNode(c, before) == VisitAll(Preorder(c), VisitAll(pre, m)) by {
        WalkChildrenIsPreorder(n, k - 1, m);
        WalkIsPreorder(c, before);
      }
      assert VisitAll(Preorder(c), VisitAll(pre, m)) == VisitAll(PreorderChildren(n, k), m) by {
        VisitAllAppend(pre, Preorder(c), m);
        assert PreorderChildren(n, k) == pre + Preorder(c);
      }
    }
  }

  /** The value the last node with an update gives a field, `init` when no
      node updates it. */
  function Latest(s: seq<Node>, f: Node -> Option<string>, init: string): string
    decreases |s|
  {
    if s == [] then init
    else if f(s[|s| - 1]).Some? then f(s[|s| - 1]).value
    else Latest(s[..|s| - 1], f, init)
  }

  /** Visiting a sequence updates each field independently: to the value of
      the last node that updates it. */
  lemma {:induction false} VisitAllFields(s: seq<Node>, m: Metadata)
    ensures VisitAll(s, m) == Metadata(Latest(s, TitleOf, m.title), Latest(s, DescriptionOf, m.description),
                                       Latest(s, CanonicalOf, m.canonical))
    decreases |s|
  {
    if s != [] {
      VisitAllFields(s[..|s| - 1], m);
    }
  }

  /** With no matching node, Latest keeps the initial value. */
  lemma {:induction false} LatestNoMatch(s: seq<Node>, f: Node -> Option<string>, init: string)
    requires forall i | 0 <= i < |s| :: f(s[i]).None?
    ensures Latest(s, f, init) == init
    decreases |s|
  {
    if s != [] {
      var n := |s| - 1;
      assert forall i | 0 <= i < n :: s[..n][i] == s[i];
      LatestNoMatch(s[..n], f, init);
    }
  }

  /** Latest is the last match: when some node matches, the value comes from
      a matching node after which no node matches. */
  lemma {:induction false} LatestIsLastMatch(s: seq<Node>, f: Node -> Option<string>, init: string, k: nat)
    requires k < |s| && f(s[k]).Some?
    ensures exists i | 0 <= i < |s| :: f(s[i]).Some? && Latest(s, f, init) == f(s[i]).value
                                     && forall j | i < j < |s| :: f(s[j]).None?
    decreases |s|
  {
    var n := |s| - 1;
    if f(s[n]).Some? {
      assert Latest(s, f, init) == f(s[n]).value;
    } else {
      var prefix := s[..n];
      assert k < n && prefix[k] == s[k];
      LatestIsLastMatch(prefix, f, init, k);
      var i :| 0 <= i < n && f(prefix[i]).Some? && Latest(prefix, f, init) == f(prefix[i]).value
                && forall j | i < j < n :: f(prefix[j]).None?;
      assert prefix[i] == s[i];
      assert Latest(s, f, init) == Latest(prefix, f, init);
      assert forall j | i < j < |s| :: f(s[j]).None? by {
        forall j | i < j < |s| ensures f(s[j]).None? {
          if j < n { assert prefix[j] == s[j]; }
        }
      }
    }
  }

  /** What `parseHTML` returns for a parse outcome: all empty on a parse
      error, otherwise the walk of the document from empty fields. */
  function ExtractMetadata(doc: Option<Node>): (r: Metadata)
    ensures Trimmed(r.title)
  {
    if doc.None? then NoMetadata else WalkNode(doc.value, NoMetadata)
  }

  /** Each field of the extracted metadata holds the value of the last
      matching element in pre-order, or "" when no element matches. */
  lemma ExtractIsLastMatch(doc: Node)
    ensures ExtractMetadata(Some(doc)) == Metadata(Latest(Preorder(doc), TitleOf, ""),
      Latest(Preorder(doc), DescriptionOf, ""), Latest(Preorder(doc), CanonicalOf, ""))
  {
    WalkIsPreorder(doc, NoMetadata);
    VisitAllFields(Preorder(doc), NoMetadata);
  }

  /** A document without a matching element yields three empty fields. */
  lemma NoMatchesNoMetadata(doc: Node)
    requires forall i | 0 <= i < |Preorder(doc)| ::
      TitleOf(Preorder(doc)[i]).None? && DescriptionOf(Preorder(doc)[i]).None? && CanonicalOf(Preorder(doc)[i]).None?
    ensures ExtractMetadata(Some(doc)) == NoMetadata
  {
    ExtractIsLastMatch(doc);
    LatestNoMatch(Preorder(doc), TitleOf, "");
    LatestNoMatch(Preorder(doc), DescriptionOf, "");
    LatestNoMatch(Preorder(doc), CanonicalOf, "");
  }

  /** The `meta` case: scan the attributes, remembering whether one is
      `name="description"` and the last `content` value. */
  method ScanMeta(attrs: seq<Attribute>) returns (name: string, content: string)
    ensures name == "description" <==> HasAttribute(attrs, "name", "description")
    ensures content == LastValue(attrs, "content", "")
  {
    name, content := "", "";
    for i := 0 to |attrs|
      invariant name == if HasAttribute(attrs[..i], "name", "description") then "description" else ""
      invariant content == LastValue(attrs[..i], "content", "")
    {
      assert attrs[..i + 1][..i] == attrs[..i];
      AttributeStep(attrs, i, "name", "description");
      var a := attrs[i];
      if a.key == "name" && a.val == "description" {
        name := a.val;
      }
      if a.key == "content" {
        content := a.val;
      }
    }
    assert attrs[..|attrs|] == attrs;
  }

  /** The inner loop of the `link` case: every `href` overwrites
      `canonical`. */
  method ScanHref(attrs: seq<Attribute>, canonical: string) returns (r: string)
    ensures r == LastValue(attrs, "href", canonical)
  {
    r := canonical;
    for j := 0 to |attrs|
      invariant r == LastValue(attrs[..j], "href", canonical)
    {
      assert attrs[..j + 1][..j] == attrs[..j];
      if attrs[j].key == "href" {
        r := attrs[j].val;
      }
    }
    assert attrs[..|attrs|] == attrs;
  }

  /** The `link` case: for every `rel="canonical"` attribute, rescan all
      attributes for `href`. */
  method ScanLink(attrs: seq<Attribute>, canonical: string) returns (r: string)
    ensures r == Override(canonical, if HasAttribute(attrs, "rel", "canonical") && HasKey(attrs, "href")
                                     then Some(LastValue(attrs, "href", "")) else None)
  {
    r := canonical;
    for i := 0 to |attrs|
      invariant r == if HasAttribute(attrs[..i], "rel", "canonical") then LastValue(attrs, "href", canonical) else canonical
    {
      AttributeStep(attrs, i, "rel", "canonical");
      if attrs[i].key == "rel" && attrs[i].val == "canonical" {
        var before := r;
        r := ScanHref(attrs, r);
        if HasKey(attrs, "href") {
          LastValueDefault(attrs, "href", before, canonical);
        }
      }
    }
    assert attrs[..|attrs|] == attrs;
    if HasKey(attrs, "href") {
      LastValueDefault(attrs, "href", canonical, "");
    }
  }

  /** The visit of one node: the `switch` on the element's tag, overwriting
      the captured fields. */
  method VisitElement(n: Node, m: Metadata) returns (r: Metadata)
    ensures r == Visit(n, m)
  {
    r := m;
    if n.kind != ElementNode {
      return;
    }
    if n.data == "title" {
      assert DescriptionOf(n).None? && CanonicalOf(n).None?;
      if |n.children| > 0 {
        r := r.(title := TrimSpace(n.children[0].data));
      }
    } else if n.data == "meta" {
      assert TitleOf(n).None? && CanonicalOf(n).None?;
      var name, content := ScanMeta(n.attrs);
      if name == "description" {
        r := r.(description := content);
      }
    } else if n.data == "link" {
      assert TitleOf(n).None? && DescriptionOf(n).None?;
      var canonical := ScanLink(n.attrs, r.canonical);
      r := r.(canonical := canonical);
    }
  }

  /** The imperative walk: visit `n`, then walk its children in order. */
  method Walk(n: Node, m: Metadata) returns (r: Metadata)
    ensures r == WalkNode(n, m)
    decreases n, 1
  {
    var start := VisitElement(n, m);
    r := WalkAllChildren(n, start);
    WalkNodeStep(n, m);
  }

  /** The `for c := n.FirstChild; c != nil; c = c.NextSibling` loop. */
  method WalkAllChildren(n: Node, start: Metadata) returns (r: Metadata)
    ensures r == WalkChildren(n, |n.children|, start)
    decreases n, 0
  {
    r := start;
    for i := 0 to |n.children|
      invariant r == WalkChildren(n, i, start)
    {
      WalkChildrenStep(n, i, start);
      r := Walk(n.children[i], r);
    }
  }

  /** Walking one more child. */
  lemma WalkChildrenStep(n: Node, i: nat, m: Metadata)
    requires i < |n.children|
    ensures WalkChildren(n, i + 1, m) == WalkNode(n.children[i], WalkChildren(n, i, m))
  {
  }

  /** A walk is the visit followed by the walk of all children. */
  lemma WalkNodeStep(n: Node, m: Metadata)
    ensures WalkNode(n, m) == WalkChildren(n, |n.children|, Visit(n, m))
  {
  }

  /** One more attribute scanned: HasAttribute on the longer prefix. */
  lemma AttributeStep(attrs: seq<Attribute>, i: nat, key: string, val: string)
    requires i < |attrs|
    ensures HasAttribute(attrs[..i + 1], key, val)
        <==> HasAttribute(attrs[..i], key, val) || (attrs[i].key == key && attrs[i].val == val)
  {
    assert forall j | 0 <= j < i :: attrs[..i + 1][j] == attrs[..i][j];
    assert attrs[..i + 1][i] == attrs[i];
  }

  /** `parseHTML`: a parse error gives three empty strings, otherwise the
      walk starts from three empty strings. */
  method ParseHTML(parse: Bytes -> Option<Node>, body: Bytes) returns (r: Metadata)
    ensures r == ExtractMetadata(parse(body))
  {
    var doc := parse(body);
    if doc.None? {
      return NoMetadata;
    }
    r := Walk(doc.value, NoMetadata);
  }

  /** A small page with a title, a description and a canonical link. */
  const ExampleTitle := Node(ElementNode, "title", [], [Node(TextNode, " Example ", [], [])])
  const ExampleMeta := Node(ElementNode, "meta", [Attribute("name", "description"), Attribute("content", "desc")], [])
  const ExampleLink := Node(ElementNode, "link", [Attribute("rel", "canonical"), Attribute("href", "https://x/y")], [])
  const ExampleHead := Node(ElementNode, "head", [], [ExampleTitle, ExampleMeta, ExampleLink])
  const ExamplePage := Node(DocumentNode, "", [], [Node(ElementNode, "html", [], [ExampleHead])])

  /** A leaf that is not an element (text, comment, ...) changes nothing. */
  lemma LeafVisit(n: Node, m: Metadata)
    requires n.kind != ElementNode && n.children == []
    ensures WalkNode(n, m) == m
  {
  }

  /** A `<title>` whose only child is a text leaf sets the title to that
      text, trimmed. */
  lemma TitleVisit(t: Node, m: Metadata)
    requires t.kind == ElementNode && t.data == "title" && |t.children| == 1
    requires t.children[0].kind == TextNode && t.children[0].children == []
    ensures WalkNode(t, m) == m.(title := TrimSpace(t.children[0].data))
  {
    var m1 := m.(title := TrimSpace(t.children[0].data));
    assert Visit(t, m) == m1;
    LeafVisit(t.children[0], m1);
    assert WalkChildren(t, 1, m1) == m1;
  }

  lemma ExampleTitleVisit(m: Metadata)
    ensures WalkNode(ExampleTitle, m) == m.(title := "Example")
  {
    assert IsSpace(' ') && !IsSpace('E') && !IsSpace('e');
    assert " Example " == " " + "Example" + " ";
    TrimSpacePadded(" ", "Example", " ");
    TitleVisit(ExampleTitle, m);
  }

  lemma ExampleMetaVisit(m: Metadata)
    ensures WalkNode(ExampleMeta, m) == m.(description := "desc")
  {
    assert ExampleMeta.attrs[0].key == "name";
    assert HasAttribute(ExampleMeta.attrs, "name", "description");
    assert LastValue(ExampleMeta.attrs, "content", "") == "desc";
  }

  lemma ExampleLinkVisit(m: Metadata)
    ensures WalkNode(ExampleLink, m) == m.(canonical := "https://x/y")
  {
    assert ExampleLink.attrs[0].key == "rel";
    assert ExampleLink.attrs[1].key == "href";
    assert HasAttribute(ExampleLink.attrs, "rel", "canonical");
    assert LastValue(ExampleLink.attrs, "href", "") == "https://x/y";
  }

  /** An element that is neither `title`, `meta` nor `link` changes nothing. */
  lemma OtherElementVisit(n: Node, m: Metadata)
    requires n.data != "title" && n.data != "meta" && n.data != "link"
    ensures Visit(n, m) == m
  {
  }

  lemma ExampleHeadWalk()
    ensures WalkNode(ExampleHead, NoMetadata) == Metadata("Example", "desc", "https://x/y")
  {
    var m0 := NoMetadata;
    var m1 := Metadata("Example", "", "");
    var m2 := Metadata("Example", "desc", "");
    var m3 := Metadata("Example", "desc", "https://x/y");
    OtherElementVisit(ExampleHead, m0);
    ExampleTitleVisit(m0);
    ExampleMetaVisit(m1);
    ExampleLinkVisit(m2);
    assert WalkChildren(ExampleHead, 1, m0) == m1;
    assert WalkChildren(ExampleHead, 2, m0) == m2;
    assert WalkChildren(ExampleHead, 3, m0) == m3;
  }

  /** The extractor returns the title trimmed, the description and the
      canonical URL of that page. */
  lemma ExamplePageMetadata()
    ensures ExtractMetadata(Some(ExamplePage)) == Metadata("Example", "desc", "https://x/y")
  {
    var m0 := NoMetadata;
    var m3 := Metadata("Example", "desc", "https://x/y");
    var html := ExamplePage.children[0];
    ExampleHeadWalk();
    OtherElementVisit(html, m0);
    assert WalkChildren(html, 1, m0) == m3;
    assert WalkNode(html, m0) == m3;
    OtherElementVisit(ExamplePage, m0);
    assert WalkChildren(ExamplePage, 1, m0) == m3;
  }
}
