/**
 The decision logic of the HumbleBundle search-buttons userscript, over an
 abstract page. A page is the list of product-title headings the script's
 selector finds, in document order. For each heading the script derives a
 search query (enriched with the author on book bundles), attaches a cluster
 of actions next to it (copy, Google search, and Steam search on game
 bundles) and marks it processed so that later passes leave it alone.
 */
module SearchButtons {

  import opened Options
  import opened Strings
  import opened Uri

  const GoogleSearchBaseUrl: string := "https://www.google.com/search?q="
  const SteamSearchBaseUrl: string := "https://store.steampowered.com/search/?term="

  /** The label that marks the publishers-and-developers block naming a
      book's author. */
  const AuthorLabel: string := "Author:"

  // ---------------------------------------------------------------------
  // Page context

  /** The two flags the script computes once, from the page's path, when it
      loads. */
  datatype PageContext = PageContext(isGamesBundle: bool, isBooksBundle: bool)

  /** The page flags of a location path: a games bundle when the path
      contains `/games/`, a books bundle when it contains `/books/`. */
  function ContextOf(pathname: string): (ctx: PageContext)
    ensures ctx.isGamesBundle <==> exists i :: OccursAt(pathname, "/games/", i)
    ensures ctx.isBooksBundle <==> exists i :: OccursAt(pathname, "/books/", i)
  {
    PageContext(Includes(pathname, "/games/"), Includes(pathname, "/books/"))
  }

  // ---------------------------------------------------------------------
  // Headings

  /** A `.publishers-and-developers` block of a details view: its whole text
      content, and the text content of its first `span`, if it has one. */
  datatype Block = Block(text: string, span: Option<string>)

  /** One action the script puts next to a heading. */
  datatype Action =
    | CopyButton(copies: string, tooltip: string)
    | GoogleLink(href: string, tooltip: string)
    | SteamLink(href: string, tooltip: string)

  /** The actions of one wrapper, in the order they follow the heading. */
  type Cluster = seq<Action>

  /** A product-title heading: its text content; the publishers-and-developers
      blocks of its enclosing `.tier-item-details-view`, or `None` when it has
      no such ancestor; whether it carries the processed marker; and the
      action clusters attached to it so far, oldest first. */
  datatype Heading = Heading(
    text: string,
    detailsView: Option<seq<Block>>,
    processed: bool,
    clusters: seq<Cluster>)

  // ---------------------------------------------------------------------
  // Author lookup

  /** A block the author lookup accepts: its trimmed text starts with the
      author label and it has a span to read the name from. */
  predicate IsAuthorBlock(b: Block)
  {
    StartsWith(Trim(b.text), AuthorLabel) && b.span.Some?
  }

  /** `xs[i]` is the first element of `xs` that `accept` holds of. */
  predicate FirstAccepted<T>(xs: seq<T>, accept: T -> bool, i: int)
  {
    && 0 <= i < |xs|
    && accept(xs[i])
    && forall j :: 0 <= j < i ==> !accept(xs[j])
  }

  /** `blocks[i]` is the first block the author lookup accepts. */
  predicate FirstAuthorBlock(blocks: seq<Block>, i: int)
  {
    FirstAccepted(blocks, IsAuthorBlock, i)
  }

  /** The scan of `getAuthor` over the blocks of a details view, in
      document order: the trimmed span text of the first accepted block. A
      labelled block without a span is passed over. */
  function FindAuthor(blocks: seq<Block>): (r: Option<string>)
    ensures r.None? <==> forall i :: 0 <= i < |blocks| ==> !IsAuthorBlock(blocks[i])
    ensures r.Some? ==> exists i :: FirstAuthorBlock(blocks, i) && r.value == Trim(blocks[i].span.value)
  {
    if blocks == [] then None
    else
      var b := blocks[0];
      if StartsWith(Trim(b.text), AuthorLabel) && b.span.Some? then
        assert FirstAuthorBlock(blocks, 0);
        Some(Trim(b.span.value))
      else
        var r := FindAuthor(blocks[1..]);
        if r.Some? then
          var k :| FirstAuthorBlock(blocks[1..], k) && r.value == Trim(blocks[1..][k].span.value);
          FirstPastFirst(blocks, IsAuthorBlock, k);
          r
        else
          NonePastFirst(blocks, IsAuthorBlock);
          r
  }

  /** The first accepted element past a rejected first element is the
      first accepted element of the whole sequence. */
  lemma FirstPastFirst<T>(xs: seq<T>, accept: T -> bool, k: int)
    requires xs != [] && !accept(xs[0])
    requires FirstAccepted(xs[1..], accept, k)
    ensures FirstAccepted(xs, accept, k + 1) && xs[k + 1] == xs[1..][k]
  {
    forall j | 0 <= j < k + 1
      ensures !accept(xs[j])
    {
      if j > 0 { assert xs[j] == xs[1..][j - 1]; }
    }
  }

  /** With the first element rejected and none of the rest accepted, no
      element is accepted. */
  lemma NonePastFirst<T>(xs: seq<T>, accept: T -> bool)
    requires xs != [] && !accept(xs[0])
    requires forall i :: 0 <= i < |xs| - 1 ==> !accept(xs[1..][i])
    ensures forall i :: 0 <= i < |xs| ==> !accept(xs[i])
  {
    forall j | 0 <= j < |xs|
      ensures !accept(xs[j])
    {
      if j > 0 { assert xs[j] == xs[1..][j - 1]; }
    }
  }

  /** `a` is the author `getAuthor` reports for `h`: the trimmed span text
      of the first accepted block of its details view. */
  ghost predicate AuthorOf(h: Heading, a: string)
  {
    && h.detailsView.Some?
    && exists i :: FirstAuthorBlock(h.detailsView.value, i)
                   && Trim(h.detailsView.value[i].span.value) == a
  }

  /** The first accepted block is unique, so a heading has at most one
      author. */
  lemma AuthorUnique(h: Heading, a: string, a': string)
    requires AuthorOf(h, a) && AuthorOf(h, a')
    ensures a == a'
  {
    var blocks := h.detailsView.value;
    var i :| FirstAuthorBlock(blocks, i) && Trim(blocks[i].span.value) == a;
    var i' :| FirstAuthorBlock(blocks, i') && Trim(blocks[i'].span.value) == a';
    FirstAcceptedUnique(blocks, IsAuthorBlock, i, i');
  }

  /** Two first accepted elements are the same element. */
  lemma FirstAcceptedUnique<T>(xs: seq<T>, accept: T -> bool, i: int, i': int)
    requires FirstAccepted(xs, accept, i) && FirstAccepted(xs, accept, i')
    ensures i == i'
  {
    assert !(i < i') && !(i' < i);
  }

  /** `getAuthor(h2)`: `None` (JavaScript `null`) when the heading has no
      details view or no block of it is accepted, and otherwise the author
      of the first accepted block, which may be the empty string. */
  function GetAuthor(h: Heading): (r: Option<string>)
    ensures r.Some? <==> exists a :: AuthorOf(h, a)
    ensures forall a :: AuthorOf(h, a) ==> r == Some(a)
  {
    match h.detailsView
    case None => None
    case Some(blocks) =>
      var r := FindAuthor(blocks);
      FoundAuthorIsAuthorOf(h, r);
      r
  }

  /** What the scan finds over a heading's details view is its author. */
  lemma FoundAuthorIsAuthorOf(h: Heading, r: Option<string>)
    requires h.detailsView.Some? && r == FindAuthor(h.detailsView.value)
    ensures r.Some? <==> exists a :: AuthorOf(h, a)
    ensures forall a :: AuthorOf(h, a) ==> r == Some(a)
  {
    var blocks := h.detailsView.value;
    if r.Some? {
      assert AuthorOf(h, r.value);
      forall a | AuthorOf(h, a) ensures r == Some(a) {
        AuthorUnique(h, a, r.value);
      }
    }
  }

  // ---------------------------------------------------------------------
  // Query and action cluster

  /** The text the script uses as the product title: the heading's trimmed
      text content. */
  function Title(h: Heading): string
  {
    Trim(h.text)
  }

  /** The Google query for a heading. Outside book bundles it is the title.
      On book bundles it is `<title> BY <author>` when the lookup finds a
      non-empty author, and `<title> book` otherwise; an accepted block whose
      span text trims to nothing counts as no author, because the empty
      string is false in JavaScript. */
  function GoogleQuery(ctx: PageContext, h: Heading): (q: string)
    ensures !ctx.isBooksBundle ==> q == Title(h)
    ensures ctx.isBooksBundle ==>
              forall a :: AuthorOf(h, a) && a != [] ==> q == Title(h) + " BY " + a
    ensures ctx.isBooksBundle && (forall a :: AuthorOf(h, a) ==> a == []) ==>
              q == Title(h) + " book"
  {
    var title := Title(h);
    if ctx.isBooksBundle then
      var author := GetAuthor(h);
      if author.Some? && author.value != [] then title + " BY " + author.value
      else title + " book"
    else
      title
  }

  /** The value of the single query parameter at the end of a URL: what
      follows `base`, up to the first `&` or `#`, decoded; `None` when the
      URL does not start with `base` or the value does not decode. */
  function SearchTerm(url: string, base: string): Option<string>
  {
    if StartsWith(url, base) then DecodeUriComponent(ParameterValue(url[|base|..]))
    else None
  }

  /** The longest prefix of `s` that holds no `&` and no `#`. */
  function ParameterValue(s: string): (v: string)
    ensures |v| <= |s| && v == s[..|v|]
    ensures forall i :: 0 <= i < |v| ==> v[i] != '&' && v[i] != '#'
    ensures |v| < |s| ==> s[|v|] == '&' || s[|v|] == '#'
  {
    if s == [] || s[0] == '&' || s[0] == '#' then []
    else [s[0]] + ParameterValue(s[1..])
  }

  /** An encoded term never holds a parameter delimiter, so the parameter
      value of `base + EncodeUriComponent(term)` is the whole encoded term
      and decodes back to `term`. */
  lemma SearchTermOfEncoded(base: string, term: string)
    ensures SearchTerm(base + EncodeUriComponent(term), base) == Some(term)
  {
    var e := EncodeUriComponent(term);
    var url := base + e;
    assert url[..|base|] == base;
    assert url[|base|..] == e;
    ParameterValueOfSafe(e);
    DecodeEncode(term);
  }

  /** A string without delimiters is a whole parameter value. */
  lemma {:induction false} ParameterValueOfSafe(s: string)
    requires IsUriSafe(s)
    ensures ParameterValue(s) == s
  {
    if s != [] {
      assert IsUnreserved(s[0]) || s[0] == '%';
      assert IsUriSafe(s[1..]) by {
        forall i | 0 <= i < |s| - 1 ensures IsUnreserved(s[1..][i]) || s[1..][i] == '%' {
          assert s[1..][i] == s[i + 1];
        }
      }
      ParameterValueOfSafe(s[1..]);
      assert [s[0]] + s[1..] == s;
    }
  }

  /** The Google search URL for a query: the Google base URL followed by
      a delimiter-free encoding of the query, which decodes back to it. */
  function GoogleUrl(query: string): (url: string)
    ensures StartsWith(url, GoogleSearchBaseUrl) && IsUriSafe(url[|GoogleSearchBaseUrl|..])
    ensures SearchTerm(url, GoogleSearchBaseUrl) == Some(query)
  {
    var url := GoogleSearchBaseUrl + EncodeUriComponent(query);
    assert url[|GoogleSearchBaseUrl|..] == EncodeUriComponent(query);
    SearchTermOfEncoded(GoogleSearchBaseUrl, query);
    url
  }

  /** The Steam store search URL for a term: the Steam base URL followed
      by a delimiter-free encoding of the term, which decodes back to it. */
  function SteamUrl(term: string): (url: string)
    ensures StartsWith(url, SteamSearchBaseUrl) && IsUriSafe(url[|SteamSearchBaseUrl|..])
    ensures SearchTerm(url, SteamSearchBaseUrl) == Some(term)
  {
    var url := SteamSearchBaseUrl + EncodeUriComponent(term);
    assert url[|SteamSearchBaseUrl|..] == EncodeUriComponent(term);
    SearchTermOfEncoded(SteamSearchBaseUrl, term);
    url
  }

  /** The actions `createActionElements` attaches to one heading, in order:
      copy, Google, and Steam on game bundles only. */
  function ClusterFor(ctx: PageContext, h: Heading): (c: Cluster)
    ensures |c| == if ctx.isGamesBundle then 3 else 2
    ensures c[0].CopyButton? && c[1].GoogleLink?
    ensures c[0].copies == Title(h)
    ensures c[1].href == GoogleUrl(GoogleQuery(ctx, h))
    ensures SearchTerm(c[1].href, GoogleSearchBaseUrl) == Some(GoogleQuery(ctx, h))
    ensures ctx.isGamesBundle ==>
              c[2].SteamLink? && c[2].href == SteamUrl(Title(h))
              && SearchTerm(c[2].href, SteamSearchBaseUrl) == Some(Title(h))
  {
    var title := Title(h);
    var query := GoogleQuery(ctx, h);
    var copy := CopyButton(title, "Copy Name: " + title);
    var google := GoogleLink(GoogleUrl(query), "Google Search for: " + query);
    if ctx.isGamesBundle then
      [copy, google, SteamLink(SteamUrl(title), "Search Steam")]
    else
      [copy, google]
  }

  /** A cluster has a Steam link exactly on game bundles. */
  lemma SteamLinkIffGames(ctx: PageContext, h: Heading)
    ensures (exists i :: 0 <= i < |ClusterFor(ctx, h)| && ClusterFor(ctx, h)[i].SteamLink?)
            <==> ctx.isGamesBundle
  {
    var c := ClusterFor(ctx, h);
    if ctx.isGamesBundle {
      assert c[2].SteamLink?;
    } else {
      forall i | 0 <= i < |c| ensures !c[i].SteamLink? {
        assert i == 0 || i == 1;
      }
    }
  }

  // ---------------------------------------------------------------------
  // The augmentation pass

  /** A heading the next pass will augment: not yet processed, and with a
      title that is not empty. */
  predicate NeedsCluster(h: Heading)
  {
    !h.processed && Title(h) != []
  }

  /** The body of the `forEach` in `createActionElements`, for one heading.
      A processed heading is left alone, and so is one whose title is empty
      (it is neither augmented nor marked). Any other heading gets one more
      cluster and the processed marker. Its text and details view are never
      changed. */
  function Visit(ctx: PageContext, h: Heading): (r: Heading)
    ensures r.text == h.text && r.detailsView == h.detailsView
    ensures r.processed <==> h.processed || Title(h) != []
    ensures NeedsCluster(h) ==> r.clusters == h.clusters + [ClusterFor(ctx, h)]
    ensures !NeedsCluster(h) ==> r == h
  {
    if h.processed then h
    else
      var title := Title(h);
      if |title| > 0 then
        h.(processed := true, clusters := h.clusters + [ClusterFor(ctx, h)])
      else
        h
  }

  /** `createActionElements()`: visits every heading of the page in
      document order. */
  function CreateActionElements(ctx: PageContext, page: seq<Heading>): (r: seq<Heading>)
    ensures |r| == |page|
    ensures forall i :: 0 <= i < |page| ==> r[i] == Visit(ctx, page[i])
  {
    if page == [] then []
    else [Visit(ctx, page[0])] + CreateActionElements(ctx, page[1..])
  }

  /** The page after `n` notifications of the mutation observer, each of
      which runs the whole pass again. */
  function Observe(ctx: PageContext, page: seq<Heading>, n: nat): (r: seq<Heading>)
    ensures |r| == |page|
    ensures forall i :: 0 <= i < |page| ==>
              r[i].text == page[i].text && r[i].detailsView == page[i].detailsView
    decreases n
  {
    if n == 0 then page else Observe(ctx, CreateActionElements(ctx, page), n - 1)
  }

  /** The number of clusters attached to the headings of a page. */
  function ClusterCount(page: seq<Heading>): nat
  {
    if page == [] then 0 else |page[0].clusters| + ClusterCount(page[1..])
  }

  /** The number of headings the next pass will augment. */
  function PendingCount(page: seq<Heading>): nat
  {
    if page == [] then 0 else (if NeedsCluster(page[0]) then 1 else 0) + PendingCount(page[1..])
  }

  // ---------------------------------------------------------------------
  // Properties of the pass

  /** Visiting a visited heading changes nothing. */
  lemma VisitIdempotent(ctx: PageContext, h: Heading)
    ensures Visit(ctx, Visit(ctx, h)) == Visit(ctx, h)
  {
  }

  /** A second pass changes nothing: every heading the first pass could
      augment is marked processed by it. */
  lemma {:induction false} PassIdempotent(ctx: PageContext, page: seq<Heading>)
    ensures CreateActionElements(ctx, CreateActionElements(ctx, page))
            == CreateActionElements(ctx, page)
  {
    var once := CreateActionElements(ctx, page);
    var twice := CreateActionElements(ctx, once);
    forall i | 0 <= i < |page|
      ensures twice[i] == once[i]
    {
      VisitIdempotent(ctx, page[i]);
    }
  }

  /** However many times the observer fires after the first pass, the page
      stays as the first pass left it. */
  lemma {:induction false} ObserveConverges(ctx: PageContext, page: seq<Heading>, n: nat)
    requires n >= 1
    ensures Observe(ctx, page, n) == CreateActionElements(ctx, page)
    decreases n
  {
    var once := CreateActionElements(ctx, page);
    if n > 1 {
      ObserveConverges(ctx, once, n - 1);
      PassIdempotent(ctx, page);
    }
  }

  /** After a pass no heading is waiting for a cluster. */
  lemma {:induction false} PassLeavesNothingPending(ctx: PageContext, page: seq<Heading>)
    ensures PendingCount(CreateActionElements(ctx, page)) == 0
    decreases |page|
  {
    if page != [] {
      var r := CreateActionElements(ctx, page);
      assert r[1..] == CreateActionElements(ctx, page[1..]);
      PassLeavesNothingPending(ctx, page[1..]);
    }
  }

  /** A pass adds exactly one cluster per heading that needed one, and no
      other. */
  lemma {:induction false} PassAddsOneClusterPerPending(ctx: PageContext, page: seq<Heading>)
    ensures ClusterCount(CreateActionElements(ctx, page)) == ClusterCount(page) + PendingCount(page)
    decreases |page|
  {
    if page != [] {
      var r := CreateActionElements(ctx, page);
      assert r[1..] == CreateActionElements(ctx, page[1..]);
      PassAddsOneClusterPerPending(ctx, page[1..]);
    }
  }

  /** Headings are handled independently: the pass over two runs of
      headings is the two passes side by side, so headings that load later
      are augmented exactly as if they had been there from the start. */
  lemma {:induction false} PassSplits(ctx: PageContext, p: seq<Heading>, q: seq<Heading>)
    ensures CreateActionElements(ctx, p + q)
            == CreateActionElements(ctx, p) + CreateActionElements(ctx, q)
  {
    var l := CreateActionElements(ctx, p + q);
    var r := CreateActionElements(ctx, p) + CreateActionElements(ctx, q);
    forall i | 0 <= i < |p + q|
      ensures l[i] == r[i]
    {
      if i < |p| {
        assert (p + q)[i] == p[i];
      } else {
        assert (p + q)[i] == q[i - |p|];
      }
    }
  }

  /** A heading the script has never seen. */
  predicate IsFresh(h: Heading)
  {
    !h.processed && h.clusters == []
  }

  /** The first visit of a fresh heading attaches one cluster when its
      title is not empty, and none otherwise. */
  lemma VisitFresh(ctx: PageContext, h: Heading)
    requires IsFresh(h)
    ensures Title(h) != [] ==> Visit(ctx, h).clusters == [ClusterFor(ctx, h)]
    ensures Title(h) == [] ==> Visit(ctx, h).clusters == []
  {
    if Title(h) != [] {
      assert h.clusters + [ClusterFor(ctx, h)] == [ClusterFor(ctx, h)];
    }
  }

  /** On a page of fresh headings, any number of observer notifications
      after the first pass leave each heading with a non-empty title with
      exactly one cluster, the one built from it, and every other heading
      with none. */
  lemma ExactlyOneCluster(ctx: PageContext, page: seq<Heading>, n: nat, i: int)
    requires n >= 1
    requires forall k :: 0 <= k < |page| ==> IsFresh(page[k])
    requires 0 <= i < |page|
    ensures Title(page[i]) != [] ==> Observe(ctx, page, n)[i].clusters == [ClusterFor(ctx, page[i])]
    ensures Title(page[i]) == [] ==> Observe(ctx, page, n)[i].clusters == []
  {
    var once := CreateActionElements(ctx, page);
    ObserveConverges(ctx, page, n);
    assert Observe(ctx, page, n)[i] == once[i] == Visit(ctx, page[i]);
    assert IsFresh(page[i]);
    VisitFresh(ctx, page[i]);
  }

  /** A new book listing with a non-empty title whose details view has one
      block `Author: <name>` with the name in its span (so `Foo Bar` by
      `A. Writer`, say): the pass gives it one cluster whose Google link
      searches for `<title> BY <name>`, or for `<title> book` when the name
      is empty. */
  lemma BookQueryFromAuthorBlock(title: string, name: string)
    requires IsTrimmed(title) && title != [] && IsTrimmed(name)
    ensures var h := Heading(title, Some([Block(AuthorLabel + (" " + name), Some(name))]), false, []);
            var r := Visit(PageContext(false, true), h);
            |r.clusters| == 1 && |r.clusters[0]| == 2 && r.clusters[0][1].GoogleLink?
            && SearchTerm(r.clusters[0][1].href, GoogleSearchBaseUrl)
               == Some(if name != [] then title + " BY " + name else title + " book")
  {
    var h := Heading(title, Some([Block(AuthorLabel + (" " + name), Some(name))]), false, []);
    var ctx := PageContext(false, true);
    BookQueryOfLabelledBlock(h, title, name);
    TrimOfTrimmed(title);
    VisitNewListingOffGames(ctx, h);
  }

  /** Off game bundles, the visit of a new heading with a non-empty title
      attaches one cluster of two actions whose Google link searches for
      the heading's query. */
  lemma VisitNewListingOffGames(ctx: PageContext, h: Heading)
    requires !ctx.isGamesBundle && IsFresh(h) && Title(h) != []
    ensures var r := Visit(ctx, h);
            |r.clusters| == 1 && |r.clusters[0]| == 2 && r.clusters[0][1].GoogleLink?
            && SearchTerm(r.clusters[0][1].href, GoogleSearchBaseUrl) == Some(GoogleQuery(ctx, h))
  {
    VisitFresh(ctx, h);
  }

  /** The query of a book heading whose only block is `Author: <name>`. */
  lemma BookQueryOfLabelledBlock(h: Heading, title: string, name: string)
    requires IsTrimmed(title) && IsTrimmed(name)
    requires h.text == title && h.detailsView == Some([Block(AuthorLabel + (" " + name), Some(name))])
    ensures GoogleQuery(PageContext(false, true), h)
            == if name != [] then title + " BY " + name else title + " book"
  {
    TrimOfTrimmed(title);
    LabelledBlockIsAccepted(name);
    assert GetAuthor(h) == Some(name);
  }

  /** A block reading `Author: <name>` with the name in its span passes the
      label test, and the lookup over it yields the name, even when the
      name is empty. */
  lemma LabelledBlockIsAccepted(name: string)
    requires IsTrimmed(name)
    ensures IsAuthorBlock(Block(AuthorLabel + (" " + name), Some(name)))
    ensures FindAuthor([Block(AuthorLabel + (" " + name), Some(name))]) == Some(name)
  {
    var b := Block(AuthorLabel + (" " + name), Some(name));
    LabelledTextStartsWithLabel(name);
    assert IsAuthorBlock(b);
    FindAuthorOfOne(b);
    TrimOfTrimmed(name);
  }

  /** The lookup over a single accepted block yields its trimmed span. */
  lemma FindAuthorOfOne(b: Block)
    requires IsAuthorBlock(b)
    ensures FindAuthor([b]) == Some(Trim(b.span.value))
  {
    assert [b][0] == b;
  }

  /** The trimmed text `Author: <name>` starts with the label, whether or
      not the name is empty. */
  lemma LabelledTextStartsWithLabel(name: string)
    requires IsTrimmed(name)
    ensures StartsWith(Trim(AuthorLabel + (" " + name)), AuthorLabel)
  {
    var text := AuthorLabel + (" " + name);
    if name == [] {
      assert AllWhitespace([]) && AllWhitespace(" ");
      TrimUnique([], AuthorLabel, " ");
      assert [] + AuthorLabel + " " == text;
      StartsWithConcat(AuthorLabel, []);
      assert AuthorLabel + [] == AuthorLabel;
    } else {
      assert text[0] == 'A' && text[|text| - 1] == name[|name| - 1];
      TrimOfTrimmed(text);
      StartsWithConcat(AuthorLabel, " " + name);
    }
  }

  /** A string that neither starts nor ends with whitespace is its own
      trim. */
  lemma TrimOfTrimmed(s: string)
    requires IsTrimmed(s)
    ensures Trim(s) == s
  {
    assert AllWhitespace([]);
    TrimUnique([], s, []);
    assert [] + s + [] == s;
  }
}
