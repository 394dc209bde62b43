/** The page start-up code (browser/index.js): reading the table of
    contents and the sidebar out of the page, and the decisions taken from
    the pathname, the scroll position and link hostnames. The page is given
    as data: the headings the query `main > h1, …, main > h4` returns, the
    sidebar data element as a tree, the links with their hostnames. */
module Bootstrap {
  import opened Base
  import opened Strings
  import opened Seqs
  import Toc
  import Sidebar

  // ---------------------------------------------------------------------
  // parseTocProps

  /** A heading element: its tag (`H1` … `H4`), its id (`""` when it has
      none), whether it has the class `title`, its text, and where it is
      relative to the window. */
  datatype HeadingEl = HeadingEl(
    tagName: string,
    id: string,
    isTitle: bool,
    text: string,
    aboveWindow: bool,
    belowWindow: bool)

  predicate IsHeadingTag(t: string)
  {
    |t| == 2 && t[0] == 'H' && '1' <= t[1] <= '4'
  }

  /** `parseInt(tagName.split('')[1])`: the digit after `H`. */
  function Level(tagName: string): (r: int)
    ensures IsHeadingTag(tagName) ==> 1 <= r <= 4 && r == (tagName[1] as int) - ('0' as int)
    ensures !IsHeadingTag(tagName) ==> r == 0
  {
    if IsHeadingTag(tagName) then (tagName[1] as int) - ('0' as int) else 0
  }

  /** The index of the first heading with the class `title` (`_.find`). */
  function TitleIndex(hs: seq<HeadingEl>): (r: Option<nat>)
    ensures r.Some? ==>
      r.value < |hs| && hs[r.value].isTitle && forall j :: 0 <= j < r.value ==> !hs[j].isTitle
    ensures r.None? <==> forall j :: 0 <= j < |hs| ==> !hs[j].isTitle
  {
    if |hs| == 0 then None
    else if hs[0].isTitle then Some(0)
    else
      match TitleIndex(hs[1..])
      case None =>
        assert forall j :: 1 <= j < |hs| ==> hs[j] == hs[1..][j - 1];
        None
      case Some(i) =>
        assert forall j :: 1 <= j < |hs| ==> hs[j] == hs[1..][j - 1];
        Some(i + 1)
  }

  /** The properties handed to the table of contents. */
  datatype TocProps = TocProps(title: string, headings: seq<Toc.Heading>)

  /** The heading objects built from the elements; a heading is not active
      until the first scroll or hash change. */
  function HeadingOf(el: HeadingEl): Toc.Heading
  {
    Toc.Heading(el.id, el.text, Level(el.tagName), el.aboveWindow, el.belowWindow, false)
  }

  /** Which elements become headings: all but the title element and
      those without an id. */
  function Keeper(title: nat): ((nat, HeadingEl)) -> Option<Toc.Heading>
  {
    (p: (nat, HeadingEl)) => if p.0 == title || p.1.id == "" then None else Some(HeadingOf(p.1))
  }

  function Indexed(hs: seq<HeadingEl>): (r: seq<(nat, HeadingEl)>)
    ensures |r| == |hs|
    ensures forall i :: 0 <= i < |r| ==> r[i] == (i, hs[i])
  {
    seq(|hs|, i requires 0 <= i < |hs| => (i, hs[i]))
  }

  /** `parseTocProps`. Without a title element, reading its text throws;
      that is the error result. */
  function ParseTocProps(hs: seq<HeadingEl>): (r: Result<TocProps>)
    ensures r.Err? <==> forall j :: 0 <= j < |hs| ==> !hs[j].isTitle
    ensures r.Ok? ==>
      exists t :: 0 <= t < |hs| && hs[t].isTitle && r.value.title == hs[t].text && forall j :: 0 <= j < t ==> !hs[j].isTitle
  {
    match TitleIndex(hs)
    case None => Err("titleEl is undefined")
    case Some(t) => Ok(TocProps(hs[t].text, FilterMap(Indexed(hs), Keeper(t))))
  }

  /** The headings of the table of contents are, in document order, the
      elements other than the title element that have an id, each with the
      level of its tag, between 1 and 4. */
  lemma TocHeadings(hs: seq<HeadingEl>) returns (idx: seq<nat>)
    requires forall j :: 0 <= j < |hs| ==> IsHeadingTag(hs[j].tagName)
    requires ParseTocProps(hs).Ok?
    ensures var t := TitleIndex(hs).value;
      var out := ParseTocProps(hs).value.headings;
      |idx| == |out|
      && (forall k :: 0 <= k < |idx| ==>
            idx[k] < |hs| && idx[k] != t && hs[idx[k]].id != ""
            && out[k] == HeadingOf(hs[idx[k]]) && 1 <= out[k].level <= 4)
      && (forall k, m :: 0 <= k < m < |idx| ==> idx[k] < idx[m])
      && (forall i :: 0 <= i < |hs| && i != t && hs[i].id != "" ==> i in idx)
  {
    var t := TitleIndex(hs).value;
    var xs := Indexed(hs);
    var f := Keeper(t);
    idx := FilterMapIndex(xs, f);
    forall i | 0 <= i < |hs| && i != t && hs[i].id != ""
      ensures i in idx
    {
      assert f(xs[i]).Some?;
    }
  }

  /** What happens to the `.toc` element. */
  datatype TocOutcome = NoTocElement | Rendered(props: TocProps) | Removed | Threw

  /** The table of contents is rendered when the page asks for one and
      has headings, removed when it has none; a page without a title
      element makes the start-up code throw. */
  function TocDecision(hasTocElement: bool, hs: seq<HeadingEl>): (r: TocOutcome)
    ensures r.NoTocElement? <==> !hasTocElement
    ensures r.Threw? <==> hasTocElement && ParseTocProps(hs).Err?
    ensures r.Rendered? <==> hasTocElement && ParseTocProps(hs).Ok? && |ParseTocProps(hs).value.headings| > 0
    ensures r.Rendered? ==> r.props == ParseTocProps(hs).value
  {
    if !hasTocElement then NoTocElement
    else
      match ParseTocProps(hs)
      case Err(_) => Threw
      case Ok(props) => if |props.headings| > 0 then Rendered(props) else Removed
  }

  // ---------------------------------------------------------------------
  // parseSidebarProps

  /** An element of the sidebar data: its tag, its `class` attribute, its
      text, its href (for anchors) and its child elements. */
  datatype DomEl = DomEl(tagName: string, className: string, text: string, href: string, children: seq<DomEl>)

  predicate IsAnchor(e: DomEl) { e.tagName == "A" }

  predicate IsNavAnchor(e: DomEl) { e.tagName == "A" && e.className == "nav" }

  /** Every `nav` anchor among the children is followed by a `NAV` element
      whose children are well formed in turn (the `console.assert`). */
  predicate NavsFollowed(cs: seq<DomEl>)
    decreases cs
  {
    forall i :: 0 <= i < |cs| && IsNavAnchor(cs[i]) ==>
      i + 1 < |cs| && cs[i + 1].tagName == "NAV" && NavsFollowed(cs[i + 1].children)
  }

  lemma NavsFollowedTail(cs: seq<DomEl>)
    requires |cs| > 0 && NavsFollowed(cs)
    ensures NavsFollowed(cs[1..])
  {
    forall i | 0 <= i < |cs[1..]| && IsNavAnchor(cs[1..][i])
      ensures i + 1 < |cs[1..]| && cs[1..][i + 1].tagName == "NAV" && NavsFollowed(cs[1..][i + 1].children)
    {
      assert cs[1..][i] == cs[i + 1];
    }
  }

  /** The number of anchors among the children. */
  function CountAnchors(cs: seq<DomEl>): nat
  {
    if |cs| == 0 then 0 else (if IsAnchor(cs[0]) then 1 else 0) + CountAnchors(cs[1..])
  }

  /** `parseSidebarProps` on an element's children: one item per anchor
      child, in order; a `nav` anchor holds the items of the `NAV` element
      after it, any other anchor is a link. */
  function ParseChildren(cs: seq<DomEl>): (r: seq<Sidebar.Item>)
    requires NavsFollowed(cs)
    ensures |r| == CountAnchors(cs)
    decreases cs
  {
    if |cs| == 0 then []
    else
      NavsFollowedTail(cs);
      var rest := ParseChildren(cs[1..]);
      var a := cs[0];
      if !IsAnchor(a) then rest
      else if a.className != "nav" then [Sidebar.Link(a.text, a.href)] + rest
      else [Sidebar.Nav(a.text, ParseChildren(cs[1].children))] + rest
  }

  /** Counting the anchors of a prefix: the first element, then the rest. */
  lemma CountAnchorsCons(cs: seq<DomEl>, i: nat)
    requires 0 < i <= |cs|
    ensures CountAnchors(cs[..i]) == (if IsAnchor(cs[0]) then 1 else 0) + CountAnchors(cs[1..][..i - 1])
  {
    assert cs[..i][1..] == cs[1..][..i - 1];
  }

  /** The item an anchor child becomes: a `nav` anchor becomes a nav whose
      items are parsed from the element after it, any other anchor a link. */
  predicate ParsedAs(cs: seq<DomEl>, i: nat, item: Sidebar.Item)
    requires NavsFollowed(cs) && i < |cs| && IsAnchor(cs[i])
  {
    if cs[i].className == "nav" then item == Sidebar.Nav(cs[i].text, ParseChildren(cs[i + 1].children))
    else item == Sidebar.Link(cs[i].text, cs[i].href)
  }

  /** Some anchor child has exactly `k` anchors before it. */
  predicate NumberedAnchor(cs: seq<DomEl>, k: nat)
  {
    exists i :: 0 <= i < |cs| && IsAnchor(cs[i]) && CountAnchors(cs[..i]) == k
  }

  /** The anchor at position `i` becomes item number `CountAnchors(cs[..i])`
      (the number of anchors before it); every item comes from an anchor,
      and the items follow the anchors' order. */
  lemma ParseChildrenAnchors(cs: seq<DomEl>)
    requires NavsFollowed(cs)
    ensures forall i :: 0 <= i < |cs| && IsAnchor(cs[i]) ==>
      CountAnchors(cs[..i]) < |ParseChildren(cs)| && ParsedAs(cs, i, ParseChildren(cs)[CountAnchors(cs[..i])])
    ensures forall k :: 0 <= k < |ParseChildren(cs)| ==> NumberedAnchor(cs, k)
    ensures forall i, j :: 0 <= i < j < |cs| && IsAnchor(cs[i]) ==> CountAnchors(cs[..i]) < CountAnchors(cs[..j])
  {
    AnchorsParsed(cs);
    EveryCountNumbered(cs);
    AnchorNumbersIncrease(cs);
  }

  lemma {:induction false} AnchorsParsed(cs: seq<DomEl>)
    requires NavsFollowed(cs)
    ensures forall i :: 0 <= i < |cs| && IsAnchor(cs[i]) ==>
      CountAnchors(cs[..i]) < |ParseChildren(cs)| && ParsedAs(cs, i, ParseChildren(cs)[CountAnchors(cs[..i])])
    decreases |cs|
  {
    if |cs| > 0 {
      NavsFollowedTail(cs);
      var tail := cs[1..];
      AnchorsParsed(tail);
      var r := ParseChildren(cs);
      var rest := ParseChildren(tail);
      var a := if IsAnchor(cs[0]) then 1 else 0;
      assert r[a..] == rest;
      assert cs[..0] == [];
      forall i | 0 < i < |cs| && IsAnchor(cs[i])
        ensures CountAnchors(cs[..i]) < |r| && ParsedAs(cs, i, r[CountAnchors(cs[..i])])
      {
        CountAnchorsCons(cs, i);
        assert tail[i - 1] == cs[i];
        assert ParsedAs(tail, i - 1, rest[CountAnchors(tail[..i - 1])]);
      }
    }
  }

  lemma {:induction false} EveryCountNumbered(cs: seq<DomEl>)
    ensures forall k :: 0 <= k < CountAnchors(cs) ==> NumberedAnchor(cs, k)
    decreases |cs|
  {
    if |cs| > 0 {
      var tail := cs[1..];
      EveryCountNumbered(tail);
      var a := if IsAnchor(cs[0]) then 1 else 0;
      forall k | 0 <= k < CountAnchors(cs)
        ensures NumberedAnchor(cs, k)
      {
        if k < a {
          assert cs[..0] == [];
          assert IsAnchor(cs[0]) && CountAnchors(cs[..0]) == 0;
        } else {
          assert NumberedAnchor(tail, k - a);
          var i' :| 0 <= i' < |tail| && IsAnchor(tail[i']) && CountAnchors(tail[..i']) == k - a;
          CountAnchorsCons(cs, i' + 1);
          assert cs[i' + 1] == tail[i'];
        }
      }
    }
  }

  lemma {:induction false} AnchorNumbersIncrease(cs: seq<DomEl>)
    ensures forall i, j :: 0 <= i < j < |cs| && IsAnchor(cs[i]) ==> CountAnchors(cs[..i]) < CountAnchors(cs[..j])
    decreases |cs|
  {
    if |cs| > 0 {
      var tail := cs[1..];
      AnchorNumbersIncrease(tail);
      forall i, j | 0 <= i < j < |cs| && IsAnchor(cs[i])
        ensures CountAnchors(cs[..i]) < CountAnchors(cs[..j])
      {
        CountAnchorsCons(cs, j);
        if i > 0 {
          CountAnchorsCons(cs, i);
          assert tail[i - 1] == cs[i];
        } else {
          assert cs[..0] == [];
        }
      }
    }
  }

  /** The sidebar data a tree of items is written as: a link is an anchor,
      a nav is a `nav` anchor followed by a `NAV` element holding its
      items. */
  function Emit(items: seq<Sidebar.Item>): seq<DomEl>
    decreases items
  {
    if |items| == 0 then []
    else
      (match items[0]
       case Link(text, href) => [DomEl("A", "", text, href, [])]
       case Nav(text, sub) => [DomEl("A", "nav", text, "", []), DomEl("NAV", "", "", "", Emit(sub))])
      + Emit(items[1..])
  }

  lemma ParseLinkHead(text: string, href: string, rest: seq<DomEl>)
    requires NavsFollowed(rest)
    ensures var cs := [DomEl("A", "", text, href, [])] + rest;
      NavsFollowed(cs) && ParseChildren(cs) == [Sidebar.Link(text, href)] + ParseChildren(rest)
  {
    var cs := [DomEl("A", "", text, href, [])] + rest;
    forall i | 0 < i < |cs| && IsNavAnchor(cs[i])
      ensures i + 1 < |cs| && cs[i + 1].tagName == "NAV" && NavsFollowed(cs[i + 1].children)
    {
      assert cs[i] == rest[i - 1];
      assert cs[i + 1] == rest[i];
    }
    assert cs[1..] == rest;
  }

  lemma NavElementSkipped(navEl: DomEl, rest: seq<DomEl>)
    requires navEl.tagName == "NAV" && NavsFollowed(rest)
    ensures NavsFollowed([navEl] + rest)
    ensures ParseChildren([navEl] + rest) == ParseChildren(rest)
  {
    var cs := [navEl] + rest;
    forall i | 0 < i < |cs| && IsNavAnchor(cs[i])
      ensures i + 1 < |cs| && cs[i + 1].tagName == "NAV" && NavsFollowed(cs[i + 1].children)
    {
      assert cs[i] == rest[i - 1];
      assert cs[i + 1] == rest[i];
    }
    assert cs[1..] == rest;
  }

  lemma ParseNavHead(text: string, sub: seq<DomEl>, rest: seq<DomEl>)
    requires NavsFollowed(sub) && NavsFollowed(rest)
    ensures var cs := [DomEl("A", "nav", text, "", []), DomEl("NAV", "", "", "", sub)] + rest;
      NavsFollowed(cs) && ParseChildren(cs) == [Sidebar.Nav(text, ParseChildren(sub))] + ParseChildren(rest)
  {
    var navEl := DomEl("NAV", "", "", "", sub);
    var cs := [DomEl("A", "nav", text, "", [])] + ([navEl] + rest);
    NavElementSkipped(navEl, rest);
    assert cs[1..] == [navEl] + rest;
    assert cs[1] == navEl;
    forall i | 0 <= i < |cs| && IsNavAnchor(cs[i])
      ensures i + 1 < |cs| && cs[i + 1].tagName == "NAV" && NavsFollowed(cs[i + 1].children)
    {
      if i > 0 {
        assert cs[i] == ([navEl] + rest)[i - 1];
      }
    }
    assert cs == [DomEl("A", "nav", text, "", []), navEl] + rest;
  }

  /** Emitting a tree and parsing it back gives the same tree: the parser
      reads exactly the shape the site's sidebar data has. */
  lemma {:induction false} ParseEmit(items: seq<Sidebar.Item>)
    ensures NavsFollowed(Emit(items))
    ensures ParseChildren(Emit(items)) == items
    decreases items
  {
    if |items| > 0 {
      var rest := Emit(items[1..]);
      ParseEmit(items[1..]);
      assert items == [items[0]] + items[1..];
      match items[0]
      case Link(text, href) =>
        assert Emit(items) == [DomEl("A", "", text, href, [])] + rest;
        ParseLinkHead(text, href, rest);
      case Nav(text, sub) =>
        ParseEmit(sub);
        assert Emit(items) == [DomEl("A", "nav", text, "", []), DomEl("NAV", "", "", "", Emit(sub))] + rest;
        ParseNavHead(text, Emit(sub), rest);
    }
  }

  // ---------------------------------------------------------------------
  // Decisions taken from the pathname, the scroll position and the links

  /** Copy buttons are added in the site's sections with commands to copy. */
  predicate ClipboardEnabled(pathname: string)
  {
    Contains(pathname, "tutorials") || Contains(pathname, "installation")
    || Contains(pathname, "contributing") || Contains(pathname, "syncbase")
  }

  /** The landing page, where the header follows the scroll position. */
  predicate ScrollListened(pathname: string)
  {
    pathname == "/" || pathname == "/index.html"
  }

  lemma NotIn(s: string, pat: string)
    requires |pat| > 0
    requires forall j :: 0 <= j < |s| ==> s[j] != pat[0] || j + |pat| > |s|
    ensures !Contains(s, pat)
  {
    forall j | 0 <= j <= |s|
      ensures !OccursAt(s, pat, j)
    {
      if j + |pat| <= |s| {
        assert s[j..j + |pat|][0] == s[j];
      }
    }
  }

  /** On the landing page the header follows the scroll and no copy
      buttons are added. */
  lemma LandingPage(pathname: string)
    requires pathname == "/" || pathname == "/index.html"
    ensures ScrollListened(pathname) && !ClipboardEnabled(pathname)
  {
    NotIn(pathname, "tutorials");
    NotIn(pathname, "installation");
    NotIn(pathname, "contributing");
    NotIn(pathname, "syncbase");
  }

  /** `onScroll`: the body has the class `not-scrolled` exactly while it
      is scrolled by less than 15 pixels; its other classes stay. */
  function OnScroll(classes: set<string>, scrollTop: int): (r: set<string>)
    ensures "not-scrolled" in r <==> scrollTop < 15
    ensures forall c :: c != "not-scrolled" ==> (c in r <==> c in classes)
  {
    if scrollTop < 15 then classes + {"not-scrolled"} else classes - {"not-scrolled"}
  }

  /** A link of the page: the hostname of its target and its `target`
      attribute. */
  datatype Anchor = Anchor(hostname: string, target: string)

  /** Links to other hosts open in a new tab; the others are left as they
      are. */
  function Retarget(links: seq<Anchor>, hostname: string): (r: seq<Anchor>)
    ensures |r| == |links|
    ensures forall k :: 0 <= k < |r| ==> r[k].hostname == links[k].hostname
    ensures forall k :: 0 <= k < |r| ==>
      (if links[k].hostname != hostname then r[k].target == "_blank" else r[k] == links[k])
  {
    seq(|links|, k requires 0 <= k < |links| =>
      if links[k].hostname != hostname then links[k].(target := "_blank") else links[k])
  }

  // ---------------------------------------------------------------------
  // The start-up sequence

  /** What the start-up code reads from the page. */
  datatype PageState = PageState(
    hasTocElement: bool,
    headings: seq<HeadingEl>,
    pathname: string,
    hostname: string,
    bodyClasses: set<string>,
    scrollTop: int,
    links: seq<Anchor>)

  /** What it does to the page, in order: the table of contents, the copy
      buttons, the landing-page scroll listener (run once at start-up) and
      the link targets. */
  datatype Outcome = Outcome(toc: TocOutcome, clipboard: bool, bodyClasses: set<string>, links: seq<Anchor>)

  /** The `domready` handler after the sidebar. An exception thrown while
      reading the table of contents ends the handler. */
  function Start(p: PageState): (r: Outcome)
    ensures r.toc == TocDecision(p.hasTocElement, p.headings)
    ensures r.toc.Threw? ==> !r.clipboard && r.bodyClasses == p.bodyClasses && r.links == p.links
    ensures !r.toc.Threw? ==> (r.clipboard <==> ClipboardEnabled(p.pathname))
    ensures !r.toc.Threw? ==> |r.links| == |p.links|
    ensures !r.toc.Threw? ==>
      forall k :: 0 <= k < |r.links| ==>
        r.links[k] == if p.links[k].hostname != p.hostname then p.links[k].(target := "_blank") else p.links[k]
    ensures forall c :: c != "not-scrolled" ==> (c in r.bodyClasses <==> c in p.bodyClasses)
    ensures !r.toc.Threw? && !ScrollListened(p.pathname) ==> r.bodyClasses == p.bodyClasses
    ensures !r.toc.Threw? && ScrollListened(p.pathname) ==>
      ("not-scrolled" in r.bodyClasses <==> p.scrollTop < 15)
  {
    var toc := TocDecision(p.hasTocElement, p.headings);
    if toc.Threw? then Outcome(toc, false, p.bodyClasses, p.links)
    else
      Outcome(
        toc,
        ClipboardEnabled(p.pathname),
        if ScrollListened(p.pathname) then OnScroll(p.bodyClasses, p.scrollTop) else p.bodyClasses,
        Retarget(p.links, p.hostname))
  }

  /** A page that asks for a table of contents but has no title heading
      stops the start-up code: no copy buttons, no link targets. */
  lemma MissingTitleStopsStart(p: PageState)
    requires p.hasTocElement
    requires forall j :: 0 <= j < |p.headings| ==> !p.headings[j].isTitle
    ensures !Start(p).clipboard && Start(p).links == p.links
  {
  }
}
