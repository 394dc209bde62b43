/** The navigation sidebar (browser/sidebar.js): a tree of links and
    collapsible navs. Whether a link is active depends on the pathname of
    its href, which the browser computes by URL parsing; that parsing is
    the parameter `pathOf`. */
module Sidebar {
  import opened Base
  import opened Strings
  import opened Util

  /** A sidebar item: `{text, href}` or `{text, items}`. */
  datatype Item = Link(text: string, href: string) | Nav(text: string, items: seq<Item>)

  /** Where the page is: the current pathname and the pathname of any
      href. */
  datatype Location = Location(pathname: string, pathOf: string -> string)

  /** `isActive`: the href leads to the current page. */
  predicate IsActive(loc: Location, href: string)
  {
    loc.pathOf(href) == loc.pathname
  }

  /** `hasActiveItem`: `_.some` over the items, descending into navs. */
  predicate HasActiveItem(loc: Location, items: seq<Item>)
    decreases items
  {
    if |items| == 0 then false
    else
      (match items[0]
       case Nav(_, sub) => HasActiveItem(loc, sub)
       case Link(_, href) => IsActive(loc, href))
      || HasActiveItem(loc, items[1..])
  }

  /** The hrefs of the links in a tree, in document order. */
  function Leaves(items: seq<Item>): seq<string>
    decreases items
  {
    if |items| == 0 then []
    else
      (match items[0]
       case Nav(_, sub) => Leaves(sub)
       case Link(_, href) => [href])
      + Leaves(items[1..])
  }

  predicate SomeLeafActive(loc: Location, items: seq<Item>)
  {
    exists k :: 0 <= k < |Leaves(items)| && IsActive(loc, Leaves(items)[k])
  }

  /** A tree has an active item exactly when one of its links is active. */
  lemma {:induction false} HasActiveItemIff(loc: Location, items: seq<Item>)
    ensures HasActiveItem(loc, items) <==> SomeLeafActive(loc, items)
    decreases items
  {
    if |items| > 0 {
      var head := match items[0] case Nav(_, sub) => Leaves(sub) case Link(_, href) => [href];
      var tail := Leaves(items[1..]);
      assert Leaves(items) == head + tail;
      HasActiveItemIff(loc, items[1..]);
      match items[0]
      case Nav(_, sub) =>
        HasActiveItemIff(loc, sub);
        SomeActiveInConcat(loc, head, tail);
      case Link(_, href) =>
        SomeActiveInConcat(loc, head, tail);
        assert (exists k :: 0 <= k < |head| && IsActive(loc, head[k])) <==> IsActive(loc, href) by {
          assert head[0] == href;
        }
    }
  }

  lemma SomeActiveInConcat(loc: Location, a: seq<string>, b: seq<string>)
    ensures (exists k :: 0 <= k < |a + b| && IsActive(loc, (a + b)[k]))
        <==> (exists k :: 0 <= k < |a| && IsActive(loc, a[k])) || (exists k :: 0 <= k < |b| && IsActive(loc, b[k]))
  {
    if exists k :: 0 <= k < |a| && IsActive(loc, a[k]) {
      var k :| 0 <= k < |a| && IsActive(loc, a[k]);
      assert (a + b)[k] == a[k];
    }
    if exists k :: 0 <= k < |b| && IsActive(loc, b[k]) {
      var k :| 0 <= k < |b| && IsActive(loc, b[k]);
      assert (a + b)[|a| + k] == b[k];
    }
    if exists k :: 0 <= k < |a + b| && IsActive(loc, (a + b)[k]) {
      var k :| 0 <= k < |a + b| && IsActive(loc, (a + b)[k]);
      if k >= |a| {
        assert (a + b)[k] == b[k - |a|];
      }
    }
  }

  // ---------------------------------------------------------------------
  // Rendering

  /** The rendered tree: a link with its `active` class, or a nav with its
      header, its open state and its rendered items. A closed nav still
      renders its items, at height 0. */
  datatype View =
    | LinkView(text: string, href: string, active: bool)
    | NavView(text: string, open: bool, children: seq<View>)

  /** The state of a `Nav` component. */
  datatype NavState = NavState(text: string, items: seq<Item>, open: bool)

  /** `getInitialState`: open when the nav holds the current page. */
  function InitialNavState(loc: Location, text: string, items: seq<Item>): (s: NavState)
    ensures s.text == text && s.items == items
    ensures s.open <==> SomeLeafActive(loc, items)
  {
    HasActiveItemIff(loc, items);
    NavState(text, items, HasActiveItem(loc, items))
  }

  /** `renderItems`: items with `items` become navs, the others links, in
      order. */
  function RenderItems(loc: Location, items: seq<Item>): (r: seq<View>)
    ensures |r| == |items|
    ensures forall k :: 0 <= k < |r| ==> (r[k].NavView? <==> items[k].Nav?) && r[k].text == items[k].text
    ensures forall k :: 0 <= k < |r| && items[k].Link? ==>
      r[k].href == items[k].href && (r[k].active <==> IsActive(loc, items[k].href))
    decreases items
  {
    if |items| == 0 then []
    else
      var rest := RenderItems(loc, items[1..]);
      var head := match items[0]
        case Nav(text, sub) => NavView(text, InitialNavState(loc, text, sub).open, RenderItems(loc, sub))
        case Link(text, href) => LinkView(text, href, IsActive(loc, href));
      assert forall k :: 1 <= k < |items| ==> items[k] == items[1..][k - 1];
      [head] + rest
  }

  /** `dom.find(el, 'a.active')`: some link in the views is active. */
  predicate FindActive(views: seq<View>)
    decreases views
  {
    if |views| == 0 then false
    else
      (match views[0]
       case LinkView(_, _, active) => active
       case NavView(_, _, children) => FindActive(children))
      || FindActive(views[1..])
  }

  /** `componentDidMount` finds an active link among the rendered items
      exactly when the tree has an active item, so mounting leaves the
      initial open state unchanged. */
  lemma {:induction false} MountKeepsOpen(loc: Location, items: seq<Item>)
    ensures FindActive(RenderItems(loc, items)) == HasActiveItem(loc, items)
    decreases items
  {
    if |items| > 0 {
      var r := RenderItems(loc, items);
      assert r[1..] == RenderItems(loc, items[1..]);
      MountKeepsOpen(loc, items[1..]);
      match items[0]
      case Nav(_, sub) =>
        MountKeepsOpen(loc, sub);
      case Link(_, _) =>
    }
  }

  /** `componentDidMount`. */
  function Mount(loc: Location, s: NavState): (r: NavState)
    ensures r.text == s.text && r.items == s.items
    ensures r.open <==> SomeLeafActive(loc, s.items)
  {
    MountKeepsOpen(loc, s.items);
    HasActiveItemIff(loc, s.items);
    s.(open := FindActive(RenderItems(loc, s.items)))
  }

  /** A click on the nav header. */
  function Toggle(s: NavState): (r: NavState)
    ensures r.open != s.open
    ensures r.text == s.text && r.items == s.items
  {
    s.(open := !s.open)
  }

  /** The height of the `nav` element. */
  datatype Height = Auto | Zero

  function NavHeight(s: NavState): (r: Height)
    ensures r == Auto <==> s.open
  {
    if s.open then Auto else Zero
  }

  // ---------------------------------------------------------------------
  // Links and the logo

  lemma LinkSelectorsParse()
    ensures ParseSelector("a") == Selector("a", None, None)
    ensures ParseSelector("a.active") == Selector("a", None, Some("active"))
  {
    assert Format("a", None, []) == "a" by {
      assert [Head("a", None)] + [] == ["a"];
    }
    assert WellFormedParts("a", None, []);
    ParseFormat("a", None, []);
    var classes := ["active"];
    assert Format("a", None, classes) == "a.active" by {
      assert [Head("a", None)] + classes == ["a", "active"];
      assert Join(["active"], ".") == "active";
    }
    assert WellFormedParts("a", None, classes) by {
      assert classes[0] == "active";
    }
    assert Join(classes, " ") == "active";
    ParseFormat("a", None, classes);
  }

  lemma HrefKey()
    ensures "href" != "id" && "href" != "className"
  {
    assert "href"[0] != "id"[0] && "href"[0] != "className"[0];
  }

  /** `Link`: an `a` whose only class is `active`, present exactly when the
      link leads to the current page. */
  function LinkElement(loc: Location, text: string, href: string): (r: Element<string, string>)
    ensures r.tagName == "a"
    ensures r.className == Some("active") <==> IsActive(loc, href)
    ensures r.className == None <==> !IsActive(loc, href)
    ensures r.props == map["href" := href] && r.children == Some(text)
  {
    var sel := if IsActive(loc, href) then "a.active" else "a";
    LinkSelectorsParse();
    HrefKey();
    HKeepsProps(sel, map["href" := href], Some(text));
    H(sel, WithProps(map["href" := href], Some(text)))
  }

  /** The logo's title and link. */
  datatype Logo = Logo(title: string, href: string)

  /** `renderLogo`: the Syncbase logo on the Syncbase subsite, the Core
      logo everywhere else. */
  function RenderLogo(subsite: string): (r: Logo)
    ensures subsite == "syncbase" ==> r == Logo("Syncbase", "/syncbase")
    ensures subsite != "syncbase" ==> r == Logo("Core", "/core.html")
  {
    if subsite == "syncbase" then Logo("Syncbase", "/syncbase") else Logo("Core", "/core.html")
  }

  /** The logo links to `/syncbase` exactly on the Syncbase subsite. */
  lemma LogoLinkIff(subsite: string)
    ensures RenderLogo(subsite).href == "/syncbase" <==> subsite == "syncbase"
  {
    assert "/core.html"[1] != "/syncbase"[1];
  }
}
