/** The table of contents (browser/toc.js): which heading is active after
    a scroll or a change of the location hash, and how each entry is
    indented. The page geometry a scroll depends on is given as two
    booleans per heading, a snapshot of `isAboveWindow()` and
    `isBelowWindow()`. */
module Toc {
  import opened Base
  import opened Strings
  import opened Util

  datatype Heading = Heading(
    id: string,
    text: string,
    level: int,
    aboveWindow: bool,
    belowWindow: bool,
    active: bool)

  /** The component's state: its props and the smallest heading level
      (`undefined`, here `None`, when there are no headings). */
  datatype TocState = TocState(title: string, headings: seq<Heading>, minLevel: Option<int>)

  /** `_.min` of the levels. */
  function MinLevel(hs: seq<Heading>): (r: Option<int>)
    ensures r.None? <==> |hs| == 0
    ensures r.Some? ==> exists k :: 0 <= k < |hs| && hs[k].level == r.value
    ensures r.Some? ==> forall k :: 0 <= k < |hs| ==> r.value <= hs[k].level
  {
    if |hs| == 0 then None
    else
      match MinLevel(hs[1..])
      case None => Some(hs[0].level)
      case Some(m) =>
        assert forall k :: 1 <= k < |hs| ==> hs[k] == hs[1..][k - 1];
        Some(if hs[0].level < m then hs[0].level else m)
  }

  /** The state invariant: `minLevel` is the minimum of the current
      headings' levels. */
  predicate Valid(s: TocState)
  {
    s.minLevel == MinLevel(s.headings)
  }

  /** `getInitialState`. */
  function InitialState(title: string, headings: seq<Heading>): (s: TocState)
    ensures Valid(s)
    ensures s.title == title && s.headings == headings
  {
    TocState(title, headings, MinLevel(headings))
  }

  // ---------------------------------------------------------------------
  // Choosing the active heading

  /** The scroll loop stops at `i`: heading `i` is not above the window, or
      it is the last, or the next one is below the window. */
  predicate StopsAt(hs: seq<Heading>, i: int)
    requires 0 <= i < |hs|
  {
    !hs[i].aboveWindow || i + 1 == |hs| || hs[i + 1].belowWindow
  }

  /** The headings with exactly heading `a` active. */
  function Activate(hs: seq<Heading>, a: int): (r: seq<Heading>)
    ensures |r| == |hs|
    ensures forall j :: 0 <= j < |r| ==> r[j] == hs[j].(active := j == a)
  {
    seq(|hs|, j requires 0 <= j < |hs| => hs[j].(active := j == a))
  }

  /** `handleScroll`: the first heading where the loop stops becomes the
      only active one; every heading before it is above the window, and
      no heading is active when there are none. Nothing but `active`
      changes. */
  method HandleScroll(hs: seq<Heading>) returns (r: seq<Heading>)
    ensures |r| == |hs|
    ensures forall j :: 0 <= j < |r| ==> r[j].(active := hs[j].active) == hs[j]
    ensures |hs| == 0 ==> r == []
    ensures |hs| > 0 ==>
      exists a :: 0 <= a < |hs| && StopsAt(hs, a)
        && (forall j :: 0 <= j < a ==> !StopsAt(hs, j) && hs[j].aboveWindow)
        && (forall j :: 0 <= j < |r| ==> (r[j].active <==> j == a))
  {
    var i := 0;
    var l := |hs|;
    while i < l
      invariant 0 <= i <= l
      invariant l > 0 ==> i < l
      invariant forall j :: 0 <= j < i ==> !StopsAt(hs, j) && hs[j].aboveWindow
    {
      if !hs[i].aboveWindow {
        break;
      }
      if i + 1 == l || hs[i + 1].belowWindow {
        break;
      }
      i := i + 1;
    }
    assert l > 0 ==> StopsAt(hs, i);
    r := [];
    var j := 0;
    while j < l
      invariant 0 <= j <= l
      invariant r == Activate(hs[..j], i)
    {
      r := r + [hs[j].(active := i == j)];
      j := j + 1;
    }
    assert hs[..l] == hs;
    assert forall j :: 0 <= j < |r| ==> (r[j].active <==> j == i);
  }

  /** `handleHashChange`: a heading is active exactly when `#` followed by
      its id is the location hash; nothing else changes. */
  function HandleHashChange(hs: seq<Heading>, hash: string): (r: seq<Heading>)
    ensures |r| == |hs|
    ensures forall j :: 0 <= j < |r| ==> r[j].(active := hs[j].active) == hs[j]
    ensures forall j :: 0 <= j < |r| ==> (r[j].active <==> hash == "#" + hs[j].id)
  {
    seq(|hs|, j requires 0 <= j < |hs| => hs[j].(active := "#" + hs[j].id == hash))
  }

  predicate DistinctIds(hs: seq<Heading>)
  {
    forall j, k :: 0 <= j < k < |hs| ==> hs[j].id != hs[k].id
  }

  /** With distinct ids a hash activates at most one heading, and a hash
      that does not start with `#` activates none. */
  lemma HashChangeActivatesAtMostOne(hs: seq<Heading>, hash: string)
    requires DistinctIds(hs)
    ensures var r := HandleHashChange(hs, hash);
      forall j, k :: 0 <= j < k < |r| && r[j].active ==> !r[k].active
    ensures |hash| == 0 || hash[0] != '#' ==>
      forall j :: 0 <= j < |hs| ==> !HandleHashChange(hs, hash)[j].active
  {
    var r := HandleHashChange(hs, hash);
    forall j, k | 0 <= j < k < |r|
      ensures !(r[j].active && r[k].active)
    {
      assert ("#" + hs[j].id)[1..] == hs[j].id;
      assert ("#" + hs[k].id)[1..] == hs[k].id;
    }
    forall j | 0 <= j < |hs| && (|hash| == 0 || hash[0] != '#')
      ensures !r[j].active
    {
      assert ("#" + hs[j].id)[0] == '#';
    }
  }

  /** Scrolling and hash changes keep the state invariant: they touch only
      `active`, never a level. */
  lemma TransitionsKeepValid(s: TocState, scrolled: seq<Heading>, hash: string)
    requires Valid(s)
    requires |scrolled| == |s.headings|
    requires forall j :: 0 <= j < |scrolled| ==> scrolled[j].(active := s.headings[j].active) == s.headings[j]
    ensures Valid(s.(headings := scrolled))
    ensures Valid(s.(headings := HandleHashChange(s.headings, hash)))
  {
    SameLevels(s.headings, scrolled);
    SameLevels(s.headings, HandleHashChange(s.headings, hash));
  }

  lemma {:induction false} SameLevels(a: seq<Heading>, b: seq<Heading>)
    requires |a| == |b|
    requires forall j :: 0 <= j < |a| ==> a[j].level == b[j].level
    ensures MinLevel(a) == MinLevel(b)
    decreases |a|
  {
    if |a| > 0 {
      SameLevels(a[1..], b[1..]);
    }
  }

  // ---------------------------------------------------------------------
  // Rendering

  /** The props of a table-of-contents link: its target and its style,
      whose CSS lengths are kept as pixel counts. */
  datatype Prop = Href(href: string) | Style(marginLeftPx: int, fontSizePx: int)

  function EntrySelector(active: bool): string
  {
    if active then "a.heading.active" else "a.heading"
  }

  lemma ActiveFormat()
    ensures Format("a", None, ["heading", "active"]) == "a.heading.active"
  {
    assert [Head("a", None)] + ["heading", "active"] == ["a", "heading", "active"];
    assert Join(["active"], ".") == "active";
    assert Join(["heading", "active"], ".") == "heading.active";
  }

  lemma ActiveParts()
    ensures WellFormedParts("a", None, ["heading", "active"])
    ensures Join(["heading", "active"], " ") == "heading active"
  {
    var classes := ["heading", "active"];
    assert classes[0] == "heading" && classes[1] == "active";
    assert Join(classes[1..], " ") == "active";
  }

  lemma ActiveSelectorParses()
    ensures ParseSelector("a.heading.active") == Selector("a", None, Some("heading active"))
  {
    ActiveFormat();
    ActiveParts();
    ParseFormat("a", None, ["heading", "active"]);
  }

  lemma PlainSelectorParses()
    ensures ParseSelector("a.heading") == Selector("a", None, Some("heading"))
  {
    var classes := ["heading"];
    assert Format("a", None, classes) == "a.heading" by {
      assert [Head("a", None)] + classes == ["a", "heading"];
      assert Join(["heading"], ".") == "heading";
    }
    assert WellFormedParts("a", None, classes) by {
      assert classes[0] == "heading";
    }
    assert Join(classes, " ") == "heading";
    ParseFormat("a", None, classes);
  }

  lemma EntrySelectorParses(active: bool)
    ensures ParseSelector(EntrySelector(active))
         == Selector("a", None, Some(if active then "heading active" else "heading"))
  {
    if active {
      ActiveSelectorParses();
    } else {
      PlainSelectorParses();
    }
  }

  lemma EntryKeys()
    ensures "href" != "id" && "href" != "className" && "style" != "id" && "style" != "className"
    ensures "href" != "style"
  {
    assert "href"[0] != "id"[0] && "href"[0] != "className"[0] && "href"[0] != "style"[0];
    assert "style"[0] != "id"[0] && "style"[0] != "className"[0];
  }

  /** The props of an entry. */
  function EntryProps(h: Heading, minLevel: int): (m: map<string, Prop>)
    ensures "href" in m && "style" in m && "id" !in m && "className" !in m
  {
    var gap := h.level - minLevel;
    EntryKeys();
    map["href" := Href("#" + h.id), "style" := Style(12 * gap, if gap > 0 then 13 else 14)]
  }

  /** One entry: an `a` of class `heading` (and `active` when the heading
      is), linking to `#id`, indented 12px per level below the minimum,
      in 13px type below the top level and 14px at it. */
  function Entry(h: Heading, minLevel: int): (r: Element<Prop, string>)
    ensures r.tagName == "a" && r.id == None
    ensures r.className == Some(if h.active then "heading active" else "heading")
    ensures r.children == Some(h.text)
    ensures "href" in r.props && r.props["href"] == Href("#" + h.id)
    ensures "style" in r.props && r.props["style"].Style?
    ensures r.props["style"].marginLeftPx == 12 * (h.level - minLevel)
    ensures r.props["style"].fontSizePx == 13 <==> h.level > minLevel
    ensures r.props["style"].fontSizePx == 14 <==> h.level <= minLevel
  {
    EntrySelectorParses(h.active);
    var m := EntryProps(h, minLevel);
    EntryKeys();
    HKeepsProps(EntrySelector(h.active), m, Some(h.text));
    H(EntrySelector(h.active), WithProps(m, Some(h.text)))
  }

  /** `render`: one entry per heading, in heading order. */
  function Render(s: TocState): (r: seq<Element<Prop, string>>)
    requires Valid(s)
    ensures |r| == |s.headings|
    ensures forall k :: 0 <= k < |r| ==> r[k] == Entry(s.headings[k], s.minLevel.value)
  {
    if |s.headings| == 0 then []
    else seq(|s.headings|, k requires 0 <= k < |s.headings| => Entry(s.headings[k], s.minLevel.value))
  }

  /** No entry is indented by a negative amount, and the entries in
      14px type are exactly those of the minimum level. */
  lemma RenderIndentation(s: TocState)
    requires Valid(s)
    ensures var r := Render(s);
      forall k :: 0 <= k < |r| ==>
        r[k].props["style"].marginLeftPx >= 0
        && (r[k].props["style"].fontSizePx == 14 <==> s.headings[k].level == s.minLevel.value)
  {
  }
}
