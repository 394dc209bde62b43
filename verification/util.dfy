/** The element constructor shared by the browser components
    (browser/util.js): `h(selector, props, children)` builds an element
    whose tag, id and classes come from a CSS-like selector
    `tag#id.class1.class2`. React itself is left out; the element is the
    value handed to it. */
module Util {
  import opened Base
  import opened Strings

  /** What a selector says about an element. */
  datatype Selector = Selector(tagName: string, id: Option<string>, className: Option<string>)

  /** The arguments after the selector: either a plain props object
      followed by the children, or the children alone. */
  datatype Call<V, C> =
    | WithProps(props: map<string, V>, children: Option<C>)
    | WithoutProps(children: Option<C>)

  /** The element passed to `React.createElement`; `id` and `className`
      are kept apart from the other props because the selector sets
      them. */
  datatype Element<V, C> = Element(
    tagName: string,
    props: map<string, V>,
    id: Option<string>,
    className: Option<string>,
    children: Option<C>)

  /** `x || undefined` for a string: the empty string counts as absent. */
  function NonEmpty(s: string): (r: Option<string>)
    ensures r.Some? <==> |s| > 0
    ensures r.Some? ==> r.value == s
  {
    if |s| == 0 then None else Some(s)
  }

  /** The selector is split at every `.`; the first piece is split at `#`
      into the tag and the id (a second `#` and what follows it are
      ignored); the remaining pieces are the classes, joined by spaces. */
  function ParseSelector(selector: string): (r: Selector)
    ensures '.' !in r.tagName && '#' !in r.tagName
    ensures r.id.Some? ==> |r.id.value| > 0 && '.' !in r.id.value && '#' !in r.id.value
    ensures r.className.Some? ==> |r.className.value| > 0
  {
    var parts := Split(selector, '.');
    var x := Split(parts[0], '#');
    assert '.' !in x[0] by {
      assert forall k :: 0 <= k < |x[0]| ==> x[0][k] in parts[0] by {
        JoinPieceContained(x, "#", 0);
      }
    }
    var id := if |x| > 1 then NonEmpty(x[1]) else None;
    assert id.Some? ==> '.' !in id.value by {
      if |x| > 1 {
        JoinPieceContained(x, "#", 1);
      }
    }
    Selector(x[0], id, NonEmpty(Join(parts[1..], " ")))
  }

  /** Every character of a piece occurs in the joined string. */
  lemma {:induction false} JoinPieceContained(parts: seq<string>, sep: string, i: nat)
    requires i < |parts|
    ensures forall k :: 0 <= k < |parts[i]| ==> parts[i][k] in Join(parts, sep)
    decreases |parts|
  {
    if i > 0 {
      JoinPieceContained(parts[1..], sep, i - 1);
      assert parts[1..][i - 1] == parts[i];
    }
    if |parts| > 1 {
      assert Join(parts, sep) == parts[0] + sep + Join(parts[1..], sep);
    } else {
      assert Join(parts, sep) == parts[0];
    }
  }

  /** `h`: the selector's tag, id and classes; the props without their own
      `id` and `className`, which the selector's values override; the
      children as given. The tag must not be empty. */
  function H<V, C>(selector: string, call: Call<V, C>): (r: Element<V, C>)
    requires |ParseSelector(selector).tagName| > 0
    ensures |r.tagName| > 0 && '.' !in r.tagName && '#' !in r.tagName
    ensures r.tagName == ParseSelector(selector).tagName
    ensures r.id == ParseSelector(selector).id && r.className == ParseSelector(selector).className
    ensures "id" !in r.props && "className" !in r.props
    ensures call.WithProps? ==>
      forall k :: k in call.props && k != "id" && k != "className" ==> k in r.props && r.props[k] == call.props[k]
    ensures call.WithoutProps? ==> r.props == map[]
    ensures forall k :: k in r.props ==> call.WithProps? && k in call.props
    ensures r.children == call.children
  {
    var sel := ParseSelector(selector);
    var props := if call.WithProps? then call.props - {"id", "className"} else map[];
    Element(sel.tagName, props, sel.id, sel.className, call.children)
  }

  /** Props that, as expected, carry no `id` or `className` reach the
      element unchanged. */
  lemma HKeepsProps<V, C>(selector: string, props: map<string, V>, children: Option<C>)
    requires |ParseSelector(selector).tagName| > 0
    requires "id" !in props && "className" !in props
    ensures H(selector, WithProps(props, children)).props == props
  {
    assert props - {"id", "className"} == props;
  }

  /** The part of a selector before its first class. */
  function Head(tagName: string, id: Option<string>): string
  {
    if id.Some? then tagName + "#" + id.value else tagName
  }

  /** Writes a selector from its tag, optional id and classes. */
  function Format(tagName: string, id: Option<string>, classes: seq<string>): string
  {
    Join([Head(tagName, id)] + classes, ".")
  }

  /** A well-formed selector: a non-empty tag and id free of `.` and `#`,
      and non-empty classes free of `.`. */
  predicate WellFormedParts(tagName: string, id: Option<string>, classes: seq<string>)
  {
    |tagName| > 0 && '.' !in tagName && '#' !in tagName
    && (id.Some? ==> |id.value| > 0 && '.' !in id.value && '#' !in id.value)
    && forall k :: 0 <= k < |classes| ==> |classes[k]| > 0 && '.' !in classes[k]
  }

  lemma SplitHead(tagName: string, id: Option<string>)
    requires '#' !in tagName && (id.Some? ==> '#' !in id.value)
    ensures Split(Head(tagName, id), '#') == if id.Some? then [tagName, id.value] else [tagName]
  {
    if id.Some? {
      assert Head(tagName, id) == Join([tagName, id.value], "#");
      SplitJoin([tagName, id.value], '#');
    } else {
      assert Head(tagName, id) == Join([tagName], "#");
      SplitJoin([tagName], '#');
    }
  }

  lemma SplitFormat(tagName: string, id: Option<string>, classes: seq<string>)
    requires WellFormedParts(tagName, id, classes)
    ensures Split(Format(tagName, id, classes), '.') == [Head(tagName, id)] + classes
  {
    var head := Head(tagName, id);
    var pieces := [head] + classes;
    assert '.' !in head by {
      if id.Some? {
        assert head == tagName + "#" + id.value;
        forall k | 0 <= k < |head|
          ensures head[k] != '.'
        {
          if k < |tagName| {
            assert head[k] == tagName[k];
          } else if k > |tagName| {
            assert head[k] == id.value[k - |tagName| - 1];
          }
        }
      }
    }
    forall k | 0 <= k < |pieces|
      ensures '.' !in pieces[k]
    {
      if k > 0 {
        assert pieces[k] == classes[k - 1];
      }
    }
    SplitJoin(pieces, '.');
  }

  /** Parsing a formatted selector gives back its tag, its id and its
      classes joined by spaces. */
  lemma ParseFormat(tagName: string, id: Option<string>, classes: seq<string>)
    requires WellFormedParts(tagName, id, classes)
    ensures ParseSelector(Format(tagName, id, classes))
         == Selector(tagName, id, if |classes| == 0 then None else Some(Join(classes, " ")))
  {
    SplitFormat(tagName, id, classes);
    assert ([Head(tagName, id)] + classes)[1..] == classes;
    SplitHead(tagName, id);
    if |classes| > 0 {
      JoinNonEmpty(classes, " ");
    }
  }

  lemma JoinNonEmpty(parts: seq<string>, sep: string)
    requires |parts| > 0 && |parts[0]| > 0
    ensures |Join(parts, sep)| > 0
  {
  }

  lemma FormatExample()
    ensures Format("div", Some("main"), ["note", "info"]) == "div#main.note.info"
  {
    assert Head("div", Some("main")) == "div#main";
    assert Join(["info"], ".") == "info";
    assert Join(["note", "info"], ".") == "note.info";
  }

  lemma ExampleWellFormed()
    ensures WellFormedParts("div", Some("main"), ["note", "info"])
    ensures Join(["note", "info"], " ") == "note info"
  {
    var classes := ["note", "info"];
    assert classes[0] == "note" && classes[1] == "info";
    assert Join(classes[1..], " ") == "info";
  }

  lemma ParseExample()
    ensures ParseSelector("div#main.note.info") == Selector("div", Some("main"), Some("note info"))
  {
    FormatExample();
    ExampleWellFormed();
    ParseFormat("div", Some("main"), ["note", "info"]);
  }

  /** A second `#` in the head of a selector and what follows it are
      dropped: `t#i#rest` has tag `t`, id `i` (absent when empty) and no
      class. */
  lemma SecondHashIgnored(t: string, i: string, rest: string)
    requires '.' !in t && '#' !in t && '.' !in i && '#' !in i && '.' !in rest
    ensures ParseSelector(t + "#" + i + "#" + rest) == Selector(t, NonEmpty(i), None)
  {
    var s := t + "#" + i + "#" + rest;
    assert '.' !in s by {
      assert forall k :: 0 <= k < |s| ==> s[k] in t || s[k] == '#' || s[k] in i || s[k] in rest;
    }
    SplitJoin([s], '.');
    assert Join([s], ".") == s;
    var tail := Split(rest, '#');
    var pieces := [t, i] + tail;
    assert Join(pieces, "#") == s by {
      assert pieces[1..] == [i] + tail;
      assert pieces[1..][1..] == tail;
      assert Join(pieces[1..][1..], "#") == rest;
      assert Join(pieces[1..], "#") == i + "#" + rest;
    }
    assert forall k :: 0 <= k < |pieces| ==> '#' !in pieces[k] by {
      assert forall k :: 2 <= k < |pieces| ==> pieces[k] == tail[k - 2];
    }
    SplitJoin(pieces, '#');
    assert Split(s, '.')[1..] == [];
  }

  lemma EmptyPieceJoins()
    ensures Join(["a", "", "b"], ".") == "a..b"
    ensures Join(["", "b"], " ") == " b"
  {
    var parts := ["a", "", "b"];
    assert parts[1..] == ["", "b"];
    assert ["", "b"][1..] == ["b"];
  }

  lemma EmptyPieceSplits()
    ensures Split("a..b", '.') == ["a", "", "b"]
    ensures Split("a", '#') == ["a"]
  {
    var parts := ["a", "", "b"];
    EmptyPieceJoins();
    assert '.' !in parts[0] && '.' !in parts[1] && '.' !in parts[2];
    SplitJoin(parts, '.');
    assert Join(["a"], "#") == "a";
    SplitJoin(["a"], '#');
  }

  /** An empty piece between two dots is kept as an empty class name:
      `a..b` has the class name ` b`. */
  lemma EmptyClassPieceKept()
    ensures ParseSelector("a..b") == Selector("a", None, Some(" b"))
  {
    EmptyPieceSplits();
    EmptyPieceJoins();
    assert ["a", "", "b"][1..] == ["", "b"];
  }

  /** `h('div#main.note.info', children)`. */
  lemma HExample(children: string)
    ensures var e := H<int, string>("div#main.note.info", WithoutProps(Some(children)));
      e.tagName == "div" && e.id == Some("main") && e.className == Some("note info") && e.props == map[]
  {
    ParseExample();
  }
}
