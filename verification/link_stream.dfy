/** The link-extraction stage of the link checker (test/link-stream.js).
    It consumes file paths; for every `.html` page it reads the page and
    emits one `LinkRecord` per anchor whose `href`, once normalised, is
    non-empty, is not a bare fragment and, unless external checking is on,
    does not start with `http`.

    The parsed page is the list of the anchors' `href` attributes in
    document order (`None` for a missing attribute); reading is a lookup in
    a map of readable pages, and a path missing from the map is a read
    failure. */
module LinkStream {
  import opened Base
  import opened Strings
  import opened Seqs

  datatype LinkRecord = LinkRecord(destination: string, source: string)

  /** The `href` attributes of a page's anchors, in document order. */
  type Page = seq<Option<string>>

  /** What the stage hands to its callback for one input path. */
  datatype WriteResult = Emitted(records: seq<LinkRecord>) | Failed(error: string)

  /** The transform stream; `external` is the `_external` flag. */
  datatype Stream = Stream(external: bool)

  /** `create()`: the flag is never set, so external links are skipped. */
  function Create(): Stream
  {
    Stream(false)
  }

  // ---------------------------------------------------------------------
  // path.extname

  function StripTrailingSlashes(p: string): (r: string)
    ensures |r| == 0 || r[|r| - 1] != '/'
    ensures StartsWith(p, r)
  {
    if |p| > 0 && p[|p| - 1] == '/' then StripTrailingSlashes(p[..|p| - 1]) else p
  }

  /** The text after the last `/`. */
  function BaseName(p: string): (r: string)
    ensures '/' !in r
    ensures EndsWith(p, r)
  {
    match LastIndexOfChar(p, '/')
    case None => p
    case Some(i) => p[i + 1..]
  }

  /** The last path component, ignoring trailing slashes. */
  function LastComponent(p: string): string
  {
    BaseName(StripTrailingSlashes(p))
  }

  /** `path.extname`: from the last `.` of the last component to its end,
      or empty when that component has no `.`, starts with its only `.`,
      or is `..`. */
  function ExtName(p: string): (r: string)
    ensures r == "" || (r[0] == '.' && '.' !in r[1..] && EndsWith(LastComponent(p), r) && |r| < |LastComponent(p)|)
    ensures var b := LastComponent(p);
      r == "" <==> b == ".." || forall i :: 0 < i < |b| ==> b[i] != '.'
  {
    ComponentExt(LastComponent(p))
  }

  /** The extension of one path component. */
  function ComponentExt(b: string): (r: string)
    ensures r == "" || (r[0] == '.' && '.' !in r[1..] && EndsWith(b, r) && |r| < |b|)
    ensures r == "" <==> b == ".." || forall i :: 0 < i < |b| ==> b[i] != '.'
  {
    if b == ".." then ""
    else match LastIndexOfChar(b, '.')
      case None => ""
      case Some(d) =>
        if d == 0 then NoDotAfterFirst(b); "" else b[d..]
  }

  /** A component whose last `.` is its first character has no other `.`. */
  lemma NoDotAfterFirst(b: string)
    requires |b| > 0 && '.' !in b[1..]
    ensures forall i :: 0 < i < |b| ==> b[i] != '.'
  {
    forall i | 0 < i < |b|
      ensures b[i] != '.'
    {
      assert b[i] == b[1..][i - 1];
    }
  }

  /** A path is scraped exactly when its last component ends in `.html`
      and has at least one character before that suffix. */
  lemma HtmlExtension(p: string)
    ensures ExtName(p) == ".html" <==> EndsWith(LastComponent(p), ".html") && |LastComponent(p)| > 5
  {
    var b := LastComponent(p);
    if EndsWith(b, ".html") && |b| > 5 {
      HtmlSuffixIsExtension(b);
    }
  }

  lemma HtmlSuffixIsExtension(b: string)
    requires EndsWith(b, ".html") && |b| > 5
    ensures LastIndexOfChar(b, '.') == Some(|b| - 5)
  {
    var d := |b| - 5;
    assert b[d..] == ".html";
    assert b[d] == '.';
    assert b[d + 1..] == "html";
    LastIndexOfCharUnique(b, '.', d);
  }

  // ---------------------------------------------------------------------
  // href normalisation and filtering

  predicate NoLineBreak(s: string) {
    forall k :: 0 <= k < |s| ==> !IsLineTerminator(s[k])
  }

  /** `href.replace(/html#(.*)/, 'html')`: the leftmost `html#` and the rest
      of its line become `html`. */
  function Normalise(href: string): (r: string)
    ensures !Contains(href, "html#") ==> r == href
    ensures forall i :: FirstAt(href, "html#", i) && NoLineBreak(href) ==> r == href[..i + 4]
    ensures NoLineBreak(href) ==> !Contains(r, "html#")
  {
    match IndexOf(href, "html#")
    case None => href
    case Some(i) =>
      var e := i + 5 + LineEnd(href[i + 5..]);
      var r := href[..i] + "html" + href[e..];
      if NoLineBreak(href) then
        assert LineEnd(href[i + 5..]) == |href[i + 5..]|;
        assert e == |href|;
        assert href[i..i + 5] == "html#";
        assert href[i..i + 4] == href[i..i + 5][..4];
        assert href[..i + 4] == href[..i] + href[i..i + 4];
        assert href[e..] == [];
        assert r == href[..i + 4];
        CutAtFirstMatch(href, i);
        FirstAtUnique(href, "html#", i);
        r
      else r
  }

  /** Cutting just before the `#` of the leftmost `html#` leaves no `html#`. */
  lemma CutAtFirstMatch(href: string, i: nat)
    requires FirstAt(href, "html#", i)
    ensures !Contains(href[..i + 4], "html#")
  {
    var r := href[..i + 4];
    assert href[i..i + 5] == "html#";
    forall j | 0 <= j <= |r|
      ensures !OccursAt(r, "html#", j)
    {
      if j + 5 <= |r| {
        assert r[j..j + 5] == href[j..j + 5];
        if j + 4 < i {
          assert !OccursAt(href, "html#", j);
        } else {
          assert r[j..j + 5][4] == href[j + 4] == href[i..i + 5][j + 4 - i];
        }
      }
    }
  }

  /** `$(element).attr('href') || ''`. */
  function HrefOf(attr: Option<string>): string
  {
    match attr
    case None => ""
    case Some(h) => h
  }

  /** The properties every emitted record has. */
  predicate WellFormed(rec: LinkRecord, file: string, external: bool)
  {
    && rec.source == file
    && rec.destination != ""
    && !StartsWith(rec.destination, "#")
    && (external || !StartsWith(rec.destination, "http"))
  }

  /** The record one anchor yields, if any: the normalised `href` is dropped
      when empty, when it is a bare fragment, or when it starts with `http`
      and external checking is off. */
  function RecordFor(file: string, external: bool, attr: Option<string>): (r: Option<LinkRecord>)
    ensures r.Some? <==> Survives(attr, external)
    ensures r.Some? ==> WellFormed(r.value, file, external)
    ensures r.Some? ==> r.value.destination == Normalise(HrefOf(attr))
    ensures HrefOf(attr) == "" ==> r.None?
  {
    var href := Normalise(HrefOf(attr));
    var isFragment := StartsWith(href, "#");
    if href == "" || isFragment then None
    else if StartsWith(href, "http") && !external then None
    else Some(LinkRecord(href, file))
  }

  function Keeper(file: string, external: bool): Option<string> -> Option<LinkRecord>
  {
    attr => RecordFor(file, external, attr)
  }

  /** The three filters an anchor passes to yield a record: its normalised
      `href` is not empty, is not a bare fragment, and is not an `http`
      link unless external checking is on. */
  predicate Survives(attr: Option<string>, external: bool)
  {
    var href := Normalise(HrefOf(attr));
    && href != ""
    && !StartsWith(href, "#")
    && (external || !StartsWith(href, "http"))
  }

  /** The records a page yields, one per surviving anchor in document order. */
  function Extracted(file: string, page: Page, external: bool): seq<LinkRecord>
  {
    FilterMap(page, Keeper(file, external))
  }

  /** One iteration of the scraping loop appends the anchor's record, if any. */
  lemma ExtractedStep(file: string, page: Page, i: nat, external: bool)
    requires i < |page|
    ensures var href := Normalise(HrefOf(page[i]));
      Extracted(file, page[..i + 1], external)
        == if href == "" || StartsWith(href, "#") then Extracted(file, page[..i], external)
           else if StartsWith(href, "http") && !external then Extracted(file, page[..i], external)
           else Extracted(file, page[..i], external) + [LinkRecord(href, file)]
  {
    assert page[..i + 1] == page[..i] + [page[i]];
    FilterMapAppend(page[..i], [page[i]], Keeper(file, external));
    FilterMapSingle(page[i], Keeper(file, external));
  }

  /** The `$('a').each` loop: visits the anchors in document order and
      pushes a record for each survivor. */
  method Scrape(file: string, page: Page, external: bool) returns (records: seq<LinkRecord>)
    ensures records == Extracted(file, page, external)
  {
    records := [];
    var i := 0;
    while i < |page|
      invariant 0 <= i <= |page|
      invariant records == Extracted(file, page[..i], external)
    {
      var href := HrefOf(page[i]);
      href := Normalise(href);
      var isFragment := StartsWith(href, "#");
      ExtractedStep(file, page, i, external);
      if href == "" || isFragment {
      } else if StartsWith(href, "http") && !external {
      } else {
        records := records + [LinkRecord(href, file)];
      }
      i := i + 1;
    }
    assert page[..|page|] == page;
  }

  /** `write`: a non-HTML path is skipped without error; a page that cannot
      be read fails the stage and yields nothing; otherwise the page's
      records are emitted. */
  function Write(stream: Stream, file: string, site: map<string, Page>): (r: WriteResult)
    ensures ExtName(file) != ".html" ==> r == Emitted([])
    ensures ExtName(file) == ".html" && file !in site ==> r.Failed?
    ensures ExtName(file) == ".html" && file in site ==> r == Emitted(Extracted(file, site[file], stream.external))
  {
    if ExtName(file) != ".html" then Emitted([])
    else if file !in site then Failed("cannot read " + file)
    else Emitted(Extracted(file, site[file], stream.external))
  }

  /** Every emitted record is well formed and comes from the page. */
  lemma ExtractedWellFormed(file: string, page: Page, external: bool)
    ensures forall k :: 0 <= k < |Extracted(file, page, external)| ==>
      WellFormed(Extracted(file, page, external)[k], file, external)
  {
    FilterMapAll(page, Keeper(file, external), rec => WellFormed(rec, file, external));
  }

  /** Every surviving anchor yields exactly one record and every record
      comes from a surviving anchor, in document order: `idx` maps the k-th
      record to the index of its anchor. */
  lemma OneRecordPerAnchor(file: string, page: Page, external: bool) returns (idx: seq<nat>)
    ensures |idx| == |Extracted(file, page, external)|
    ensures forall k, m :: 0 <= k < m < |idx| ==> idx[k] < idx[m]
    ensures forall k :: 0 <= k < |idx| ==>
      && idx[k] < |page|
      && Survives(page[idx[k]], external)
      && Extracted(file, page, external)[k] == LinkRecord(Normalise(HrefOf(page[idx[k]])), file)
    ensures forall i :: 0 <= i < |page| && Survives(page[i], external) ==> i in idx
  {
    idx := FilterMapIndex(page, Keeper(file, external));
    forall i | 0 <= i < |page|
      ensures Survives(page[i], external) <==> Keeper(file, external)(page[i]).Some?
    {
    }
  }

  /** For hrefs without line breaks, no emitted destination contains `html#`. */
  lemma NoHtmlFragmentEmitted(file: string, page: Page, external: bool)
    requires forall i :: 0 <= i < |page| ==> NoLineBreak(HrefOf(page[i]))
    ensures forall k :: 0 <= k < |Extracted(file, page, external)| ==>
      !Contains(Extracted(file, page, external)[k].destination, "html#")
  {
    var idx := OneRecordPerAnchor(file, page, external);
  }

  /** Under `create()` no emitted record is an `http` link. */
  lemma CreatedStreamSkipsExternal(file: string, site: map<string, Page>)
    ensures Write(Create(), file, site).Emitted? ==>
      forall k :: 0 <= k < |Write(Create(), file, site).records| ==>
        !StartsWith(Write(Create(), file, site).records[k].destination, "http")
  {
    if ExtName(file) == ".html" && file in site {
      ExtractedWellFormed(file, site[file], false);
    }
  }

  // ---------------------------------------------------------------------
  // Concrete cases

  /** A page of one anchor. */
  lemma ExtractedOne(file: string, attr: Option<string>, external: bool)
    ensures Extracted(file, [attr], external) == match RecordFor(file, external, attr)
      case Some(rec) => [rec] case None => []
  {
    FilterMapSingle(attr, Keeper(file, external));
  }

  lemma NoFragment(s: string)
    requires '#' !in s
    ensures !Contains(s, "html#")
    ensures Normalise(s) == s
  {
    forall j | 0 <= j <= |s|
      ensures !OccursAt(s, "html#", j)
    {
      if j + 5 <= |s| {
        assert s[j..j + 5][4] == s[j + 4];
      }
    }
  }

  /** A relative-to-root href without `html#` is emitted unchanged. */
  lemma RootHrefKept(file: string, h: string)
    requires |h| > 0 && h[0] == '/'
    requires !Contains(h, "html#")
    ensures Extracted(file, [Some(h)], false) == [LinkRecord(h, file)]
  {
    FirstCharDiffers(h, "#");
    FirstCharDiffers(h, "http");
    assert Normalise(HrefOf(Some(h))) == h;
    assert RecordFor(file, false, Some(h)) == Some(LinkRecord(h, file));
    ExtractedOne(file, Some(h), false);
  }

  lemma SlashFragmentHasNoHtmlFragment()
    ensures !Contains("/dir/#x", "html#")
  {
    var s := "/dir/#x";
    forall j | 0 <= j <= |s|
      ensures !OccursAt(s, "html#", j)
    {
      if j + 5 <= |s| {
        assert s[j..j + 5][0] == s[j];
      }
    }
  }

  /** A `#` not preceded by `html` is kept: `/dir/#x` is emitted as is. */
  lemma FragmentAfterSlashKept()
    ensures Extracted("/b/a.html", [Some("/dir/#x")], false) == [LinkRecord("/dir/#x", "/b/a.html")]
  {
    SlashFragmentHasNoHtmlFragment();
    RootHrefKept("/b/a.html", "/dir/#x");
  }

  lemma PlainHrefHasNoHtmlFragment()
    ensures !Contains("/c.html", "html#")
  {
    NoFragment("/c.html");
  }

  /** Nothing removes duplicates: the same anchor twice gives two records. */
  lemma DuplicatesKept()
    ensures Extracted("/b/a.html", [Some("/c.html"), Some("/c.html")], false)
         == [LinkRecord("/c.html", "/b/a.html"), LinkRecord("/c.html", "/b/a.html")]
  {
    PlainHrefHasNoHtmlFragment();
    RootHrefKept("/b/a.html", "/c.html");
    assert [Some("/c.html"), Some("/c.html")] == [Some("/c.html")] + [Some("/c.html")];
    FilterMapAppend([Some("/c.html")], [Some("/c.html")], Keeper("/b/a.html", false));
  }

  /** `/b.html#section` becomes `/b.html`. */
  lemma HtmlFragmentStripped()
    ensures Extracted("build/a.html", [Some("/b.html#section")], false) == [LinkRecord("/b.html", "build/a.html")]
  {
    ExampleNormalised();
    FirstCharDiffers("/b.html", "#");
    FirstCharDiffers("/b.html", "http");
    ExtractedOne("build/a.html", Some("/b.html#section"), false);
  }

  lemma LiteralHasNoLineBreak()
    ensures NoLineBreak("/b.html#section")
  {
  }

  lemma ExampleNormalised()
    ensures Normalise("/b.html#section") == "/b.html"
  {
    var h := "/b.html#section";
    LiteralHasNoLineBreak();
    assert OccursAt(h, "html#", 3);
    forall j | 0 <= j < 3
      ensures !OccursAt(h, "html#", j)
    {
      assert h[j..j + 5][0] == h[j];
    }
    assert FirstAt(h, "html#", 3);
    assert h[..7] == "/b.html";
  }

  /** A bare fragment and a missing attribute yield nothing; an external
      link yields a record only when external checking is on. */
  lemma SkippedAnchors()
    ensures Extracted("build/a.html", [Some("#top")], true) == []
    ensures Extracted("build/a.html", [None], true) == []
    ensures Extracted("build/a.html", [Some("http://example.com")], false) == []
    ensures Extracted("build/a.html", [Some("http://example.com")], true)
         == [LinkRecord("http://example.com", "build/a.html")]
  {
    BareFragmentSkipped();
    MissingHrefSkipped();
    ExternalSkipped();
    ExternalKept();
  }

  lemma BareFragmentSkipped()
    ensures Extracted("build/a.html", [Some("#top")], true) == []
  {
    ExtractedOne("build/a.html", Some("#top"), true);
  }

  lemma MissingHrefSkipped()
    ensures Extracted("build/a.html", [None], true) == []
  {
    ExtractedOne("build/a.html", None, true);
  }

  lemma ExternalSkipped()
    ensures Extracted("build/a.html", [Some("http://example.com")], false) == []
  {
    var href := "http://example.com";
    HttpRecord("build/a.html", href, false);
    ExtractedOne("build/a.html", Some(href), false);
  }

  lemma ExternalKept()
    ensures Extracted("build/a.html", [Some("http://example.com")], true)
         == [LinkRecord("http://example.com", "build/a.html")]
  {
    var href := "http://example.com";
    HttpRecord("build/a.html", href, true);
    ExtractedOne("build/a.html", Some(href), true);
  }

  /** An `http` href without `#` is kept exactly when external checking is on. */
  lemma HttpRecord(file: string, href: string, external: bool)
    requires '#' !in href && |href| >= 4 && href[..4] == "http"
    ensures RecordFor(file, external, Some(href))
         == if external then Some(LinkRecord(href, file)) else None
  {
    NoFragment(href);
    FirstCharDiffers(href, "#");
  }
}
