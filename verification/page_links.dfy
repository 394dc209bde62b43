/** The link-validation test (test/test-page-links.js): every record the
    extraction stage emits is checked for being site-root absolute and for
    naming something that exists under the build directory, where a
    directory stands for its `index.html`. Each check is an assertion in the
    test report; a broken link never stops the run, and the run ends with
    one assertion that the streaming pipeline did not fail.

    The file system is an immutable map from path to `File` or `Dir`;
    `path.join` is concatenation with exactly one `/` at the seam. */
module PageLinks {
  import opened Base
  import opened Strings
  import opened Seqs
  import LinkStream

  datatype Node = File | Dir

  type FileSystem = map<string, Node>

  /** One `t.equal` / `t.error` outcome of the test report. */
  datatype Assertion = Assertion(ok: bool, message: string)

  /** `path.join(a, b)` without normalisation of `.` and `..`. */
  function Join(a: string, b: string): (r: string)
    ensures |r| >= |a| + |b| - 1
    ensures StartsWith(r, a)
  {
    if EndsWith(a, "/") && StartsWith(b, "/") then a + b[1..]
    else if EndsWith(a, "/") || StartsWith(b, "/") then a + b
    else a + "/" + b
  }

  // ---------------------------------------------------------------------
  // stat

  /** The entries of `fs` at least as long as `p`: the recursion of `Stat`
      only ever moves to longer paths, so this set shrinks. */
  ghost function LongerEntries(fs: FileSystem, p: string): set<string>
  {
    set q | q in fs.Keys && |q| >= |p|
  }

  lemma LongerEntriesShrink(fs: FileSystem, p: string, q: string)
    requires p in fs && |q| > |p|
    ensures LongerEntries(fs, q) < LongerEntries(fs, p)
  {
    assert p in LongerEntries(fs, p) && p !in LongerEntries(fs, q);
  }

  /** The helper `stat`: a missing path fails, a directory is replaced by
      its `index.html`, anything else succeeds with the path found. */
  function Stat(fs: FileSystem, p: string): (r: Result<string>)
    ensures r.Ok? ==> r.value in fs && fs[r.value] .File?
    ensures p !in fs ==> r.Err?
    ensures p in fs && fs[p] .File? ==> r == Ok(p)
    decreases LongerEntries(fs, p)
  {
    if p !in fs then Err("ENOENT: no such file or directory, stat '" + p + "'")
    else if fs[p].Dir? then
      LongerEntriesShrink(fs, p, Join(p, "index.html"));
      Stat(fs, Join(p, "index.html"))
    else Ok(p)
  }

  /** `p`, then `p/index.html`, then `p/index.html/index.html`, ... */
  function IndexChain(p: string, n: nat): string
    decreases n
  {
    if n == 0 then p else IndexChain(Join(p, "index.html"), n - 1)
  }

  /** The n-th link of the chain from `p` is a file and all earlier links
      are directories. */
  predicate ChainEndsInFile(fs: FileSystem, p: string, n: nat)
  {
    && (forall k :: 0 <= k < n ==> IndexChain(p, k) in fs && fs[IndexChain(p, k)] .Dir?)
    && IndexChain(p, n) in fs && fs[IndexChain(p, n)] .File?
  }

  /** A directory stats exactly like its `index.html`. */
  lemma StatDirectory(fs: FileSystem, p: string)
    requires p in fs && fs[p].Dir?
    ensures Stat(fs, p) == Stat(fs, Join(p, "index.html"))
  {
  }

  /** `stat` succeeds exactly when the chain of `index.html` lookups from
      `p` runs through directories and ends in a file. */
  lemma {:induction false} StatSucceedsIff(fs: FileSystem, p: string)
    ensures Stat(fs, p).Ok? <==> exists n: nat :: ChainEndsInFile(fs, p, n)
    decreases LongerEntries(fs, p)
  {
    var next := Join(p, "index.html");
    if p in fs && fs[p].Dir? {
      LongerEntriesShrink(fs, p, next);
      StatSucceedsIff(fs, next);
      if Stat(fs, p).Ok? {
        var n: nat :| ChainEndsInFile(fs, next, n);
        ChainShift(fs, p, n);
        assert ChainEndsInFile(fs, p, n + 1);
      }
      if n: nat :| ChainEndsInFile(fs, p, n) {
        assert n != 0 by { assert IndexChain(p, 0) == p; }
        ChainShift(fs, p, n - 1);
        assert ChainEndsInFile(fs, next, n - 1);
      }
    } else if p in fs {
      assert ChainEndsInFile(fs, p, 0);
    } else {
      if n: nat :| ChainEndsInFile(fs, p, n) {
        assert IndexChain(p, 0) == p;
        assert false;
      }
    }
  }

  /** From a directory, the chain of `p` is the chain of `p/index.html`
      one step later. */
  lemma ChainShift(fs: FileSystem, p: string, n: nat)
    requires p in fs && fs[p].Dir?
    ensures ChainEndsInFile(fs, p, n + 1) <==> ChainEndsInFile(fs, Join(p, "index.html"), n)
  {
    var next := Join(p, "index.html");
    assert forall k :: 0 <= k <= n ==> IndexChain(p, k + 1) == IndexChain(next, k);
    if ChainEndsInFile(fs, next, n) {
      forall k | 0 <= k < n + 1
        ensures IndexChain(p, k) in fs && fs[IndexChain(p, k)] == Dir
      {
        if k > 0 {
          assert IndexChain(p, k) == IndexChain(next, k - 1);
        }
      }
    }
  }

  // ---------------------------------------------------------------------
  // Checking one record

  /** `href[0] === '/'`. */
  predicate IsAbsolute(href: string)
  {
    |href| > 0 && href[0] == '/'
  }

  /** The authored Markdown page a built page came from: the first
      occurrence of the build root becomes `./content`, then the first
      `.html` becomes `.md`. */
  function SourcePath(build: string, source: string): (r: string)
    ensures StartsWith(source, build) ==>
      var rest := source[|build|..];
      && (!Contains(rest, ".html") ==> r == "./content" + rest)
      && (forall j :: FirstAt(rest, ".html", j) ==> r == "./content" + rest[..j] + ".md" + rest[j + 5..])
  {
    if StartsWith(source, build) then
      BuildRootAtStart(build, source);
      SuffixToMd(source[|build|..]);
      ReplaceFirst("./content" + source[|build|..], ".html", ".md")
    else ReplaceFirst(ReplaceFirst(source, build, "./content"), ".html", ".md")
  }

  /** Replacing the first `.html` after the `./content` prefix. */
  lemma SuffixToMd(rest: string)
    ensures !Contains(rest, ".html") ==> ReplaceFirst("./content" + rest, ".html", ".md") == "./content" + rest
    ensures forall j :: FirstAt(rest, ".html", j) ==>
      ReplaceFirst("./content" + rest, ".html", ".md") == "./content" + rest[..j] + ".md" + rest[j + 5..]
  {
    var t := "./content" + rest;
    ContentPrefixShift(rest);
    forall j | FirstAt(rest, ".html", j)
      ensures ReplaceFirst(t, ".html", ".md") == "./content" + rest[..j] + ".md" + rest[j + 5..]
    {
      assert FirstAt(t, ".html", j + 9);
      assert t[..j + 9] == "./content" + rest[..j];
      assert t[j + 9 + 5..] == rest[j + 5..];
    }
  }

  /** A path under the build root has the root as its first occurrence. */
  lemma BuildRootAtStart(build: string, source: string)
    requires StartsWith(source, build)
    ensures ReplaceFirst(source, build, "./content") == "./content" + source[|build|..]
  {
    assert FirstAt(source, build, 0);
  }

  /** `.html` never starts inside `./content`, so its occurrences after
      that prefix are those of the rest, moved by nine. */
  lemma ContentPrefixShift(rest: string)
    ensures forall p :: 0 <= p < 9 ==> !OccursAt("./content" + rest, ".html", p)
    ensures forall p :: 0 <= p ==> (OccursAt("./content" + rest, ".html", p + 9) <==> OccursAt(rest, ".html", p))
    ensures !Contains(rest, ".html") ==> !Contains("./content" + rest, ".html")
    ensures forall j :: FirstAt(rest, ".html", j) ==> FirstAt("./content" + rest, ".html", j + 9)
  {
    var t := "./content" + rest;
    forall p | 0 <= p < 9
      ensures !OccursAt(t, ".html", p)
    {
      if p + 5 <= |t| {
        assert t[p..p + 5][0] == t[p] && t[p..p + 5][1] == t[p + 1];
      }
    }
    forall p | 0 <= p
      ensures OccursAt(t, ".html", p + 9) <==> OccursAt(rest, ".html", p)
    {
      if p + 5 <= |rest| {
        assert t[p + 9..p + 9 + 5] == rest[p..p + 5];
      }
    }
    if !Contains(rest, ".html") {
      forall p | 0 <= p <= |t|
        ensures !OccursAt(t, ".html", p)
      {
        if p >= 9 {
          assert !OccursAt(rest, ".html", p - 9);
        }
      }
    }
    forall j | FirstAt(rest, ".html", j)
      ensures FirstAt(t, ".html", j + 9)
    {
      forall p | 0 <= p < j + 9
        ensures !OccursAt(t, ".html", p)
      {
        if p >= 9 {
          assert !OccursAt(rest, ".html", p - 9);
        }
      }
    }
  }

  /** `format('"%s" links to "%s" - ', source, href)`. */
  function Prefix(source: string, href: string): string
  {
    "\"" + source + "\" links to \"" + href + "\" - "
  }

  /** The two assertions the test makes about one record: the destination
      is absolute, and `join(build, destination)` stats successfully. The
      second is made whatever the first concluded. */
  function Validate(build: string, fs: FileSystem, rec: LinkStream.LinkRecord): (r: seq<Assertion>)
    ensures |r| == 2
    ensures r[0].ok <==> |rec.destination| > 0 && rec.destination[0] == '/'
    ensures r[1].ok <==> exists n: nat :: ChainEndsInFile(fs, Join(build, rec.destination), n)
    ensures forall k :: 0 <= k < 2 ==> StartsWith(r[k].message, Prefix(SourcePath(build, rec.source), rec.destination))
  {
    var href := rec.destination;
    var source := SourcePath(build, rec.source);
    var prefix := Prefix(source, href);
    var file := Join(build, href);
    StatSucceedsIff(fs, file);
    [ Assertion(IsAbsolute(href), prefix + " should be absolute"),
      Assertion(Stat(fs, file).Ok?, prefix + " should exist") ]
  }

  function Validator(build: string, fs: FileSystem): LinkStream.LinkRecord -> seq<Assertion>
  {
    rec => Validate(build, fs, rec)
  }

  /** The assertions for a sequence of records, two per record in order. */
  function ValidateAll(build: string, fs: FileSystem, recs: seq<LinkStream.LinkRecord>): (r: seq<Assertion>)
    ensures |r| == 2 * |recs|
  {
    FlatMapPairs(recs, Validator(build, fs))
  }

  /** A failed check never stops later records: the pair of assertions of
      record `k` sits at positions `2k` and `2k + 1`. */
  lemma ValidateAllPairs(build: string, fs: FileSystem, recs: seq<LinkStream.LinkRecord>, k: nat)
    requires k < |recs|
    ensures ValidateAll(build, fs, recs)[2 * k] == Validate(build, fs, recs[k])[0]
    ensures ValidateAll(build, fs, recs)[2 * k + 1] == Validate(build, fs, recs[k])[1]
  {
    FlatMapPairsAt(recs, Validator(build, fs), k);
  }

  // ---------------------------------------------------------------------
  // The whole run

  /** The position of the first file the stage fails on, or the number of
      files when it fails on none. */
  function FirstFailure(files: seq<string>, write: string -> LinkStream.WriteResult): (i: nat)
    ensures i <= |files|
    ensures forall j :: 0 <= j < i ==> write(files[j]).Emitted?
    ensures i < |files| ==> write(files[i]).Failed?
    decreases |files|
  {
    if |files| == 0 || write(files[0]).Failed? then 0
    else
      var i := FirstFailure(files[1..], write);
      assert forall j :: 1 <= j < |files| ==> files[j] == files[1..][j - 1];
      i + 1
  }

  /** The records of the files, in order; a failed file contributes none. */
  function AllRecords(files: seq<string>, write: string -> LinkStream.WriteResult): seq<LinkStream.LinkRecord>
    decreases |files|
  {
    if |files| == 0 then []
    else
      (match write(files[0]) case Emitted(recs) => recs case Failed(_) => [])
      + AllRecords(files[1..], write)
  }

  /** The records validated before the pipeline stopped, and the error that
      stopped it, if any. Files are handed to the extraction stage `write`
      one after the other; a failure of that stage ends the run. */
  function Crawl(files: seq<string>, write: string -> LinkStream.WriteResult)
    : (r: (seq<LinkStream.LinkRecord>, Option<string>))
    ensures var i := FirstFailure(files, write);
      && r.0 == AllRecords(files[..i], write)
      && (r.1.Some? <==> i < |files|)
      && (i < |files| ==> r.1 == Some(write(files[i]).error))
    decreases |files|
  {
    if |files| == 0 then ([], None)
    else match write(files[0])
      case Failed(e) =>
        assert files[..0] == [];
        ([], Some(e))
      case Emitted(recs) =>
        var (rest, err) := Crawl(files[1..], write);
        var i := FirstFailure(files[1..], write);
        assert files[..i + 1][1..] == files[1..][..i];
        assert files[..i + 1][0] == files[0];
        (recs + rest, err)
  }

  /** The extraction stage of a run. */
  function Stage(stream: LinkStream.Stream, site: map<string, LinkStream.Page>): string -> LinkStream.WriteResult
  {
    file => LinkStream.Write(stream, file, site)
  }

  /** The test report of one run: the per-record assertions, then whether
      the pipeline ended without error. `walkError` is an error of the file
      walk after it produced `files`. */
  function Run(build: string, fs: FileSystem, stream: LinkStream.Stream, files: seq<string>,
               walkError: Option<string>, site: map<string, LinkStream.Page>): (r: seq<Assertion>)
    ensures var (recs, err) := Crawl(files, Stage(stream, site));
      && |r| == 2 * |recs| + 1
      && (r[|r| - 1].ok <==> err.None? && walkError.None?)
      && r[..|r| - 1] == ValidateAll(build, fs, recs)
  {
    var (recs, err) := Crawl(files, Stage(stream, site));
    var failed := err.Some? || walkError.Some?;
    ValidateAll(build, fs, recs) + [Assertion(!failed, "streaming link pipeline should not error")]
  }

  /** The run stops early exactly when the stage fails on some file. */
  lemma {:induction false} CrawlStopsIff(files: seq<string>, write: string -> LinkStream.WriteResult)
    ensures Crawl(files, write).1.Some? <==> exists i :: 0 <= i < |files| && write(files[i]).Failed?
    decreases |files|
  {
    if |files| > 0 && write(files[0]).Emitted? {
      CrawlStopsIff(files[1..], write);
      if exists i :: 0 <= i < |files| && write(files[i]).Failed? {
        var i :| 0 <= i < |files| && write(files[i]).Failed?;
        assert files[1..][i - 1] == files[i];
      }
      if exists i :: 0 <= i < |files| - 1 && write(files[1..][i]).Failed? {
        var i :| 0 <= i < |files| - 1 && write(files[1..][i]).Failed?;
        assert files[1..][i] == files[i + 1];
      }
    }
  }

  /** An HTML file the extraction stage cannot read. */
  predicate Unreadable(file: string, site: map<string, LinkStream.Page>)
  {
    LinkStream.ExtName(file) == ".html" && file !in site
  }

  /** The final assertion of a run fails exactly when the walk failed or
      some walked HTML file cannot be read. */
  lemma RunFailsIff(build: string, fs: FileSystem, stream: LinkStream.Stream, files: seq<string>,
                    walkError: Option<string>, site: map<string, LinkStream.Page>)
    ensures var r := Run(build, fs, stream, files, walkError, site);
      !r[|r| - 1].ok <==> walkError.Some? || exists i :: 0 <= i < |files| && Unreadable(files[i], site)
  {
    CrawlStopsIff(files, Stage(stream, site));
    forall i | 0 <= i < |files|
      ensures Stage(stream, site)(files[i]).Failed? <==> Unreadable(files[i], site)
    {
    }
  }

  // ---------------------------------------------------------------------
  // Concrete cases

  /** `<build>/a.html` is reported as `./content/a.md`, whatever the build root. */
  lemma SourcePathExample(build: string)
    ensures SourcePath(build, build + "/a.html") == "./content/a.md"
  {
    var rest := "/a.html";
    ExampleFirstHtml();
    SourcePathUnder(build, rest, 2);
    assert rest[..2] == "/a" && rest[7..] == "";
    assert "./content" + "/a" + ".md" + "" == "./content/a.md";
  }

  /** A page `build + rest` whose first `.html` after the root is at `j`. */
  lemma SourcePathUnder(build: string, rest: string, j: nat)
    requires FirstAt(rest, ".html", j)
    ensures SourcePath(build, build + rest) == "./content" + rest[..j] + ".md" + rest[j + 5..]
  {
    var source := build + rest;
    assert source[..|build|] == build && source[|build|..] == rest;
  }

  lemma ExampleFirstHtml()
    ensures FirstAt("/a.html", ".html", 2)
  {
    var rest := "/a.html";
    forall p | 0 <= p < 2
      ensures !OccursAt(rest, ".html", p)
    {
      assert rest[p..p + 5][0] == rest[p];
    }
    assert rest[2..7] == ".html";
  }

  /** A relative destination fails the absolute check, and its existence is
      still checked, at `join(build, destination)`. */
  lemma RelativeLinkStillStatted(build: string, fs: FileSystem)
    ensures var r := Validate(build, fs, LinkStream.LinkRecord("relative.html", build + "/a.html"));
      !r[0].ok && (r[1].ok <==> Stat(fs, Join(build, "relative.html")).Ok?)
  {
    StatSucceedsIff(fs, Join(build, "relative.html"));
  }

  /** `/tutorials/` resolves to `/tutorials/index.html` when it is a directory. */
  lemma DirectoryDestination(build: string)
    requires !EndsWith(build, "/")
    ensures var fs := map[build + "/tutorials/" := Dir, build + "/tutorials/index.html" := File];
      Stat(fs, Join(build, "/tutorials/")) == Ok(build + "/tutorials/index.html")
  {
    var d, f := build + "/tutorials/", build + "/tutorials/index.html";
    TutorialsJoin(build);
    IndexJoin(d);
    TutorialsIndex(build);
    StatDirectoryThenFile(d, f);
  }

  lemma TutorialsIndex(build: string)
    ensures build + "/tutorials/" + "index.html" == build + "/tutorials/index.html"
  {
    assert "/tutorials/" + "index.html" == "/tutorials/index.html";
  }

  /** A directory `d` whose `index.html` is the file `f`. */
  lemma StatDirectoryThenFile(d: string, f: string)
    requires d != f && Join(d, "index.html") == f
    ensures Stat(map[d := Dir, f := File], d) == Ok(f)
  {
  }

  lemma TutorialsJoin(build: string)
    requires !EndsWith(build, "/")
    ensures Join(build, "/tutorials/") == build + "/tutorials/"
  {
    assert StartsWith("/tutorials/", "/");
  }

  lemma IndexJoin(d: string)
    requires EndsWith(d, "/")
    ensures Join(d, "index.html") == d + "index.html"
  {
    FirstCharDiffers("index.html", "/");
  }
}
