# Vanadium website front end and link checker, modelled in Dafny

This project models the logic of the Vanadium documentation site. That
logic falls into three groups:

- **The link checker.** The extraction stage (`test/link-stream.js`) reads
  each built `.html` page and emits one record per anchor, after it
  normalises the href and filters it. The validation test
  (`test/test-page-links.js`) checks that each record's destination is
  absolute and that it exists in the build directory. A directory stands
  for its `index.html`, recursively.
- **The Markdown helpers** (`helpers.js`). These are the template tags
  `hidden`, `info`, `warning`, `code`, `codeoutput` and `codedim`.
- **The browser code.**
  - The element constructor `h` (`browser/util.js`).
  - The table of contents (`browser/toc.js`).
  - The sidebar tree (`browser/sidebar.js`).
  - The copy-to-clipboard button state machine (`browser/clipboard.js`).
  - The page start-up decisions (`browser/index.js`).

Everything is modelled as immutable data and pure functions:

- The file system is a map from path to `File` or `Dir`.
- A parsed page is the list of its anchors' `href` attributes.
- The DOM pieces the browser code reads are datatypes.
- Page geometry is a snapshot of booleans.
- URL parsing and `marked` are function parameters.
- Time is a timestamp carried by each event.

Modules, one per source file:

- `LinkStream` (link extraction).
- `PageLinks` (validation and the whole run).
- `Helpers`.
- `Util`.
- `Toc`.
- `Sidebar`.
- `Clipboard`.
- `Bootstrap` (`browser/index.js`).

Shared modules:

- `Base` holds `Option` and `Result`.
- `Strings` holds the JavaScript string operations the code relies on:
  `indexOf`, `replace` of a first occurrence, `split`, `join` and the regular
  expression character classes `\s` and line terminators.
- `Seqs` holds a filter-map over sequences and its index lemmas.

Four behaviours of the link checker are worth spelling out. The model
follows the code in each:

- **Fragments.** The header comment of `test/link-stream.js` (lines 5-8)
  says the stream strips fragments from URLs. The code only replaces the
  leftmost `html#…` (through to the end of the line) with `html`. So
  `/dir/#x` is emitted unchanged (`LinkStream.FragmentAfterSlashKept`). A
  general URL fragment starts at the first `#` (section 3.5 of RFC 3986),
  so the code's rule is narrower than that.
- **Duplicates.** The same header comment says each URL is emitted at most
  once. Nothing removes duplicates (`LinkStream.DuplicatesKept`).
- **External links.** An href counts as external exactly when it starts
  with `http` (the pattern `/^http/`). Other schemes, such as `mailto:`,
  are treated as links into the site.
- **Directories.** Whether a destination stands for an `index.html` is
  decided by `stat`, not by how the path is written. Any directory is
  statted again as its `index.html`, repeatedly, until a non-directory or
  a missing path is reached (`PageLinks.StatSucceedsIff`).

Predicates and small definitions that transcribe one source expression
carry no contract of their own. Each is described by the rows of the
lemmas about it:

- `Sidebar.IsActive` (browser/sidebar.js:17) and `Sidebar.HasActiveItem`
  (browser/sidebar.js:22-30) by `Sidebar.HasActiveItemIff`,
  `Sidebar.InitialNavState` and `Sidebar.LinkElement`.
- `Bootstrap.ClipboardEnabled` (browser/index.js:56) and
  `Bootstrap.ScrollListened` (browser/index.js:62) by `Bootstrap.Start`
  and `Bootstrap.LandingPage`.
- `LinkStream.Create` (test/link-stream.js:16) by
  `LinkStream.CreatedStreamSkipsExternal`.
- `PageLinks.IsAbsolute` (test/test-page-links.js:35) and
  `PageLinks.Prefix` (test/test-page-links.js:33) by `PageLinks.Validate`.

## Model

| member | source | states |
|---|---|---|
| LinkStream.ExtName | test/link-stream.js:25 | `path.extname` is empty, or a `.`-initial suffix of the last path component that has no further `.` and is shorter than the component; it is empty exactly when that component is `..` or has no `.` after its first character |
| LinkStream.HtmlExtension | test/link-stream.js:25-28 | a path is scraped exactly when its last component ends in `.html` with at least one character before it |
| LinkStream.Normalise | test/link-stream.js:41 | an href without `html#` is unchanged; otherwise, for a line-break-free href, the result is the href cut just after the `html` of its first `html#`, and it contains no `html#` |
| LinkStream.CutAtFirstMatch | test/link-stream.js:41 | cutting at the first `html#` leaves no `html#` behind |
| LinkStream.RecordFor | test/link-stream.js:39-61 | a record exists only for a well-formed href, meaning non-empty, not starting with `#`, and not `http…` unless external checking is on; its destination is the normalised href; a missing or empty href gives none |
| LinkStream.Scrape | test/link-stream.js:38-62 | the anchor loop emits exactly the filter-map of the page by `RecordFor`, in document order |
| LinkStream.Write | test/link-stream.js:20-65 | a non-`.html` path yields no records and no error; an unreadable page yields an error and no records; a readable page yields its extracted records |
| LinkStream.ExtractedWellFormed | test/link-stream.js:44-61 | every emitted record has the input path as source and a non-empty destination that is not a bare fragment and, unless external checking is on, not an `http` link |
| LinkStream.OneRecordPerAnchor | test/link-stream.js:38-61 | each record comes from one surviving anchor and carries its normalised href; records follow document order; every surviving anchor yields a record |
| LinkStream.NoHtmlFragmentEmitted | test/link-stream.js:41 | for hrefs without line breaks, no emitted destination contains `html#` |
| LinkStream.CreatedStreamSkipsExternal | test/link-stream.js:16-56 | a stream made by `create()` never emits an `http` destination |
| LinkStream.FragmentAfterSlashKept | test/link-stream.js:5-41 | `/dir/#x` is emitted as it is, so the fragment is not stripped |
| LinkStream.DuplicatesKept | test/link-stream.js:5-61 | the same anchor twice yields two identical records |
| LinkStream.HtmlFragmentStripped | test/link-stream.js:41 | `/b.html#section` is emitted as `/b.html` |
| LinkStream.HttpRecord | test/link-stream.js:50-61 | an `http` href without `#` yields a record with that destination iff external checking is on |
| LinkStream.SkippedAnchors | test/link-stream.js:39-56 | a bare fragment and a missing `href` yield nothing; an `http` link yields a record only with external checking on |
| PageLinks.Join | test/test-page-links.js:38-65 | the joined path starts with the first part and loses at most the one duplicated `/` |
| PageLinks.Stat | test/test-page-links.js:57-70 | success names an existing file; a missing path fails; an existing non-directory succeeds at once with its own path; the recursion terminates on a finite map |
| PageLinks.StatDirectory | test/test-page-links.js:64-65 | `stat` of a directory is `stat` of its `index.html` |
| PageLinks.StatSucceedsIff | test/test-page-links.js:57-70 | `stat` succeeds exactly when some chain `p`, `p/index.html`, `p/index.html/index.html`, … passes only through directories and ends in a file |
| PageLinks.Validate | test/test-page-links.js:26-42 | one record gives two assertions; the first holds iff the destination's first character is `/`; the second holds iff the joined destination resolves to a file, whatever the first says; both messages start with the `"source" links to "href" - ` prefix |
| PageLinks.ValidateAll | test/test-page-links.js:23-43 | every record yields exactly two assertions, so a broken link never stops the records after it |
| PageLinks.ValidateAllPairs | test/test-page-links.js:35-42 | assertions `2k` and `2k+1` are the absolute and existence checks of record `k` |
| PageLinks.Run | test/test-page-links.js:17-55 | the report is the per-record assertions of every record extracted before any failure, followed by one final assertion that holds iff neither the walk nor the extraction failed |
| PageLinks.FirstFailure | test/test-page-links.js:51 | the position of the first file the extraction stage fails on, or the number of files; every file before it succeeds |
| PageLinks.Crawl | test/test-page-links.js:45-54 | the records reaching validation are those of the files before the first failing one, in order; the pipeline reports an error iff some file fails, and then it is that file's error |
| PageLinks.CrawlStopsIff | test/test-page-links.js:51 | the pipeline ends with an error exactly when the extraction stage fails on some walked file |
| PageLinks.RunFailsIff | test/test-page-links.js:51-54 | the final assertion fails exactly when the walk failed or some walked `.html` file is unreadable |
| PageLinks.SourcePath | test/test-page-links.js:30-32 | for a page under the build root, the root becomes `./content` and the first `.html` after it, if any, becomes `.md`; the rest of the path is kept |
| PageLinks.SourcePathUnder | test/test-page-links.js:30-32 | a page `build + rest` whose first `.html` after the root is at `j` is reported as `./content` + `rest` with that `.html` turned into `.md` |
| PageLinks.SourcePathExample | test/test-page-links.js:30-32 | `<build>/a.html` is reported as `./content/a.md`, for any build root |
| PageLinks.RelativeLinkStillStatted | test/test-page-links.js:35-40 | a relative destination fails the absolute check and is still looked up at `join(build, destination)` |
| PageLinks.DirectoryDestination | test/test-page-links.js:38-65 | `/tutorials/` resolves to `<build>/tutorials/index.html` |
| Helpers.Hidden | helpers.js:8-10 | the result is empty for every input |
| Helpers.DropLeading | helpers.js:34-47 | removes exactly the longest prefix of matching characters |
| Helpers.DropTrailing | helpers.js:34-47 | removes exactly the longest suffix of matching characters |
| Helpers.Trim | helpers.js:45 | the result neither starts nor ends with whitespace |
| Helpers.TrimFramed | helpers.js:45 | whitespace around a core that starts and ends with non-whitespace is all that trimming removes |
| Helpers.TrimIdempotent | helpers.js:45 | trimming twice is trimming once |
| Helpers.MkCode | helpers.js:43-47 | the output is `<pre><code class="C">`, then a body with no leading or trailing whitespace, then `</code></pre>\n` |
| Helpers.MkCodeFramed | helpers.js:43-47 | the body is exactly the text without its surrounding whitespace |
| Helpers.Code | helpers.js:23-25 | the block has class `noclipboard` |
| Helpers.CodeOutput | helpers.js:29-31 | the block has class `noclipboard nohighlight` and is otherwise the block `code` writes for the same text |
| Helpers.CodeDim | helpers.js:34-37 | the output is wrapped in `<dim><dim-children>`…`</dim-children></dim>\n`, and the body neither starts with `\n` nor ends with whitespace |
| Helpers.CodeDimFramed | helpers.js:35-36 | only leading newlines and trailing whitespace are removed; leading spaces stay |
| Helpers.CodeDimKeepsIndent | helpers.js:35-36 | `\n\n  x  \n` keeps its two leading spaces |
| Helpers.Unindent | helpers.js:50-52 | removing indentation keeps every line break, and no line of the result starts with a space or tab |
| Helpers.UnindentProperties | helpers.js:50-52 | `unindent` keeps every line break, so the line count is unchanged; no line of its result starts with a space or tab; it is idempotent |
| Helpers.UnindentLine | helpers.js:50-52 | line by line, a line loses its leading spaces and tabs and keeps everything else |
| Helpers.Note | helpers.js:13-20 | a note of kind `K` is `<div class="note K">`, then `marked` applied to the unindented text, then `</div>\n` |
| Helpers.Info | helpers.js:13-15 | an `info` block is a note of class `note info` around `marked` of the unindented text |
| Helpers.Warning | helpers.js:18-20 | a `warning` block is a note of class `note warning` around `marked` of the unindented text |
| Helpers.NoteIgnoresIndentation | helpers.js:13-20 | a note of already unindented text is the same note, so indentation never reaches `marked` |
| Util.NonEmpty | browser/util.js:20-21 | `x \|\| undefined` on a string: empty becomes absent |
| Util.ParseSelector | browser/util.js:15-17 | the tag has no `.` or `#`; an id is non-empty and has no `.` or `#`; a class name is non-empty |
| Util.H | browser/util.js:8-24 | the tag, id and class name are those parsed from the selector, and the tag is non-empty; the props lose their own `id` and `className`, which the selector overrides, and are otherwise kept; a non-object second argument becomes the children with empty props |
| Util.HKeepsProps | browser/util.js:10-22 | props that, as asserted, have no `id` or `className` reach the element unchanged |
| Util.ParseFormat | browser/util.js:15-21 | parsing `tag#id.c1.c2` gives back the tag, the id and `c1 c2`, or no class name when there are no classes |
| Util.SecondHashIgnored | browser/util.js:15-16 | in `t#i#rest` (no `.`), the second `#` and what follows it are dropped: tag `t`, id `i` (absent when empty), no class name |
| Util.EmptyClassPieceKept | browser/util.js:15-21 | an empty piece between two dots stays in the class name: `a..b` has class name ` b` |
| Util.HExample | browser/util.js:8-24 | `h('div#main.note.info', children)` has tag `div`, id `main`, class `note info` and no props |
| Toc.MinLevel | browser/toc.js:16 | the minimum is one of the levels and at most every level; it is absent only for no headings |
| Toc.InitialState | browser/toc.js:14-18 | the initial state keeps the props and satisfies the minimum-level invariant |
| Toc.HandleScroll | browser/toc.js:26-41 | exactly one heading is active when there are any and none otherwise; it is the first where the loop stops; every earlier heading is above the window; nothing but `active` changes |
| Toc.HandleHashChange | browser/toc.js:19-25 | a heading is active iff `#` + its id equals the hash; nothing else changes |
| Toc.HashChangeActivatesAtMostOne | browser/toc.js:20-24 | with distinct ids at most one heading is active, and none for a hash without `#` |
| Toc.TransitionsKeepValid | browser/toc.js:19-41 | scrolling and hash changes keep `minLevel` the minimum of the levels |
| Toc.Entry | browser/toc.js:58-66 | an entry is an `a` of class `heading`, or `heading active` iff active, linking to `#id`, indented `12*gap` px, in 13px type iff `gap > 0` and 14px otherwise |
| Toc.Render | browser/toc.js:54-69 | one entry per heading, in heading order |
| Toc.RenderIndentation | browser/toc.js:16-64 | no entry has a negative indent, and the 14px entries are exactly those of the minimum level |
| Sidebar.HasActiveItemIff | browser/sidebar.js:17-30 | `hasActiveItem` holds iff some link (leaf) of the tree has an active href |
| Sidebar.InitialNavState | browser/sidebar.js:44-46 | a nav starts open iff one of its links leads to the current page |
| Sidebar.MountKeepsOpen | browser/sidebar.js:47-52 | the mount-time search for `a.active` in the rendered nav finds one iff `hasActiveItem`, so mounting keeps the initial state |
| Sidebar.Mount | browser/sidebar.js:47-52 | after mounting, `open` says whether some descendant link is active |
| Sidebar.Toggle | browser/sidebar.js:57-63 | a click flips `open` and changes nothing else |
| Sidebar.NavHeight | browser/sidebar.js:64-67 | the nav's height is `auto` iff open, else 0 |
| Sidebar.LinkElement | browser/sidebar.js:32-40 | a link's only class is `active`, present iff its href is the current page |
| Sidebar.RenderItems | browser/sidebar.js:73-81 | items with sub-items become navs and the others links, in order, keeping their texts and hrefs |
| Sidebar.RenderLogo | browser/sidebar.js:83-92 | `syncbase` gives (`Syncbase`, `/syncbase`); anything else gives (`Core`, `/core.html`) |
| Sidebar.LogoLinkIff | browser/sidebar.js:86-92 | the logo links to `/syncbase` iff the subsite is `syncbase` |
| Clipboard.Initial | browser/clipboard.js:32-37 | the initial status is `''`, stamped with the current time |
| Clipboard.Step | browser/clipboard.js:43-57 | mouse-enter gives `copy`, mouse-leave gives `''` and a click gives `copied`, each recording its time; the reset clears only if the state still carries the click's time, and otherwise changes nothing |
| Clipboard.TimeMovesOn | browser/clipboard.js:33-57 | with a forward-moving clock the recorded time never returns to a past click time, and any non-reset event moves it on |
| Clipboard.QuietResetClears | browser/clipboard.js:49-57 | a click followed directly by its reset ends with status `''` |
| Clipboard.StaleResetIgnored | browser/clipboard.js:53-57 | a reset after any later mouse event is a no-op |
| Clipboard.ButtonFor | browser/clipboard.js:65-68 | a block gets a button iff it is a `code` in a `pre` without class `noclipboard`; the button copies its text plus `\n` |
| Clipboard.ButtonsMatchBlocks | browser/clipboard.js:64-70 | buttons and selected blocks correspond one to one, in document order |
| Clipboard.HelperBlocksHaveNoButton | browser/clipboard.js:64-70 | blocks written by `code` and `codeoutput` get no button |
| Bootstrap.Level | browser/index.js:127 | an `H1`…`H4` tag gives its digit, a level in 1..4; any other tag gives 0 |
| Bootstrap.TitleIndex | browser/index.js:116-118 | the title is the first heading with class `title` |
| Bootstrap.ParseTocProps | browser/index.js:113-140 | without a title element the code throws; otherwise the title is the text of the first `title` heading |
| Bootstrap.TocHeadings | browser/index.js:120-135 | the TOC headings are, in document order, exactly the elements other than the title element that have an id, each with its tag's level |
| Bootstrap.TocDecision | browser/index.js:40-48 | the TOC is rendered iff the page has a `.toc` element and at least one heading, removed when it has none, and the handler throws when there is no title |
| Bootstrap.ParseChildren | browser/index.js:99-111 | exactly one item per direct-child anchor |
| Bootstrap.ParseChildrenAnchors | browser/index.js:99-111 | for any well-formed children, the anchor with `k` anchors before it becomes item `k`; each item comes from an anchor, in document order; a `nav` anchor becomes a nav of its text whose items are parsed from the next element's children; any other anchor becomes a link with its text and href |
| Bootstrap.ParseEmit | browser/index.js:99-111 | parsing the sidebar data written from a tree gives that tree back |
| Bootstrap.LandingPage | browser/index.js:55-62 | on `/` and `/index.html` the scroll listener runs and no copy buttons are added |
| Bootstrap.OnScroll | browser/index.js:64-70 | the body has `not-scrolled` iff `scrollTop < 15`; its other classes stay |
| Bootstrap.Retarget | browser/index.js:91-96 | a link gets `target=_blank` iff its hostname differs from the page's; other links are unchanged |
| Bootstrap.Start | browser/index.js:40-96 | the start-up sequence: TOC decision, copy buttons iff the pathname names a section with commands, the landing-page scroll class, and `_blank` on exactly the links to other hosts; no body class other than `not-scrolled` changes; a throw while reading the TOC skips all of them |
| Bootstrap.MissingTitleStopsStart | browser/index.js:40-140 | a page with a `.toc` element but no title heading gets no copy buttons and no link targets |

## Left out

- `browser/highlight.js`: it extends four highlight.js grammars with code-dimming rules, registers them, limits the library to those four with `hljs.configure`, and then runs `hljs.initHighlighting()`, which highlights every code block on the page. The grammars and the highlighting belong to the library.
- `browser/dom.js`: thin wrappers around the DOM query functions.
- File walking, `fs.readFile` and `fs.stat` I/O, and `cheerio` parsing. The walk is its list of paths plus an optional error. A read is a lookup in a map of parsed pages. The file system is a map.
- Stream wiring, concurrency and back-pressure (`through2`, `pump`). The model handles files one after another.
- PageLinks.Run: on a walk or read error `pump` tears the whole pipeline down. Records already extracted but not yet validated may then be dropped, and files walked before a walk error may never be read. The model validates every record extracted from the files before the first failing read, and reads every walked file.
- `path.resolve` and the normalisation `path.join` does (`..`, repeated slashes).
- PageLinks.Join: it is a concatenation with one `/` at the seam, so its contract is weaker than Node's `path.join`.
- React and ReactDOM rendering, event-listener registration and unmounting. The Toc title `div`, the sidebar outer layout, the logo images and the small-screen sidebar toggle in `browser/index.js` are also left out.
- `getBoundingClientRect` and `innerHeight`. Each heading carries a snapshot of its two window tests.
- URL parsing for `isActive` and link hostnames. The pathname of an href is the parameter `pathOf`; hostnames are given.
- The `copy()` selection and `execCommand` side effect, `Date.now` and `setTimeout`. Events carry timestamps; the 3-second delay is not represented beyond the `Timeout` event.
- `marked` is an uninterpreted function parameter.
- CSS lengths are pixel counts instead of `'…px'` strings.
- Scroll positions are integers instead of JavaScript numbers.
- Util.H: the `console.assert` on the tag is a precondition. The one on the props is not modelled as a check: the model states what happens after it, namely that the selector's `id` and `className` override the props' own.
- Bootstrap.ParseChildren: the `console.assert` that a `nav` anchor is followed by a `NAV` element is a precondition. Anchor `href`s are taken as already resolved.
- Bootstrap.Level: only `H1` to `H4` reach it, because the query selects only those. For any other tag the model gives 0, where `parseInt` of the second character gives a digit (for `H5`) or `NaN`.
- Clipboard.HasClass: class names are split at spaces only, not at other whitespace.
- LinkStream.Normalise: the contract pins down the result only for hrefs without line breaks. The body also models the `.` of `/html#(.*)/` stopping at a line terminator.
- Sidebar: the parse-time `sidebarEl` check in `browser/index.js` is not part of `Bootstrap.Start`. The sidebar is covered by `Bootstrap.ParseChildren` and the `Sidebar` module.
- Bootstrap.Start: it starts after the sidebar and leaves out the highlighting and the image figure captions.
