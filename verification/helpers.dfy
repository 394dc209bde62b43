/** The Markdown template helpers (helpers.js): tags that hide text, wrap it
    in a note, a code block or a dimmed span, after trimming whitespace or
    removing indentation. `marked`, the Markdown converter, is a parameter
    about which nothing is assumed. */
module Helpers {
  import opened Strings

  /** `hidden`: the text is omitted. */
  function Hidden(text: string): (r: string)
    ensures |r| == 0
  {
    ""
  }

  // ---------------------------------------------------------------------
  // Dropping runs of characters at either end

  predicate All(s: string, p: char -> bool)
  {
    forall k :: 0 <= k < |s| ==> p(s[k])
  }

  /** Removes the longest prefix of characters satisfying `p`
      (`replace(/^X+/, '')`). */
  function DropLeading(s: string, p: char -> bool): (r: string)
    ensures EndsWith(s, r)
    ensures All(s[..|s| - |r|], p)
    ensures |r| == 0 || !p(r[0])
  {
    if |s| > 0 && p(s[0]) then
      var r := DropLeading(s[1..], p);
      assert s[..|s| - |r|] == [s[0]] + s[1..][..|s| - 1 - |r|];
      r
    else s
  }

  /** Removes the longest suffix of characters satisfying `p`
      (`replace(/X+$/, '')`). */
  function DropTrailing(s: string, p: char -> bool): (r: string)
    ensures StartsWith(s, r)
    ensures All(s[|r|..], p)
    ensures |r| == 0 || !p(r[|r| - 1])
  {
    if |s| > 0 && p(s[|s| - 1]) then
      var r := DropTrailing(s[..|s| - 1], p);
      assert s[|r|..] == s[..|s| - 1][|r|..] + [s[|s| - 1]];
      r
    else s
  }

  lemma {:induction false} DropLeadingSkips(lead: string, t: string, p: char -> bool)
    requires All(lead, p)
    ensures DropLeading(lead + t, p) == DropLeading(t, p)
    decreases |lead|
  {
    if |lead| > 0 {
      assert (lead + t)[1..] == lead[1..] + t;
      DropLeadingSkips(lead[1..], t, p);
    } else {
      assert lead + t == t;
    }
  }

  lemma {:induction false} DropTrailingSkips(t: string, trail: string, q: char -> bool)
    requires All(trail, q)
    ensures DropTrailing(t + trail, q) == DropTrailing(t, q)
    decreases |trail|
  {
    if |trail| > 0 {
      var u := trail[..|trail| - 1];
      assert (t + trail)[..|t + trail| - 1] == t + u;
      DropTrailingSkips(t, u, q);
    } else {
      assert t + trail == t;
    }
  }

  /** `DropLeading` removes exactly a maximal leading run. */
  lemma DropLeadingOf(a: string, b: string, p: char -> bool)
    requires All(a, p)
    requires |b| == 0 || !p(b[0])
    ensures DropLeading(a + b, p) == b
  {
    DropLeadingSkips(a, b, p);
  }

  /** `DropTrailing` removes exactly a maximal trailing run. */
  lemma DropTrailingOf(a: string, b: string, p: char -> bool)
    requires All(b, p)
    requires |a| == 0 || !p(a[|a| - 1])
    ensures DropTrailing(a + b, p) == a
  {
    DropTrailingSkips(a, b, p);
  }

  lemma {:induction false} DropTrailingAll(t: string, q: char -> bool)
    requires All(t, q)
    ensures DropTrailing(t, q) == ""
    decreases |t|
  {
    if |t| > 0 {
      DropTrailingAll(t[..|t| - 1], q);
    }
  }

  /** When everything is a `p`-run and then a `q`-run, nothing is left. */
  lemma StripAll(lead: string, trail: string, p: char -> bool, q: char -> bool)
    requires All(lead, p) && All(trail, q)
    ensures DropTrailing(DropLeading(lead + trail, p), q) == ""
  {
    DropLeadingSkips(lead, trail, p);
    var m := DropLeading(trail, p);
    assert m == trail[|trail| - |m|..];
    DropTrailingAll(m, q);
  }

  /** Stripping a `p`-run in front and a `q`-run behind recovers the core
      when the core is empty or starts outside `p` and ends outside `q`. */
  lemma StripFramed(lead: string, core: string, trail: string, p: char -> bool, q: char -> bool)
    requires All(lead, p) && All(trail, q)
    requires |core| == 0 || (!p(core[0]) && !q(core[|core| - 1]))
    ensures DropTrailing(DropLeading(lead + core + trail, p), q) == core
  {
    if |core| > 0 {
      assert lead + core + trail == lead + (core + trail);
      DropLeadingOf(lead, core + trail, p);
      DropTrailingOf(core, trail, q);
    } else {
      assert lead + core + trail == lead + trail;
      StripAll(lead, trail, p, q);
    }
  }

  // ---------------------------------------------------------------------
  // Trimming

  predicate IsNewline(c: char) { c == '\n' }

  /** `replace(/^\s+|\s+$/g, '')`: leading and trailing whitespace go. */
  function Trim(s: string): (r: string)
    ensures |r| == 0 || (!IsWhitespace(r[0]) && !IsWhitespace(r[|r| - 1]))
    ensures |r| <= |s|
  {
    DropTrailing(DropLeading(s, IsWhitespace), IsWhitespace)
  }

  /** Whitespace around a core that starts and ends with something else is
      all `Trim` removes. */
  lemma TrimFramed(lead: string, core: string, trail: string)
    requires All(lead, IsWhitespace) && All(trail, IsWhitespace)
    requires |core| == 0 || (!IsWhitespace(core[0]) && !IsWhitespace(core[|core| - 1]))
    ensures Trim(lead + core + trail) == core
  {
    StripFramed(lead, core, trail, IsWhitespace, IsWhitespace);
  }

  lemma TrimIdempotent(s: string)
    ensures Trim(Trim(s)) == Trim(s)
  {
    var t := Trim(s);
    assert "" + t + "" == t;
    TrimFramed("", t, "");
  }

  // ---------------------------------------------------------------------
  // Code blocks

  function CodeOpen(className: string): string
  {
    "<pre><code class=\"" + className + "\">"
  }

  const CodeClose: string := "</code></pre>\n"

  /** `mkcode`: the trimmed text inside `<pre><code class="...">`. */
  function MkCode(text: string, className: string): (r: string)
    ensures |r| >= |CodeOpen(className)| + |CodeClose|
    ensures StartsWith(r, CodeOpen(className)) && EndsWith(r, CodeClose)
    ensures var body := r[|CodeOpen(className)|..|r| - |CodeClose|];
      |body| == 0 || (!IsWhitespace(body[0]) && !IsWhitespace(body[|body| - 1]))
  {
    var body := Trim(text);
    var r := CodeOpen(className) + body + CodeClose;
    assert r[|CodeOpen(className)|..|r| - |CodeClose|] == body;
    r
  }

  /** The code block keeps exactly the text between the surrounding
      whitespace. */
  lemma MkCodeFramed(lead: string, core: string, trail: string, className: string)
    requires All(lead, IsWhitespace) && All(trail, IsWhitespace)
    requires |core| == 0 || (!IsWhitespace(core[0]) && !IsWhitespace(core[|core| - 1]))
    ensures MkCode(lead + core + trail, className) == CodeOpen(className) + core + CodeClose
  {
    TrimFramed(lead, core, trail);
  }

  /** `code`: a block marked `noclipboard`. */
  function Code(text: string): (r: string)
    ensures StartsWith(r, CodeOpen("noclipboard"))
  {
    MkCode(text, "noclipboard")
  }

  /** `codeoutput`: a block marked `noclipboard nohighlight`, otherwise the
      same block as `code` writes. */
  function CodeOutput(text: string): (r: string)
    ensures StartsWith(r, CodeOpen("noclipboard nohighlight"))
    ensures r[|CodeOpen("noclipboard nohighlight")|..] == Code(text)[|CodeOpen("noclipboard")|..]
  {
    MkCodeAfterOpen(text, "noclipboard nohighlight");
    MkCodeAfterOpen(text, "noclipboard");
    MkCode(text, "noclipboard nohighlight")
  }

  /** After its opening tag a code block depends only on the text. */
  lemma MkCodeAfterOpen(text: string, className: string)
    ensures |CodeOpen(className)| <= |MkCode(text, className)|
    ensures MkCode(text, className)[|CodeOpen(className)|..] == Trim(text) + CodeClose
  {
    var open, body := CodeOpen(className), Trim(text);
    assert MkCode(text, className) == open + body + CodeClose;
    DropOpen(open, body, CodeClose);
  }

  lemma DropOpen(open: string, body: string, close: string)
    ensures (open + body + close)[|open|..] == body + close
  {
  }

  const DimOpen: string := "<dim><dim-children>"
  const DimClose: string := "</dim-children></dim>\n"

  /** `codedim`: leading newlines (only) and trailing whitespace go. */
  function CodeDim(text: string): (r: string)
    ensures |r| >= |DimOpen| + |DimClose|
    ensures StartsWith(r, DimOpen) && EndsWith(r, DimClose)
    ensures var body := r[|DimOpen|..|r| - |DimClose|];
      |body| == 0 || (body[0] != '\n' && !IsWhitespace(body[|body| - 1]))
  {
    var body := DropTrailing(DropLeading(text, IsNewline), IsWhitespace);
    var m := DropLeading(text, IsNewline);
    assert |body| == 0 || body[0] == m[..|body|][0];
    var r := DimOpen + body + DimClose;
    assert r[|DimOpen|..|r| - |DimClose|] == body;
    r
  }

  /** Leading spaces survive `codedim`; leading newlines and trailing
      whitespace do not. */
  lemma CodeDimFramed(newlines: string, core: string, trail: string)
    requires All(newlines, IsNewline) && All(trail, IsWhitespace)
    requires |core| == 0 || (core[0] != '\n' && !IsWhitespace(core[|core| - 1]))
    ensures CodeDim(newlines + core + trail) == DimOpen + core + DimClose
  {
    StripFramed(newlines, core, trail, IsNewline, IsWhitespace);
  }

  lemma CodeDimKeepsIndent()
    ensures CodeDim("\n\n  x  \n") == DimOpen + "  x" + DimClose
  {
    assert "\n\n  x  \n" == "\n\n" + "  x" + "  \n";
    CodeDimFramed("\n\n", "  x", "  \n");
  }

  // ---------------------------------------------------------------------
  // Unindenting

  predicate IsBlank(c: char) { c == ' ' || c == '\t' }

  /** `replace(/^[ \t]+/gm, '')` on the rest of a text, `atLineStart`
      telling whether the previous character ended a line. */
  function UnindentFrom(s: string, atLineStart: bool): string
  {
    if |s| == 0 then ""
    else if atLineStart && IsBlank(s[0]) then UnindentFrom(s[1..], true)
    else [s[0]] + UnindentFrom(s[1..], IsLineTerminator(s[0]))
  }

  /** `unindent`: leading spaces and tabs are removed from every line. */
  function Unindent(text: string): (r: string)
    ensures LineBreaks(r) == LineBreaks(text)
    ensures NoBlankAtLineStart(r, true)
  {
    UnindentFromKeepsLineBreaks(text, true);
    UnindentFromNoLeadingBlank(text, true);
    UnindentFrom(text, true)
  }

  /** The line terminators of a text, in order. */
  function LineBreaks(s: string): seq<char>
  {
    if |s| == 0 then []
    else (if IsLineTerminator(s[0]) then [s[0]] else []) + LineBreaks(s[1..])
  }

  lemma {:induction false} UnindentFromKeepsLineBreaks(s: string, atLineStart: bool)
    ensures LineBreaks(UnindentFrom(s, atLineStart)) == LineBreaks(s)
    decreases |s|
  {
    if |s| > 0 {
      UnindentFromKeepsLineBreaks(s[1..], IsLineTerminator(s[0]));
      UnindentFromKeepsLineBreaks(s[1..], true);
      if !(atLineStart && IsBlank(s[0])) {
        var rest := UnindentFrom(s[1..], IsLineTerminator(s[0]));
        assert ([s[0]] + rest)[1..] == rest;
      }
    }
  }

  /** No character of `r` that starts a line is a blank; `atLineStart`
      says whether `r[0]` starts one. */
  predicate NoBlankAtLineStart(r: string, atLineStart: bool)
  {
    (|r| > 0 && atLineStart ==> !IsBlank(r[0]))
    && forall i :: 0 < i < |r| && IsLineTerminator(r[i - 1]) ==> !IsBlank(r[i])
  }

  lemma {:induction false} UnindentFromNoLeadingBlank(s: string, atLineStart: bool)
    ensures NoBlankAtLineStart(UnindentFrom(s, atLineStart), atLineStart)
    decreases |s|
  {
    if |s| > 0 {
      if atLineStart && IsBlank(s[0]) {
        UnindentFromNoLeadingBlank(s[1..], true);
      } else {
        var rest := UnindentFrom(s[1..], IsLineTerminator(s[0]));
        UnindentFromNoLeadingBlank(s[1..], IsLineTerminator(s[0]));
        var r := [s[0]] + rest;
        forall i | 0 < i < |r| && IsLineTerminator(r[i - 1])
          ensures !IsBlank(r[i])
        {
          assert r[i] == rest[i - 1];
          if i > 1 {
            assert r[i - 1] == rest[i - 2];
          }
        }
      }
    }
  }

  lemma {:induction false} UnindentFromIdempotent(s: string, atLineStart: bool)
    ensures UnindentFrom(UnindentFrom(s, atLineStart), atLineStart) == UnindentFrom(s, atLineStart)
    decreases |s|
  {
    if |s| > 0 {
      if atLineStart && IsBlank(s[0]) {
        UnindentFromIdempotent(s[1..], true);
      } else {
        var rest := UnindentFrom(s[1..], IsLineTerminator(s[0]));
        UnindentFromIdempotent(s[1..], IsLineTerminator(s[0]));
        assert ([s[0]] + rest)[1..] == rest;
      }
    }
  }

  /** `unindent` keeps every line break, so the number of lines is
      unchanged; no line of its result starts with a space or a tab; and
      applying it twice changes nothing more. */
  lemma UnindentProperties(text: string)
    ensures LineBreaks(Unindent(text)) == LineBreaks(text)
    ensures NoBlankAtLineStart(Unindent(text), true)
    ensures Unindent(Unindent(text)) == Unindent(text)
  {
    UnindentFromKeepsLineBreaks(text, true);
    UnindentFromNoLeadingBlank(text, true);
    UnindentFromIdempotent(text, true);
  }

  /** Where a line break comes next, the flag no longer matters. */
  lemma UnindentAtBreak(rest: string, atLineStart: bool)
    requires |rest| == 0 || IsLineTerminator(rest[0])
    ensures UnindentFrom(rest, atLineStart) == UnindentFrom(rest, true)
  {
  }

  /** Line by line: a line without a terminator loses its leading blanks
      (when it starts a line) and keeps everything else. */
  lemma {:induction false} UnindentLine(line: string, rest: string, atLineStart: bool)
    requires forall k :: 0 <= k < |line| ==> !IsLineTerminator(line[k])
    requires |rest| == 0 || IsLineTerminator(rest[0])
    ensures UnindentFrom(line + rest, atLineStart)
         == (if atLineStart then DropLeading(line, IsBlank) else line) + UnindentFrom(rest, true)
    decreases |line|
  {
    if |line| == 0 {
      assert line + rest == rest;
      UnindentAtBreak(rest, atLineStart);
    } else {
      assert (line + rest)[1..] == line[1..] + rest;
      if atLineStart && IsBlank(line[0]) {
        UnindentLine(line[1..], rest, true);
      } else {
        UnindentLine(line[1..], rest, false);
        assert line == [line[0]] + line[1..];
      }
    }
  }

  // ---------------------------------------------------------------------
  // Notes

  /** `info` and `warning`: the unindented text, converted by `marked`,
      inside a `note` box of the given kind. */
  function Note(kind: string, text: string, marked: string -> string): (r: string)
    ensures StartsWith(r, NoteOpen(kind))
    ensures EndsWith(r, NoteClose)
    ensures |NoteOpen(kind)| + |NoteClose| <= |r|
    ensures r[|NoteOpen(kind)|..|r| - |NoteClose|] == marked(Unindent(text))
  {
    var body := marked(Unindent(text));
    var r := NoteOpen(kind) + body + NoteClose;
    assert r[|NoteOpen(kind)|..|r| - |NoteClose|] == body;
    r
  }

  function NoteOpen(kind: string): string
  {
    "<div class=\"note " + kind + "\">"
  }

  const NoteClose: string := "</div>\n"

  /** `info`: the converted text in a box of class `note info`. */
  function Info(text: string, marked: string -> string): (r: string)
    ensures StartsWith(r, NoteOpen("info")) && EndsWith(r, NoteClose)
    ensures |NoteOpen("info")| + |NoteClose| <= |r|
    ensures r[|NoteOpen("info")|..|r| - |NoteClose|] == marked(Unindent(text))
  {
    Note("info", text, marked)
  }

  /** `warning`: the converted text in a box of class `note warning`. */
  function Warning(text: string, marked: string -> string): (r: string)
    ensures StartsWith(r, NoteOpen("warning")) && EndsWith(r, NoteClose)
    ensures |NoteOpen("warning")| + |NoteClose| <= |r|
    ensures r[|NoteOpen("warning")|..|r| - |NoteClose|] == marked(Unindent(text))
  {
    Note("warning", text, marked)
  }

  /** Indentation never reaches `marked`: a note of an already unindented
      text is the same note. */
  lemma NoteIgnoresIndentation(kind: string, text: string, marked: string -> string)
    ensures Note(kind, Unindent(text), marked) == Note(kind, text, marked)
  {
    UnindentFromIdempotent(text, true);
  }
}
