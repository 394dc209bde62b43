/** The copy-to-clipboard buttons (browser/clipboard.js): a small state
    machine per button and the choice of code blocks that get one. Time is
    explicit: every event carries the value `Date.now()` would return, and
    the delayed reset three seconds after a click is the event `Timeout`,
    carrying the time of the click that scheduled it. */
module Clipboard {
  import opened Base
  import opened Strings
  import opened Seqs

  /** The status shown by a button: `''`, `'copy'` or `'copied'`. */
  datatype Status = Idle | Copy | Copied

  function StatusText(s: Status): string
  {
    match s
    case Idle => ""
    case Copy => "copy"
    case Copied => "copied"
  }

  /** The button's state: its status and the time of the last update. */
  datatype ClipState = ClipState(status: Status, t: int)

  datatype Event =
    | Enter(now: int)
    | Leave(now: int)
    | Click(now: int)
    | Timeout(clickTime: int, now: int)

  /** `getInitialState`. */
  function Initial(now: int): (s: ClipState)
    ensures s.status == Idle && StatusText(s.status) == ""
    ensures s.t == now
  {
    ClipState(Idle, now)
  }

  /** One event. Mouse-enter offers to copy, mouse-leave clears, a click
      reports the copy; each records its time. The reset scheduled by a
      click clears the status only if nothing has updated the state since
      that click, and otherwise does nothing. */
  function Step(s: ClipState, e: Event): (r: ClipState)
    ensures !e.Timeout? ==> r.t == e.now
    ensures e.Enter? ==> r.status == Copy
    ensures e.Leave? ==> r.status == Idle
    ensures e.Click? ==> r.status == Copied
    ensures e.Timeout? ==> (if s.t == e.clickTime then r == ClipState(Idle, e.now) else r == s)
  {
    match e
    case Enter(now) => ClipState(Copy, now)
    case Leave(now) => ClipState(Idle, now)
    case Click(now) => ClipState(Copied, now)
    case Timeout(clickTime, now) => if s.t == clickTime then ClipState(Idle, now) else s
  }

  function Run(s: ClipState, es: seq<Event>): ClipState
    decreases |es|
  {
    if |es| == 0 then s else Run(Step(s, es[0]), es[1..])
  }

  /** Every event happens after time `c`. */
  predicate AllAfter(es: seq<Event>, c: int)
  {
    forall k :: 0 <= k < |es| ==> es[k].now > c
  }

  /** With a clock that moves forward, the recorded time never goes back
      to `c` once it has passed it, and any event other than a reset moves
      it past `c`. */
  lemma {:induction false} TimeMovesOn(s: ClipState, es: seq<Event>, c: int)
    requires s.t >= c
    requires AllAfter(es, c)
    ensures Run(s, es).t >= c
    ensures s.t > c ==> Run(s, es).t > c
    ensures (exists k :: 0 <= k < |es| && !es[k].Timeout?) ==> Run(s, es).t > c
    decreases |es|
  {
    if |es| > 0 {
      var s' := Step(s, es[0]);
      assert AllAfter(es[1..], c) by {
        assert forall k :: 0 <= k < |es[1..]| ==> es[1..][k] == es[k + 1];
      }
      TimeMovesOn(s', es[1..], c);
      if exists k :: 0 <= k < |es| && !es[k].Timeout? {
        var k :| 0 <= k < |es| && !es[k].Timeout?;
        if k > 0 {
          assert es[1..][k - 1] == es[k];
        }
      }
    }
  }

  /** A reset with nothing in between clears the `copied` status. */
  lemma QuietResetClears(s: ClipState, c: int, n: int)
    ensures Run(s, [Click(c), Timeout(c, n)]) == ClipState(Idle, n)
  {
    var es := [Click(c), Timeout(c, n)];
    var s1 := Step(s, Click(c));
    assert es[1..] == [Timeout(c, n)];
    assert [Timeout(c, n)][1..] == [];
    assert Run(s, es) == Run(s1, [Timeout(c, n)]);
    assert Run(s1, [Timeout(c, n)]) == Run(Step(s1, Timeout(c, n)), []);
  }

  /** A reset after a later mouse event (or a later click) does nothing:
      the status the user saw last stays. "Later" means a strictly greater
      timestamp: `Date.now()` counts milliseconds, so an event in the same
      millisecond as the click leaves the recorded time equal to the
      click's, and `Step` then lets the reset clear the status. */
  lemma StaleResetIgnored(s: ClipState, c: int, es: seq<Event>, n: int)
    requires AllAfter(es, c)
    requires exists k :: 0 <= k < |es| && !es[k].Timeout?
    ensures var before := Run(Step(s, Click(c)), es);
      Step(before, Timeout(c, n)) == before
  {
    TimeMovesOn(Step(s, Click(c)), es, c);
  }

  // ---------------------------------------------------------------------
  // Which code blocks get a button

  /** A `code` element of the page: whether its parent is a `pre`, its
      `class` attribute and its text. */
  datatype CodeBlock = CodeBlock(inPre: bool, className: string, text: string)

  /** The element has the class `c` among the space-separated names of its
      `class` attribute. */
  predicate HasClass(className: string, c: string)
  {
    c in Split(className, ' ')
  }

  /** `pre > code:not(.noclipboard)`. */
  predicate Selected(b: CodeBlock)
  {
    b.inPre && !HasClass(b.className, "noclipboard")
  }

  /** The text a button copies: the element's text and a newline. */
  function ButtonFor(b: CodeBlock): (r: Option<string>)
    ensures r.Some? <==> Selected(b)
    ensures r.Some? ==> |r.value| == |b.text| + 1 && r.value[..|b.text|] == b.text && r.value[|b.text|] == '\n'
  {
    if Selected(b) then Some(b.text + "\n") else None
  }

  /** The buttons added to a page, one per selected block, in document
      order. */
  function Buttons(blocks: seq<CodeBlock>): seq<string>
  {
    FilterMap(blocks, ButtonFor)
  }

  /** Each button copies the text of one selected block; the blocks are
      visited in order; every selected block gets a button. */
  lemma ButtonsMatchBlocks(blocks: seq<CodeBlock>) returns (idx: seq<nat>)
    ensures |idx| == |Buttons(blocks)|
    ensures forall k :: 0 <= k < |idx| ==>
      idx[k] < |blocks| && Selected(blocks[idx[k]]) && Buttons(blocks)[k] == blocks[idx[k]].text + "\n"
    ensures forall k, m :: 0 <= k < m < |idx| ==> idx[k] < idx[m]
    ensures forall i :: 0 <= i < |blocks| && Selected(blocks[i]) ==> i in idx
  {
    idx := FilterMapIndex(blocks, ButtonFor);
  }

  lemma CodeClassSplits()
    ensures Split("noclipboard", ' ') == ["noclipboard"]
  {
    var parts := ["noclipboard"];
    assert Join(parts, " ") == "noclipboard";
    assert ' ' !in parts[0];
    SplitJoin(parts, ' ');
  }

  lemma CodeOutputClassSplits()
    ensures Split("noclipboard nohighlight", ' ') == ["noclipboard", "nohighlight"]
  {
    var parts := ["noclipboard", "nohighlight"];
    assert Join(parts, " ") == "noclipboard nohighlight" by {
      assert Join(parts[1..], " ") == "nohighlight";
    }
    assert ' ' !in parts[0] && ' ' !in parts[1];
    SplitJoin(parts, ' ');
  }

  /** The blocks written by the `code` and `codeoutput` helpers carry the
      class `noclipboard` and get no button. */
  lemma HelperBlocksHaveNoButton(text: string)
    ensures ButtonFor(CodeBlock(true, "noclipboard", text)).None?
    ensures ButtonFor(CodeBlock(true, "noclipboard nohighlight", text)).None?
  {
    CodeClassSplits();
    CodeOutputClassSplits();
    assert ["noclipboard", "nohighlight"][0] == "noclipboard";
  }
}
