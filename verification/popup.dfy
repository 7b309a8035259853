/**
 The results popup of both programs (`create_popup`, main.py:149-238 and
 ocr_reader.py:109-213) as a state machine: closed, or open on a list of
 entries with the index of the entry shown. The window itself is left out;
 what is kept is which entry the popup shows, how keys, buttons, scrolling and
 closing the window change that, and what the copy commands put on the
 clipboard.
 */
module Popup {
  import opened Wrappers
  import opened Text

  datatype Popup =
    | Closed
    | Open(title: string, entries: seq<string>, index: nat)

  /** The index points at an entry, or is 0 for a popup opened on an empty list. */
  predicate Valid(p: Popup) {
    p.Open? ==> p.index == 0 || p.index < |p.entries|
  }

  /** The entry on show; a popup opened on an empty list shows nothing, because
      indexing the empty list raises inside `create_popup` before any text is set. */
  function Shown(p: Popup): (r: string) {
    if p.Open? && p.index < |p.entries| then p.entries[p.index] else ""
  }

  /** `create_popup(entries, title)`: without a live root window nothing changes;
      otherwise any open popup is replaced by a new one showing the first entry. */
  function Create(p: Popup, title: string, entries: seq<string>, rootAlive: bool): (r: Popup)
    ensures Valid(p) ==> Valid(r)
    ensures !rootAlive ==> r == p
    ensures rootAlive ==> r.Open? && r.entries == entries && r.title == title
    ensures rootAlive ==> r.index == 0
    ensures rootAlive && entries != [] ==> Shown(r) == entries[0]
  {
    if rootAlive then Open(title, entries, 0) else p
  }

  /** What an open popup looks like after `create_popup` does not depend on what
      was open before. */
  lemma CreateForgetsPrevious(p: Popup, q: Popup, title: string, entries: seq<string>)
    ensures Create(p, title, entries, true) == Create(q, title, entries, true)
    ensures Create(p, title, entries, true).index == 0
  {
  }

  /** The "next" branch of `on_key`: move on while not at the last entry. */
  function Next(p: Popup): (r: Popup)
    ensures Valid(p) ==> Valid(r)
    ensures r.Open? <==> p.Open?
    ensures p.Open? ==> r.title == p.title && r.entries == p.entries
    ensures p.Open? ==> (r.index == p.index + 1 <==> p.index < |p.entries| - 1)
    ensures p.Open? && p.index >= |p.entries| - 1 ==> r == p
  {
    if p.Open? && p.index < |p.entries| - 1 then p.(index := p.index + 1) else p
  }

  /** The "previous" branch of `on_key`: move back while not at the first entry. */
  function Prev(p: Popup): (r: Popup)
    ensures Valid(p) ==> Valid(r)
    ensures r.Open? <==> p.Open?
    ensures p.Open? ==> r.title == p.title && r.entries == p.entries
    ensures p.Open? ==> (r.index + 1 == p.index <==> p.index > 0)
    ensures p.Open? && p.index == 0 ==> r == p
  {
    if p.Open? && p.index > 0 then p.(index := p.index - 1) else p
  }

  /** Stepping back undoes a step forward, and a step forward undoes a step back. */
  lemma PrevUndoesNext(p: Popup)
    requires p.Open? && p.index < |p.entries| - 1
    ensures Prev(Next(p)) == p
  {
  }

  lemma NextUndoesPrev(p: Popup)
    requires Valid(p) && p.Open? && p.index > 0
    ensures Next(Prev(p)) == p
  {
  }

  /** `n` presses of the next key. */
  function NextTimes(p: Popup, n: nat): (r: Popup)
    decreases n
  {
    if n == 0 then p else NextTimes(Next(p), n - 1)
  }

  /** From the first entry, `n` presses of the next key show entry `min(n, len - 1)`:
      the index climbs one per press and then stays on the last entry. */
  lemma {:induction false} NextTimesClamps(title: string, entries: seq<string>, k: nat, n: nat)
    requires k < |entries|
    ensures NextTimes(Open(title, entries, k), n) ==
            Open(title, entries, if k + n < |entries| then k + n else |entries| - 1)
    decreases n
  {
    if n > 0 {
      var p := Open(title, entries, k);
      if k < |entries| - 1 {
        assert Next(p) == Open(title, entries, k + 1);
        NextTimesClamps(title, entries, k + 1, n - 1);
      } else {
        assert Next(p) == p;
        NextTimesClamps(title, entries, k, n - 1);
      }
    }
  }

  // ---------------------------------------------------------------------------
  // main.py
  // ---------------------------------------------------------------------------

  /** What reaches the main.py popup: a key with its keysym, a scroll anywhere on
      the screen (the `on_scroll` listener), and the window manager's close. */
  datatype MainEvent = MainKey(keysym: string) | Scroll | MainWindowClose

  /** main.py's handlers: Right/x next, Left/z previous, Escape closes, and a scroll
      or a close request closes the popup. A closed popup receives no key events. */
  function MainStep(p: Popup, e: MainEvent): (r: Popup)
    ensures Valid(p) ==> Valid(r)
    ensures p.Closed? ==> r.Closed?
    ensures e.Scroll? || e.MainWindowClose? || e == MainKey("Escape") ==> r.Closed?
    ensures r.Open? ==> r.entries == p.entries && r.title == p.title
  {
    match e
    case MainKey(k) =>
      if p.Closed? then p
      else if (k == "Right" || k == "x") && p.index < |p.entries| - 1 then Next(p)
      else if (k == "Left" || k == "z") && p.index > 0 then Prev(p)
      else if k == "Escape" then Closed
      else p
    case Scroll => Closed
    case MainWindowClose => Closed
  }

  /** The main.py keys read as navigation commands: Right and x step forward, Left
      and z step back, Escape closes, every other key does nothing. */
  lemma MainKeys(p: Popup, k: string)
    requires p.Open?
    ensures (k == "Right" || k == "x") ==> MainStep(p, MainKey(k)) == Next(p)
    ensures (k == "Left" || k == "z") ==> MainStep(p, MainKey(k)) == Prev(p)
    ensures k == "Escape" ==> MainStep(p, MainKey(k)) == Closed
    ensures k !in {"Right", "x", "Left", "z", "Escape"} ==> MainStep(p, MainKey(k)) == p
  {
  }

  /** The main.py popup after a series of events. */
  function MainRun(p: Popup, es: seq<MainEvent>): (r: Popup)
    decreases |es|
  {
    if es == [] then p else MainRun(MainStep(p, es[0]), es[1..])
  }

  /** Whatever events follow `create_popup`, an open popup on a non-empty list shows
      one of its entries: the index stays within `[0, len - 1]`. */
  lemma {:induction false} MainRunInBounds(p: Popup, es: seq<MainEvent>)
    requires Valid(p)
    requires p.Open? ==> p.entries != []
    ensures var r := MainRun(p, es);
            r.Open? ==> p.Open? && r.entries == p.entries && r.index < |r.entries|
    decreases |es|
  {
    if es != [] {
      MainRunInBounds(MainStep(p, es[0]), es[1..]);
    }
  }

  // ---------------------------------------------------------------------------
  // ocr_reader.py
  // ---------------------------------------------------------------------------

  /** What reaches the ocr_reader.py popup: a key with its keysym and modifier
      state, the Prev, Next and Copy buttons, and the window manager's close. */
  datatype OcrEvent = OcrKey(keysym: string, state: nat) | PrevButton | NextButton | CopyButton | OcrWindowClose

  /** Bit 0x0004 of a Tk event state: Control is held. */
  predicate ControlHeld(state: nat) {
    (state / 4) % 2 == 1
  }

  datatype OcrStepResult = OcrStepResult(popup: Popup, clipboard: Option<string>)

  /** The text of the Text widget as Tk returns it for '1.0' to END: the entry shown
      followed by the newline Tk always keeps at the end. */
  function WidgetText(p: Popup): (r: string) {
    Shown(p) + "\n"
  }

  /** ocr_reader.py's `on_key`: Right/x/n next, Left/z/p previous, Escape closes and
      Control+c copies the widget text; the Prev and Next buttons replay Left and
      Right, and the Copy button copies the stripped widget text. */
  function OcrStep(p: Popup, e: OcrEvent): (r: OcrStepResult)
    ensures Valid(p) ==> Valid(r.popup)
    ensures p.Closed? ==> r.popup.Closed? && r.clipboard.None?
    ensures r.popup.Open? ==> r.popup.entries == p.entries && r.popup.title == p.title
    ensures r.clipboard.Some? ==> r.popup == p
    ensures e.OcrWindowClose? || (e.OcrKey? && e.keysym == "Escape") ==> r.popup.Closed? && r.clipboard.None?
  {
    if p.Closed? then OcrStepResult(p, None)
    else
      match e
      case OcrKey(k, state) => OcrOnKey(p, k, state)
      case PrevButton => OcrOnKey(p, "Left", 0)
      case NextButton => OcrOnKey(p, "Right", 0)
      case CopyButton => OcrStepResult(p, Some(Strip(WidgetText(p))))
      case OcrWindowClose => OcrStepResult(Closed, None)
  }

  function OcrOnKey(p: Popup, k: string, state: nat): (r: OcrStepResult)
    requires p.Open?
    ensures Valid(p) ==> Valid(r.popup)
    ensures r.popup.Open? ==> r.popup.entries == p.entries && r.popup.title == p.title
    ensures r.clipboard.Some? ==> r.popup == p
  {
    if (k == "Right" || k == "x" || k == "n") && p.index < |p.entries| - 1 then OcrStepResult(Next(p), None)
    else if (k == "Left" || k == "z" || k == "p") && p.index > 0 then OcrStepResult(Prev(p), None)
    else if k == "Escape" then OcrStepResult(Closed, None)
    else if k == "c" && ControlHeld(state) then OcrStepResult(p, Some(WidgetText(p)))
    else OcrStepResult(p, None)
  }

  /** The ocr_reader.py keys read as commands: Right, x and n step forward, Left, z
      and p step back, Escape closes, Control+c copies the entry with Tk's trailing
      newline, and the buttons behave like Left and Right. */
  lemma OcrKeys(p: Popup, k: string, state: nat)
    requires p.Open?
    ensures k in {"Right", "x", "n"} ==> OcrStep(p, OcrKey(k, state)) == OcrStepResult(Next(p), None)
    ensures k in {"Left", "z", "p"} ==> OcrStep(p, OcrKey(k, state)) == OcrStepResult(Prev(p), None)
    ensures k == "Escape" ==> OcrStep(p, OcrKey(k, state)) == OcrStepResult(Closed, None)
    ensures k == "c" && ControlHeld(state) ==> OcrStep(p, OcrKey(k, state)) == OcrStepResult(p, Some(Shown(p) + "\n"))
    ensures OcrStep(p, NextButton) == OcrStepResult(Next(p), None)
    ensures OcrStep(p, PrevButton) == OcrStepResult(Prev(p), None)
  {
  }

  /** The Copy button puts exactly the stripped entry on the clipboard: Tk's
      trailing newline is whitespace and goes with the strip. */
  lemma CopyButtonCopiesEntry(p: Popup)
    requires p.Open?
    ensures OcrStep(p, CopyButton).clipboard == Some(Strip(Shown(p)))
    ensures OcrStep(p, CopyButton).popup == p
  {
    StripTrailingSpace(Shown(p), '\n');
  }

  /** The ocr_reader.py popup after a series of events, with what was last copied. */
  function OcrRun(p: Popup, es: seq<OcrEvent>, clipboard: Option<string>): (r: OcrStepResult)
    decreases |es|
  {
    if es == [] then OcrStepResult(p, clipboard)
    else
      var r := OcrStep(p, es[0]);
      OcrRun(r.popup, es[1..], if r.clipboard.Some? then r.clipboard else clipboard)
  }

  /** Whatever events follow `create_popup` on `entries`, the index stays within
      `[0, len - 1]`, and the clipboard is left alone or holds one of the entries,
      raw with Tk's newline or stripped. */
  lemma {:induction false} OcrRunInBounds(p: Popup, es: seq<OcrEvent>, clipboard: Option<string>,
                                          entries: seq<string>)
    requires Valid(p) && entries != []
    requires p.Open? ==> p.entries == entries
    ensures var r := OcrRun(p, es, clipboard);
            r.popup.Open? ==> p.Open? && r.popup.entries == entries && r.popup.index < |entries|
    ensures var r := OcrRun(p, es, clipboard);
            r.clipboard == clipboard || (r.clipboard.Some? && CopiedFrom(r.clipboard.value, entries))
    decreases |es|
  {
    if es != [] {
      var r := OcrStep(p, es[0]);
      var c := if r.clipboard.Some? then r.clipboard else clipboard;
      if r.clipboard.Some? {
        assert p.Open? && r.popup == p;
        assert CopiedFrom(r.clipboard.value, entries) by {
          var e := p.entries[p.index];
          assert Shown(p) == e;
          if es[0].CopyButton? {
            CopyButtonCopiesEntry(p);
          }
        }
      }
      OcrRunInBounds(r.popup, es[1..], c, entries);
    }
  }

  /** `text` is one of the `entries` with Tk's trailing newline, or one of them stripped. */
  ghost predicate CopiedFrom(text: string, entries: seq<string>) {
    exists i :: 0 <= i < |entries| && (text == entries[i] + "\n" || text == Strip(entries[i]))
  }
}
