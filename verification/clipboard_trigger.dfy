/**
 The selection trigger of main.py (`on_mouse_release`, main.py:248-273, with
 `show_popup`, main.py:241-245): when the mouse button is released the
 program copies the selection, reads the clipboard, and searches the corpus
 for the stripped text unless it is empty or the same as the text it
 searched last; the results go to a new popup.

 The synthetic Ctrl+C and the clipboard are inputs here: the text the clipboard
 holds after the copy, or `None` when reading it raises (the handler swallows
 the exception).
 */
module ClipboardTrigger {
  import opened Wrappers
  import opened Text
  import opened Corpus
  import StreamSearch
  import opened Popup

  /** The program state the handlers share: `last_text`, `is_running`, whether the
      root window still exists, and the popup. */
  datatype ClipboardApp = ClipboardApp(lastText: string, running: bool, rootAlive: bool, popup: Popup)

  /** A handler's new state and the keyword it searched, if it searched. */
  datatype ReleaseResult = ReleaseResult(app: ClipboardApp, query: Option<string>)

  /** `on_mouse_release` followed by the popup it requests. */
  function OnMouseRelease(app: ClipboardApp, pressed: bool, clipboard: Option<string>,
                          file: CorpusFile): (r: ReleaseResult)
    ensures r.query.Some? <==>
              !pressed && app.running && clipboard.Some? &&
              Strip(clipboard.value) != "" && Strip(clipboard.value) != app.lastText
    ensures r.query.None? ==> r.app == app
    ensures r.query.Some? ==> r.query.value == Strip(clipboard.value) && r.app.lastText == r.query.value
  {
    if pressed || !app.running then ReleaseResult(app, None)
    else
      match clipboard
      case None => ReleaseResult(app, None)
      case Some(raw) =>
        var selected := Strip(raw);
        if selected == "" || selected == app.lastText then ReleaseResult(app, None)
        else
          var out := StreamSearch.Search(selected, file, app.running, app.rootAlive);
          var popup := if out.rootAlive then Create(app.popup, "", out.entries, true) else Closed;
          ReleaseResult(ClipboardApp(selected, out.running, out.rootAlive, popup), Some(selected))
  }

  /** A search opens a popup on its results at the first entry while the root window
      lives; a missing corpus stops the program and destroys the root window, and
      with it any popup, which is a child of the root. */
  lemma ReleaseOpensPopup(app: ClipboardApp, clipboard: Option<string>, file: CorpusFile)
    requires OnMouseRelease(app, false, clipboard, file).query.Some?
    ensures var r := OnMouseRelease(app, false, clipboard, file).app;
            var q := Strip(clipboard.value);
            && (file.Present? && app.rootAlive ==>
                  r.popup == Open("", StreamSearch.Search(q, file, true, true).entries, 0))
            && (file.Missing? ==> !r.running && !r.rootAlive && r.popup == Closed)
  {
  }

  /** Everything that reaches the program: a mouse press or release (with what the
      clipboard holds after the copy), an event of the popup, and closing the root
      window, which clears `is_running` and destroys the root and its popup. */
  datatype ClipboardEvent =
    | MouseButton(pressed: bool, clipboard: Option<string>)
    | PopupEvent(e: MainEvent)
    | CloseRoot

  /** No popup outlives the root window: a popup is a `Toplevel` of the root. */
  predicate PopupNeedsRoot(app: ClipboardApp) {
    !app.rootAlive ==> app.popup.Closed?
  }

  function Step(app: ClipboardApp, e: ClipboardEvent, file: CorpusFile): (r: ReleaseResult)
    ensures r.query.None? ==> r.app.lastText == app.lastText
    ensures !app.running ==> !r.app.running && r.query.None?
    ensures e.CloseRoot? ==> !r.app.running && !r.app.rootAlive && r.app.popup.Closed?
    ensures PopupNeedsRoot(app) ==> PopupNeedsRoot(r.app)
  {
    match e
    case MouseButton(pressed, clipboard) => OnMouseRelease(app, pressed, clipboard, file)
    case PopupEvent(pe) => ReleaseResult(app.(popup := MainStep(app.popup, pe)), None)
    case CloseRoot => ReleaseResult(app.(running := false, rootAlive := false, popup := Closed), None)
  }

  /** The keywords searched over a series of events, in order. */
  function Queries(app: ClipboardApp, es: seq<ClipboardEvent>, file: CorpusFile): (r: seq<string>)
    decreases |es|
  {
    if es == [] then []
    else
      var r := Step(app, es[0], file);
      (if r.query.Some? then [r.query.value] else []) + Queries(r.app, es[1..], file)
  }

  function Run(app: ClipboardApp, es: seq<ClipboardEvent>, file: CorpusFile): (r: ClipboardApp)
    decreases |es|
  {
    if es == [] then app else Run(Step(app, es[0], file).app, es[1..], file)
  }

  /** Whatever happens, no popup is left open once the root window is gone. */
  lemma {:induction false} RunKeepsPopupNeedsRoot(app: ClipboardApp, es: seq<ClipboardEvent>, file: CorpusFile)
    requires PopupNeedsRoot(app)
    ensures PopupNeedsRoot(Run(app, es, file))
    decreases |es|
  {
    if es != [] {
      RunKeepsPopupNeedsRoot(Step(app, es[0], file).app, es[1..], file);
    }
  }

  /** Once `is_running` is false nothing is searched again and `last_text` stays. */
  lemma {:induction false} StoppedStaysQuiet(app: ClipboardApp, es: seq<ClipboardEvent>, file: CorpusFile)
    requires !app.running
    ensures Queries(app, es, file) == []
    ensures !Run(app, es, file).running && Run(app, es, file).lastText == app.lastText
    decreases |es|
  {
    if es != [] {
      StoppedStaysQuiet(Step(app, es[0], file).app, es[1..], file);
    }
  }

  /** A missing corpus ends the trigger: the release that finds it missing is the
      last one that searches. */
  lemma MissingCorpusEndsSearching(app: ClipboardApp, raw: string, es: seq<ClipboardEvent>)
    requires OnMouseRelease(app, false, Some(raw), Missing).query.Some?
    ensures var r := OnMouseRelease(app, false, Some(raw), Missing).app;
            !r.running && Queries(r, es, Missing) == []
  {
    StoppedStaysQuiet(OnMouseRelease(app, false, Some(raw), Missing).app, es, Missing);
  }

  /** Releasing twice over the same selection searches once. */
  lemma SameSelectionSearchedOnce(app: ClipboardApp, raw: string, file: CorpusFile)
    ensures var r := OnMouseRelease(app, false, Some(raw), file);
            OnMouseRelease(r.app, false, Some(raw), file).query.None?
  {
  }

  /** There is no throttling beyond the last text: selecting `a`, then `b`, then
      `a` again searches three times while the corpus is present. */
  lemma AlternatingSelectionsSearchEachTime(app: ClipboardApp, a: string, b: string,
                                            lines: seq<string>, failure: Option<ReadFailure>)
    requires app.running
    requires Strip(a) != "" && Strip(b) != "" && Strip(a) != Strip(b) && Strip(a) != app.lastText
    ensures var file := Present(lines, failure);
            Queries(app, [MouseButton(false, Some(a)), MouseButton(false, Some(b)),
                          MouseButton(false, Some(a))], file) == [Strip(a), Strip(b), Strip(a)]
  {
    var file := Present(lines, failure);
    var es := [MouseButton(false, Some(a)), MouseButton(false, Some(b)), MouseButton(false, Some(a))];
    var r1 := Step(app, es[0], file);
    var r2 := Step(r1.app, es[1], file);
    var r3 := Step(r2.app, es[2], file);
    assert es[1..][1..] == [es[2]] && es[1..][1..][1..] == [];
    assert Queries(r3.app, [], file) == [];
    assert Queries(r2.app, [es[2]], file) == [Strip(a)];
    assert Queries(r1.app, es[1..], file) == [Strip(b), Strip(a)];
  }
}
