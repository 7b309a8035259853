/**
 The OCR trigger of ocr_reader.py: the selection overlay hands two corners to
 `process_selection` (ocr_reader.py:273-303), which captures the box they span
 (`capture_screen_region`, ocr_reader.py:44-61), reads its text
 (`extract_text_from_image`, ocr_reader.py:64-76), shows it, and searches the
 corpus for its first three words.

 The screen grab and Tesseract are inputs: `grab` says what capturing a box
 gives, either nothing (the grab raised) or what the OCR made of the image.
 */
module OcrTrigger {
  import opened Wrappers
  import opened Ints
  import opened Text
  import opened Corpus
  import IndexedSearch
  import opened Popup

  datatype Point = Point(x: int, y: int)

  datatype Rect = Rect(left: int, top: int, right: int, bottom: int)

  /** The box `capture_screen_region` grabs for two corners given in any order. */
  function NormalizeRect(a: Point, b: Point): (r: Rect)
    ensures r.left <= r.right && r.top <= r.bottom
    ensures r.left <= a.x <= r.right && r.left <= b.x <= r.right
    ensures r.top <= a.y <= r.bottom && r.top <= b.y <= r.bottom
    ensures (r.left == a.x || r.left == b.x) && (r.right == a.x || r.right == b.x)
    ensures (r.top == a.y || r.top == b.y) && (r.bottom == a.y || r.bottom == b.y)
  {
    Rect(Min(a.x, b.x), Min(a.y, b.y), Max(a.x, b.x), Max(a.y, b.y))
  }

  /** The box is the smallest one holding both corners. */
  lemma NormalizeRectSmallest(a: Point, b: Point, box: Rect)
    requires box.left <= a.x <= box.right && box.left <= b.x <= box.right
    requires box.top <= a.y <= box.bottom && box.top <= b.y <= box.bottom
    ensures var r := NormalizeRect(a, b);
            box.left <= r.left && r.right <= box.right && box.top <= r.top && r.bottom <= box.bottom
  {
  }

  /** Dragging either way, or between the other two corners of the same box, grabs
      the same box. */
  lemma NormalizeRectSymmetric(a: Point, b: Point)
    ensures NormalizeRect(a, b) == NormalizeRect(b, a)
    ensures NormalizeRect(a, b) == NormalizeRect(Point(a.x, b.y), Point(b.x, a.y))
  {
  }

  /** Normalising the corners of a normalised box gives the box back. */
  lemma NormalizeRectIdempotent(a: Point, b: Point)
    ensures var r := NormalizeRect(a, b);
            NormalizeRect(Point(r.left, r.top), Point(r.right, r.bottom)) == r
  {
  }

  /** What Tesseract makes of an image: text, or the message of the exception it raised. */
  datatype OcrResult = Recognized(text: string) | OcrFailed(message: string)

  /** `extract_text_from_image`: the stripped text, or "Error: " and the message. */
  function ExtractText(ocr: OcrResult): (t: string)
    ensures ocr.Recognized? ==> IsStripped(t) && |t| <= |ocr.text|
    ensures ocr.Recognized? ==>
              exists a :: 0 <= a && a + |t| <= |ocr.text| && t == ocr.text[a..a + |t|]
                          && AllSpace(ocr.text[..a]) && AllSpace(ocr.text[a + |t|..])
    ensures t == "" <==> ocr.Recognized? && AllSpace(ocr.text)
    ensures ocr.OcrFailed? ==> |t| >= 7 && t[..7] == "Error: " && t[7..] == ocr.message
  {
    match ocr
    case Recognized(text) =>
      StripEmptyIffAllSpace(text);
      StripSpec(text);
      Strip(text)
    case OcrFailed(message) => "Error: " + message
  }

  /** Extracted text is empty exactly when the OCR read nothing but whitespace. */
  lemma ExtractTextEmpty(ocr: OcrResult)
    ensures ExtractText(ocr) == "" <==> ocr.Recognized? && AllSpace(ocr.text)
  {
    if ocr.Recognized? {
      StripEmptyIffAllSpace(ocr.text);
    }
  }

  /** Extracted text never starts with whitespace. */
  lemma ExtractTextStart(ocr: OcrResult)
    ensures ExtractText(ocr) == "" || !IsSpace(ExtractText(ocr)[0])
  {
  }

  /** `' '.join(text.split()[:3])`: the first three words of the text. */
  function Query(text: string): (r: string) {
    JoinSpace(Take(Words(text), 3))
  }

  /** The query splits back into exactly the first three words of the text. */
  lemma QueryWords(text: string)
    ensures Words(Query(text)) == Take(Words(text), 3)
    ensures |Words(Query(text))| <= 3
  {
    var ws := Take(Words(text), 3);
    assert forall k :: 0 <= k < |ws| ==> ws[k] == Words(text)[k];
    WordsOfJoin(ws);
  }

  /** A popup `process_selection` asks for with `root.after(delay, ...)`. */
  datatype Scheduled = Scheduled(delayMs: nat, entries: seq<string>, title: string)

  /** `last_extracted_text` afterwards, and the popups requested, in the order asked. */
  datatype Selection = Selection(lastExtracted: string, popups: seq<Scheduled>)

  function ExtractedPopup(text: string): (r: Scheduled) {
    Scheduled(0, ["Extracted Text:\n\n" + text], "OCR - Extracted Text")
  }

  /** The search-popup rule: a query is searched once the text is longer than two
      characters and has a word, and its results are shown unless the first of them
      is the no-match entry. */
  function SearchPopups(text: string, file: CorpusFile): (ps: seq<Scheduled>)
    ensures |ps| <= 1
    ensures |text| <= 2 || Words(text) == [] ==> ps == []
    ensures ps != [] ==> ps[0] == Scheduled(100, IndexedSearch.Search(Query(text), file), "Search Results")
    ensures ps != [] ==> !Contains(ps[0].entries[0], "No match found")
  {
    if |text| > 2 && Words(text) != [] then
      var matches := IndexedSearch.Search(Query(text), file);
      if matches != [] && !Contains(matches[0], "No match found") then
        [Scheduled(100, matches, "Search Results")]
      else []
    else []
  }

  /** `process_selection(start, end)`. */
  function ProcessSelection(last: string, start: Option<Point>, end: Option<Point>,
                            grab: Rect -> Option<OcrResult>, file: CorpusFile): (s: Selection)
    ensures s.popups == [] <==> s.lastExtracted == last
    ensures s.popups != [] ==> s.popups[0] == ExtractedPopup(s.lastExtracted) && s.lastExtracted != ""
    ensures |s.popups| <= 2
    ensures |s.popups| == 2 ==>
              s.popups[1] == Scheduled(100, IndexedSearch.Search(Query(s.lastExtracted), file), "Search Results")
  {
    if start.None? || end.None? then Selection(last, [])
    else
      match grab(NormalizeRect(start.value, end.value))
      case None => Selection(last, [])
      case Some(ocr) =>
        var text := ExtractText(ocr);
        if text == "" || text == last then Selection(last, [])
        else Selection(text, [ExtractedPopup(text)] + SearchPopups(text, file))
  }

  /** The decision in terms of its inputs: with both corners and a grab that gave an
      image, new non-empty text is shown and becomes `last_extracted_text`; anything
      else changes nothing and shows nothing. */
  lemma ProcessSelectionDecides(last: string, start: Option<Point>, end: Option<Point>,
                                grab: Rect -> Option<OcrResult>, file: CorpusFile)
    ensures var s := ProcessSelection(last, start, end, grab, file);
            var image := if start.Some? && end.Some? then grab(NormalizeRect(start.value, end.value)) else None;
            && (image.None? ==> s == Selection(last, []))
            && (image.Some? ==>
                  var text := ExtractText(image.value);
                  if text == "" || text == last then s == Selection(last, [])
                  else s.lastExtracted == text && s.popups[0] == ExtractedPopup(text))
  {
  }

  /** Text of three or more characters is always searched, because extracted text
      never starts with whitespace; the search popup shows the file's own results. */
  lemma LongTextIsSearched(text: string, file: CorpusFile)
    requires |text| > 2 && !IsSpace(text[0])
    ensures var ps := SearchPopups(text, file);
            var matches := IndexedSearch.Search(Query(text), file);
            ps != [] <==> !Contains(matches[0], "No match found")
  {
    WordsNonEmpty(text);
  }

  /** What `process_selection` leaves on screen once its requests have run, in the
      order their delays give them: nothing new when nothing was requested, the
      extracted text when no search popup was requested, and otherwise the search
      results at their first entry, which replace the extracted-text popup. */
  lemma ScheduledPopupsInOrder(p: Popup, last: string, start: Option<Point>, end: Option<Point>,
                               grab: Rect -> Option<OcrResult>, file: CorpusFile)
    ensures var s := ProcessSelection(last, start, end, grab, file);
            var after := ApplyAll(p, s.popups, true);
            && (s.popups == [] ==> after == p)
            && (|s.popups| == 1 ==>
                  after == Open("OCR - Extracted Text", ["Extracted Text:\n\n" + s.lastExtracted], 0))
            && (|s.popups| == 2 ==>
                  after == Open("Search Results", IndexedSearch.Search(Query(s.lastExtracted), file), 0))
  {
    var s := ProcessSelection(last, start, end, grab, file);
    if |s.popups| == 2 {
      var a := s.popups[0];
      var b := s.popups[1];
      var p1 := Create(p, a.title, a.entries, true);
      assert s.popups[1..] == [b] && [b][1..] == [];
      assert ApplyAll(p1, [b], true) == ApplyAll(Create(p1, b.title, b.entries, true), [], true);
    } else if |s.popups| == 1 {
      assert s.popups[1..] == [];
    }
  }

  /** The requested popups opened one after the other, as their delays order them. */
  function ApplyAll(p: Popup, ps: seq<Scheduled>, rootAlive: bool): (r: Popup)
    decreases |ps|
  {
    if ps == [] then p else ApplyAll(Create(p, ps[0].title, ps[0].entries, rootAlive), ps[1..], rootAlive)
  }

  // ---------------------------------------------------------------------------
  // The selection overlay
  // ---------------------------------------------------------------------------

  /** What the overlay (ocr_reader.py:216-270) receives. Drags only redraw the red
      rectangle. */
  datatype OverlayEvent = Down(at: Point) | Drag(at: Point) | Up(at: Point) | Escape

  /** How an overlay session ends: cancelled, or released with the corners it
      passes to `process_selection`. */
  datatype OverlayEnd = Cancelled | Released(start: Option<Point>, end: Point) | StillOpen

  /** The overlay from its first event on, `start` being the last press seen. */
  function OverlayRun(start: Option<Point>, es: seq<OverlayEvent>): (r: OverlayEnd)
    ensures r.Released? && start.None? && (forall k :: 0 <= k < |es| ==> !es[k].Down?) ==> r.start.None?
    decreases |es|
  {
    if es == [] then StillOpen
    else
      match es[0]
      case Down(p) => OverlayRun(Some(p), es[1..])
      case Drag(_) => OverlayRun(start, es[1..])
      case Up(p) => Released(start, p)
      case Escape => Cancelled
  }

  /** A press, any number of drags and a release hand the press point and the
      release point to `process_selection`. */
  lemma {:induction false} PressDragRelease(start: Option<Point>, a: Point, drags: seq<OverlayEvent>, b: Point)
    requires forall k :: 0 <= k < |drags| ==> drags[k].Drag?
    ensures OverlayRun(start, [Down(a)] + drags + [Up(b)]) == Released(Some(a), b)
  {
    DragsKeepStart(Some(a), drags, [Up(b)]);
    assert ([Down(a)] + drags + [Up(b)])[1..] == drags + [Up(b)];
  }

  /** Drags between events leave the overlay where it was. */
  lemma {:induction false} DragsKeepStart(start: Option<Point>, drags: seq<OverlayEvent>, rest: seq<OverlayEvent>)
    requires forall k :: 0 <= k < |drags| ==> drags[k].Drag?
    ensures OverlayRun(start, drags + rest) == OverlayRun(start, rest)
    decreases |drags|
  {
    if drags == [] {
      assert drags + rest == rest;
    } else {
      assert (drags + rest)[0] == drags[0];
      assert drags[0].Drag?;
      assert (drags + rest)[1..] == drags[1..] + rest;
      assert OverlayRun(start, drags + rest) == OverlayRun(start, drags[1..] + rest);
      DragsKeepStart(start, drags[1..], rest);
    }
  }

  /** Escape before any release closes the overlay without a selection, whatever
      presses and drags came first and whatever would have followed. */
  lemma {:induction false} EscapeCancels(start: Option<Point>, pre: seq<OverlayEvent>, rest: seq<OverlayEvent>)
    requires forall k :: 0 <= k < |pre| ==> pre[k].Down? || pre[k].Drag?
    ensures OverlayRun(start, pre + [Escape] + rest) == Cancelled
    decreases |pre|
  {
    if pre == [] {
      assert pre + [Escape] + rest == [Escape] + rest;
    } else {
      var next := if pre[0].Down? then Some(pre[0].at) else start;
      assert (pre + [Escape] + rest)[0] == pre[0];
      assert (pre + [Escape] + rest)[1..] == pre[1..] + [Escape] + rest;
      EscapeCancels(next, pre[1..], rest);
    }
  }

  /** A release with no press before it passes no start corner, so the selection
      is ignored. */
  lemma ReleaseWithoutPressIgnored(last: string, es: seq<OverlayEvent>, grab: Rect -> Option<OcrResult>,
                                   file: CorpusFile)
    requires forall k :: 0 <= k < |es| ==> !es[k].Down?
    requires OverlayRun(None, es).Released?
    ensures var r := OverlayRun(None, es);
            ProcessSelection(last, r.start, Some(r.end), grab, file) == Selection(last, [])
  {
  }
}
