/**
 The global hotkey of ocr_reader.py (`setup_hotkey_listener`,
 ocr_reader.py:315-347, and `on_hotkey`, ocr_reader.py:306-312): the listener
 keeps the set of keys held down and fires when `s` is pressed while Shift and
 Cmd (on macOS) or Ctrl (elsewhere) are held.
 */
module Hotkey {
  import opened Wrappers

  /** A key as the keyboard listener reports it: a named special key (`Key.cmd`,
      `Key.shift`, `Key.ctrl`, ...), which has no `char`, or a key code whose
      `char` may be missing. */
  datatype Key = Special(name: string) | Code(ch: Option<char>)

  datatype Platform = Darwin | OtherPlatform

  const Shift := Special("shift")

  /** The chord's modifier: Cmd on macOS, Ctrl elsewhere. */
  function Modifier(platform: Platform): (r: Key) {
    if platform == Darwin then Special("cmd") else Special("ctrl")
  }

  datatype PressResult = PressResult(held: set<Key>, fired: bool)

  /** `on_press`: the key joins the held set, and the hotkey fires when it is the
      `s` key while the modifier and Shift are held. */
  function OnPress(held: set<Key>, key: Key, platform: Platform): (r: PressResult)
    ensures r.held == held + {key}
    ensures r.fired <==> key == Code(Some('s')) && Modifier(platform) in held && Shift in held
  {
    var held' := held + {key};
    PressResult(held', Modifier(platform) in held' && Shift in held' && key.Code? && key.ch == Some('s'))
  }

  /** `on_release`: the key leaves the held set if it is in it. */
  function OnRelease(held: set<Key>, key: Key): (r: set<Key>)
    ensures key !in r
    ensures forall k :: k != key ==> (k in r <==> k in held)
  {
    if key in held then held - {key} else held
  }

  /** Releasing a key that is not held changes nothing, and releasing a key just
      pressed undoes the press unless it was already held. */
  lemma ReleaseUndoesPress(held: set<Key>, key: Key, platform: Platform)
    ensures key !in held ==> OnRelease(held, key) == held
    ensures key !in held ==> OnRelease(OnPress(held, key, platform).held, key) == held
  {
  }

  datatype KeyEvent = Press(key: Key) | Release(key: Key)

  /** The held set after a series of events, from `held`. */
  function Replay(held: set<Key>, es: seq<KeyEvent>, platform: Platform): (r: set<Key>)
    decreases |es|
  {
    if es == [] then held
    else
      var e := es[|es| - 1];
      var before := Replay(held, es[..|es| - 1], platform);
      match e
      case Press(k) => OnPress(before, k, platform).held
      case Release(k) => OnRelease(before, k)
  }

  /** `k` was last pressed: the last event about `k` is a press, or there is no
      event about `k` and it was held to begin with. */
  predicate LastPressed(held: set<Key>, es: seq<KeyEvent>, k: Key)
    decreases |es|
  {
    if es == [] then k in held
    else if es[|es| - 1].key == k then es[|es| - 1].Press?
    else LastPressed(held, es[..|es| - 1], k)
  }

  /** A key is held exactly when the last event about it was a press. */
  lemma {:induction false} ReplayHeld(held: set<Key>, es: seq<KeyEvent>, platform: Platform, k: Key)
    ensures k in Replay(held, es, platform) <==> LastPressed(held, es, k)
    decreases |es|
  {
    if es != [] {
      ReplayHeld(held, es[..|es| - 1], platform, k);
    }
  }

  /** Whether the hotkey fires on each event of a series, from `held`. */
  function Fired(held: set<Key>, es: seq<KeyEvent>, platform: Platform): (fs: seq<bool>)
    ensures |fs| == |es|
    decreases |es|
  {
    if es == [] then []
    else
      var before := Replay(held, es[..|es| - 1], platform);
      var e := es[|es| - 1];
      Fired(held, es[..|es| - 1], platform) + [e.Press? && OnPress(before, e.key, platform).fired]
  }

  /** The hotkey fires on an event exactly when the event is a press of `s` and the
      last events about the modifier and about Shift before it were presses. */
  lemma {:induction false} FiredIff(held: set<Key>, es: seq<KeyEvent>, platform: Platform)
    requires es != []
    ensures var e := es[|es| - 1];
            var before := es[..|es| - 1];
            Fired(held, es, platform)[|es| - 1] <==>
              e == Press(Code(Some('s'))) &&
              LastPressed(held, before, Modifier(platform)) && LastPressed(held, before, Shift)
  {
    var before := es[..|es| - 1];
    ReplayHeld(held, before, platform, Modifier(platform));
    ReplayHeld(held, before, platform, Shift);
  }

  /** From nothing held, pressing a special key, Shift and 's' fires on the 's'
      exactly when the special key is the platform's modifier. */
  lemma ChordOf(m: Key, platform: Platform)
    requires m.Special? && m != Shift
    ensures Fired({}, [Press(m), Press(Shift), Press(Code(Some('s')))], platform)
            == [false, false, m == Modifier(platform)]
  {
    var es := [Press(m), Press(Shift), Press(Code(Some('s')))];
    assert es[..2] == [Press(m), Press(Shift)];
    assert es[..2][..1] == [Press(m)];
    assert es[..2][..1][..0] == [];
    assert Replay({}, es[..2][..1], platform) == {m};
    assert Replay({}, es[..2], platform) == {m, Shift};
    assert Fired({}, es[..2][..1], platform) == [false];
    assert Fired({}, es[..2], platform) == [false, false];
  }

  /** `on_hotkey`: the selection overlay is requested exactly while the program runs
      and its root window exists. */
  function OnHotkey(running: bool, rootAlive: bool): (showOverlay: bool)
    ensures showOverlay <==> running && rootAlive
  {
    running && rootAlive
  }

  /** The overlays requested over a series of key events: one for each event that
      fires the chord, as long as the program runs with a live root window. */
  function OverlayRequests(held: set<Key>, es: seq<KeyEvent>, platform: Platform,
                           running: bool, rootAlive: bool): (r: nat)
    decreases |es|
  {
    if es == [] then 0
    else
      var before := es[..|es| - 1];
      var e := es[|es| - 1];
      var fired := e.Press? && OnPress(Replay(held, before, platform), e.key, platform).fired;
      OverlayRequests(held, before, platform, running, rootAlive)
        + (if fired && OnHotkey(running, rootAlive) then 1 else 0)
  }

  /** While the program runs with a live root, every firing of the chord requests
      one overlay; otherwise no key event requests any. */
  lemma {:induction false} OverlayRequestsCount(held: set<Key>, es: seq<KeyEvent>, platform: Platform,
                                                running: bool, rootAlive: bool)
    ensures OverlayRequests(held, es, platform, running, rootAlive) ==
            if running && rootAlive then CountTrue(Fired(held, es, platform)) else 0
    decreases |es|
  {
    if es != [] {
      var before := es[..|es| - 1];
      OverlayRequestsCount(held, before, platform, running, rootAlive);
      var fs := Fired(held, es, platform);
      assert fs == Fired(held, before, platform) + [fs[|es| - 1]];
      CountTrueSnoc(Fired(held, before, platform), fs[|es| - 1]);
    }
  }

  /** How many of the flags are set. */
  function CountTrue(bs: seq<bool>): (r: nat)
    decreases |bs|
  {
    if bs == [] then 0 else (if bs[0] then 1 else 0) + CountTrue(bs[1..])
  }

  lemma {:induction false} CountTrueSnoc(bs: seq<bool>, b: bool)
    ensures CountTrue(bs + [b]) == CountTrue(bs) + (if b then 1 else 0)
    decreases |bs|
  {
    if bs != [] {
      assert (bs + [b])[1..] == bs[1..] + [b];
      CountTrueSnoc(bs[1..], b);
    } else {
      assert [] + [b] == [b];
    }
  }
}
