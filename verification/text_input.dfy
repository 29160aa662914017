/**
 * `salvation/src/widgets/text_input.rs`: a single-line text input. The
 * model keeps the text buffer, the editor's viewport rectangle and the
 * horizontal scroll offset; text shaping, cursor geometry and selection
 * belong to the text engine and enter as parameters.
 */
module TextInput {
  import opened Wrappers
  import opened Geometry
  import ScrollBars

  /** `sanitize`: every line break becomes a space, so the text stays on one line. */
  function Sanitize(text: string): (r: string)
    ensures |r| == |text|
    ensures forall i :: 0 <= i < |text| ==> r[i] == if text[i] == '\n' then ' ' else text[i]
    ensures '\n' !in r
  {
    if |text| == 0 then ""
    else [if text[0] == '\n' then ' ' else text[0]] + Sanitize(text[1..])
  }

  /** Text without line breaks passes through unchanged; in particular sanitising is idempotent. */
  lemma {:induction false} SanitizeKeepsSingleLine(text: string)
    requires '\n' !in text
    ensures Sanitize(text) == text
  {
    var r := Sanitize(text);
    assert forall i :: 0 <= i < |text| ==> text[i] != '\n' by {
      forall i | 0 <= i < |text| ensures text[i] != '\n' {
        assert text[i] in text;
      }
    }
    assert forall i :: 0 <= i < |text| ==> r[i] == text[i];
  }

  lemma SanitizeIsIdempotent(text: string)
    ensures Sanitize(Sanitize(text)) == Sanitize(text)
  {
    SanitizeKeepsSingleLine(Sanitize(text));
  }

  /** The widget's state: text buffer, viewport rectangle, scroll offset. */
  datatype TextInput = TextInput(text: string, viewport: Rect, scrollX: int)

  /** The buffer holds one line. */
  predicate SingleLine(t: TextInput) {
    '\n' !in t.text
  }

  /** `TextInput::new`: the sanitised text, an empty viewport at the origin, no scroll. */
  function New(text: string): (t: TextInput)
    ensures SingleLine(t) && t.text == Sanitize(text)
    ensures t.scrollX == 0 && t.viewport == Rect(Point(0, 0), Size(0, 0))
  {
    TextInput(Sanitize(text), Rect(Point(0, 0), Size(0, 0)), 0)
  }

  /**
   * `set_text`: the text is sanitised before it reaches the buffer, then
   * `after_change` adjusts the scroll offset to the editor's new cursor
   * position and text width (`cursorX`, `editorWidth`, supplied by the
   * text engine after the edit).
   */
  function SetText(t: TextInput, text: string, cursorX: Option<int>, editorWidth: int): (r: TextInput)
    ensures SingleLine(r) && r.text == Sanitize(text)
    ensures r.viewport == t.viewport
    ensures 0 <= r.scrollX <= ScrollBars.MaxValue(editorWidth, t.viewport.size.x)
    ensures r.scrollX == AdjustScroll(t.scrollX, cursorX, editorWidth, t.viewport.size.x).0
  {
    t.(text := Sanitize(text), scrollX := AdjustScroll(t.scrollX, cursorX, editorWidth, t.viewport.size.x).0)
  }

  /**
   * The scroll offset after bringing the cursor into view, before the
   * clamp: a cursor left of the viewport moves to its left edge, one right
   * of its last pixel column to that column.
   */
  function FollowCursor(scrollX: int, cursorX: Option<int>, viewportWidth: int): (s: int)
    ensures cursorX.None? ==> s == scrollX
    ensures cursorX.Some? && cursorX.value - scrollX < 0 ==> cursorX.value - s == 0
    ensures cursorX.Some? && 0 <= cursorX.value - scrollX && cursorX.value - scrollX > viewportWidth - 1 ==>
      cursorX.value - s == viewportWidth - 1
    ensures cursorX.Some? && 0 <= cursorX.value - scrollX <= viewportWidth - 1 ==> s == scrollX
  {
    match cursorX
    case None => scrollX
    case Some(cx) =>
      var inViewport := cx - scrollX;
      if inViewport < 0 then scrollX - -inViewport
      else if inViewport > viewportWidth - 1 then scrollX + (inViewport - (viewportWidth - 1))
      else scrollX
  }

  /**
   * `adjust_scroll`: follow the cursor, then clamp into
   * `0..=max(0, editor width - viewport width)`. The second component says
   * whether a repaint was requested, which happens exactly when the clamp
   * moved the offset.
   */
  function AdjustScroll(scrollX: int, cursorX: Option<int>, editorWidth: int, viewportWidth: int): (r: (int, bool))
    ensures 0 <= r.0 <= ScrollBars.MaxValue(editorWidth, viewportWidth)
    ensures r.1 <==> r.0 != FollowCursor(scrollX, cursorX, viewportWidth)
    ensures 0 <= FollowCursor(scrollX, cursorX, viewportWidth) <= ScrollBars.MaxValue(editorWidth, viewportWidth) ==>
      r.0 == FollowCursor(scrollX, cursorX, viewportWidth)
    ensures FollowCursor(scrollX, cursorX, viewportWidth) < 0 ==> r.0 == 0
    ensures FollowCursor(scrollX, cursorX, viewportWidth) > ScrollBars.MaxValue(editorWidth, viewportWidth) ==>
      r.0 == ScrollBars.MaxValue(editorWidth, viewportWidth)
  {
    var followed := FollowCursor(scrollX, cursorX, viewportWidth);
    var clamped := ScrollBars.Clamp(followed, 0, ScrollBars.MaxValue(editorWidth, viewportWidth));
    (clamped, clamped != followed)
  }

  /**
   * A cursor inside the text stays visible after `adjust_scroll`: it ends
   * up between the viewport's left edge and one pixel past its right edge
   * (the latter only for a cursor at the very end of a text wider than
   * the viewport).
   */
  lemma CursorStaysVisible(scrollX: int, cursorX: int, editorWidth: int, viewportWidth: int)
    requires 0 <= cursorX <= editorWidth && viewportWidth >= 1
    ensures var s := AdjustScroll(scrollX, Some(cursorX), editorWidth, viewportWidth).0;
      0 <= cursorX - s <= viewportWidth
    ensures cursorX < editorWidth ==>
      var s := AdjustScroll(scrollX, Some(cursorX), editorWidth, viewportWidth).0;
      cursorX - s <= viewportWidth - 1
  {
  }

  /**
   * `adjust_scroll` leaves the offset where it is when nothing else moves.
   * (The repaint flag may still be raised: a cursor at the very end of a
   * text wider than the viewport is pulled one pixel right and clamped
   * back every time.)
   */
  lemma AdjustScrollIsIdempotent(scrollX: int, cursorX: Option<int>, editorWidth: int, viewportWidth: int)
    requires cursorX.Some? ==> 0 <= cursorX.value <= editorWidth && viewportWidth >= 1
    ensures var s := AdjustScroll(scrollX, cursorX, editorWidth, viewportWidth).0;
      AdjustScroll(s, cursorX, editorWidth, viewportWidth).0 == s
  {
    var s := AdjustScroll(scrollX, cursorX, editorWidth, viewportWidth).0;
    if cursorX.Some? {
      CursorStaysVisible(scrollX, cursorX.value, editorWidth, viewportWidth);
      if cursorX.value - s == viewportWidth {
        assert cursorX.value == editorWidth;
      }
    }
  }

  /**
   * Setting the same text twice, with the text engine reporting the same
   * cursor inside the text, changes nothing the second time; and the last
   * text set is the one kept.
   */
  lemma SetTextSettles(t: TextInput, text: string, other: string, cursorX: Option<int>, editorWidth: int)
    requires cursorX.Some? ==> 0 <= cursorX.value <= editorWidth && t.viewport.size.x >= 1
    ensures var once := SetText(t, text, cursorX, editorWidth);
            SetText(once, text, cursorX, editorWidth) == once
    ensures SetText(SetText(t, other, cursorX, editorWidth), text, cursorX, editorWidth).text ==
            SetText(t, text, cursorX, editorWidth).text
  {
    AdjustScrollIsIdempotent(t.scrollX, cursorX, editorWidth, t.viewport.size.x);
  }

  /**
   * `update_viewport_rect`: without a rectangle nothing changes. With
   * one, the viewport starts at the horizontal padding, is as wide as the
   * rectangle minus both paddings (never negative), as tall as the text
   * line or the rectangle, whichever is smaller, and centred vertically;
   * then the scroll offset is adjusted to it.
   */
  function UpdateViewportRect(t: TextInput, rectInWindow: Option<Rect>, paddingX: int, editorSize: Size,
                              cursorX: Option<int>): (r: TextInput)
    ensures rectInWindow.None? ==> r == t
    ensures rectInWindow.Some? ==>
      var size := rectInWindow.value.size;
      r.viewport.topLeft.x == paddingX &&
      r.viewport.size.x == ScrollBars.MaxValue(size.x, 2 * paddingX) &&
      r.viewport.size.y == Min(size.y, editorSize.y) &&
      r.scrollX == AdjustScroll(t.scrollX, cursorX, editorSize.x, r.viewport.size.x).0
    ensures rectInWindow.Some? && rectInWindow.value.size.y >= 0 ==>
      var h := rectInWindow.value.size.y;
      r.viewport.topLeft.y == (h - r.viewport.size.y) / 2 &&
      0 <= r.viewport.topLeft.y && r.viewport.topLeft.y + r.viewport.size.y <= h
    ensures r.text == t.text
  {
    match rectInWindow
    case None => t
    case Some(rect) =>
      var offsetY := Max(0, rect.size.y - editorSize.y) / 2;
      var viewport := Rect(Point(paddingX, offsetY),
                           Size(Max(0, rect.size.x - 2 * paddingX), Min(rect.size.y, editorSize.y)));
      t.(viewport := viewport, scrollX := AdjustScroll(t.scrollX, cursorX, editorSize.x, viewport.size.x).0)
  }

  /** The padding on both sides of the viewport is the same when the rectangle is wide enough. */
  lemma ViewportIsCentredHorizontally(t: TextInput, rect: Rect, paddingX: int, editorSize: Size, cursorX: Option<int>)
    requires rect.size.x >= 2 * paddingX
    ensures var v := UpdateViewportRect(t, Some(rect), paddingX, editorSize, cursorX).viewport;
      v.topLeft.x + v.size.x + paddingX == rect.size.x
  {
  }

  /** `recalculate_size_hint_x`: the style's width for the mode; the width is never fixed. */
  function SizeHintX(minWidth: int, preferredWidth: int): (h: SizeHint)
    ensures h.min == minWidth && h.preferred == preferredWidth && !h.isFixed
  {
    SizeHint(minWidth, preferredWidth, false)
  }

  /** `recalculate_size_hint_y` for one mode: the text line's height plus the padding on both sides. */
  function SizeHintY(editorHeight: int, paddingY: int): (h: int)
    ensures h - 2 * paddingY == editorHeight
  {
    editorHeight + 2 * paddingY
  }

  /** The logical keys that carry text but are refused by the input. */
  datatype LogicalKey = Tab | Enter | Escape | OtherKey

  /**
   * What a key press resolves to among the standard shortcuts, as far as
   * the buffer is concerned:
   * - `Paste` carries the clipboard's content, or `None` when reading the
   *   clipboard failed;
   * - `Erase` stands for the shortcuts whose engine action removes text:
   *   delete, backspace, cut, and deleting to the start or end of a word.
   *   The text engine removes the characters from `from` up to `to`, the
   *   selection or the character or word run next to the cursor, and it
   *   decides the bounds;
   * - `KeepText` stands for the shortcuts that leave the text as it is:
   *   cursor movement, selection, copy, and undo and redo, which are not
   *   implemented.
   */
  datatype Shortcut = Paste(clipboard: Option<string>) | Erase(from: nat, to: nat) | KeepText

  /** How the buffer changed. */
  datatype KeyOutcome = Unhandled | Kept | Inserted(inserted: string) | Erased(removed: nat)

  /** The editor's insertion of a string at a character index (clamped to the text). */
  function InsertAt(text: string, at: nat, s: string): (r: string)
    ensures |r| == |text| + |s|
    ensures '\n' !in text && '\n' !in s ==> '\n' !in r
  {
    var i := if at <= |text| then at else |text|;
    text[..i] + s + text[i..]
  }

  /**
   * The engine's removal of the characters in `[from, to)`, both bounds
   * clamped to the text; reversed bounds remove nothing.
   */
  function EraseRange(text: string, from: nat, to: nat): (r: string)
    ensures var lo := if from <= |text| then from else |text|;
            var hi := if to <= lo then lo else if to <= |text| then to else |text|;
            |r| == |text| - (hi - lo) && r[..lo] == text[..lo] && r[lo..] == text[hi..]
    ensures '\n' !in text ==> '\n' !in r
  {
    var lo := if from <= |text| then from else |text|;
    var hi := if to <= lo then lo else if to <= |text| then to else |text|;
    text[..lo] + text[hi..]
  }

  /** Typing a string and then erasing exactly what was typed restores the text. */
  lemma TypeThenEraseRestores(text: string, at: nat, s: string)
    requires at <= |text|
    ensures EraseRange(InsertAt(text, at, s), at, at + |s|) == text
  {
    var ins := InsertAt(text, at, s);
    assert ins[..at] == text[..at];
    assert ins[at + |s|..] == text[at..];
    assert text[..at] + text[at..] == text;
  }

  /**
   * One key event as the input sees it: the shortcut it matched, if any,
   * its text, its logical key, the cursor's character index, and the text
   * engine's cursor position and text width once the edit is done.
   */
  datatype KeyEvent = KeyEvent(pressed: bool, shortcut: Option<Shortcut>, text: Option<string>,
                               logicalKey: LogicalKey, at: nat, cursorX: Option<int>, editorWidth: int)

  /**
   * `handle_keyboard_input`: a release is accepted and ignored; a
   * matching shortcut is performed; otherwise text is inserted after
   * sanitising, except for Tab, Enter and Escape, which are refused, as is
   * a key without text. Every accepted press ends in `after_change`, which
   * adjusts the scroll offset; refused keys change nothing.
   */
  function HandleKeyboardInput(t: TextInput, e: KeyEvent): (r: (TextInput, KeyOutcome, bool))
    ensures !e.pressed ==> r == (t, Unhandled, true)
    ensures e.pressed && e.shortcut.None? && e.text.None? ==> r == (t, Unhandled, false)
    ensures e.pressed && e.shortcut.None? && e.text.Some? && e.logicalKey != OtherKey ==> r == (t, Unhandled, false)
    ensures e.pressed && e.shortcut.None? && e.text.Some? && e.logicalKey == OtherKey ==>
      r.2 && r.1 == Inserted(Sanitize(e.text.value)) && r.0.text == InsertAt(t.text, e.at, Sanitize(e.text.value))
    ensures e.pressed && e.shortcut.Some? ==> r.2
    ensures e.pressed && e.shortcut == Some(Paste(None)) ==> r.1 == Unhandled && r.0.text == t.text
    ensures e.pressed && e.shortcut.Some? && e.shortcut.value.Paste? && e.shortcut.value.clipboard.Some? ==>
      r.1 == Inserted(Sanitize(e.shortcut.value.clipboard.value))
    ensures e.pressed && e.shortcut.Some? && e.shortcut.value.Erase? ==>
      r.1.Erased? && r.1.removed == |t.text| - |r.0.text| &&
      r.0.text == EraseRange(t.text, e.shortcut.value.from, e.shortcut.value.to)
    ensures e.pressed && e.shortcut == Some(KeepText) ==> r.1 == Kept && r.0.text == t.text
    ensures e.pressed && r.2 ==>
      r.0.viewport == t.viewport &&
      r.0.scrollX == AdjustScroll(t.scrollX, e.cursorX, e.editorWidth, t.viewport.size.x).0 &&
      0 <= r.0.scrollX <= ScrollBars.MaxValue(e.editorWidth, t.viewport.size.x)
    ensures r.1.Inserted? ==> '\n' !in r.1.inserted && r.0.text == InsertAt(t.text, e.at, r.1.inserted)
    ensures r.1.Unhandled? || r.1.Kept? ==> r.0.text == t.text
    ensures SingleLine(t) ==> SingleLine(r.0)
  {
    var scrolled := t.(scrollX := AdjustScroll(t.scrollX, e.cursorX, e.editorWidth, t.viewport.size.x).0);
    if !e.pressed then (t, Unhandled, true)
    else match e.shortcut
      case Some(Paste(Some(clip))) =>
        var s := Sanitize(clip);
        (scrolled.(text := InsertAt(t.text, e.at, s)), Inserted(s), true)
      case Some(Paste(None)) => (scrolled, Unhandled, true)
      case Some(Erase(from, to)) =>
        var after := EraseRange(t.text, from, to);
        (scrolled.(text := after), Erased(|t.text| - |after|), true)
      case Some(KeepText) => (scrolled, Kept, true)
      case None =>
        match e.text
        case None => (t, Unhandled, false)
        case Some(typed) =>
          if e.logicalKey != OtherKey then (t, Unhandled, false)
          else
            var s := Sanitize(typed);
            (scrolled.(text := InsertAt(t.text, e.at, s)), Inserted(s), true)
  }

  /** However many key presses arrive, the buffer never gains a line break. */
  lemma {:induction false} KeyboardKeepsSingleLine(t: TextInput, keys: seq<KeyEvent>)
    requires SingleLine(t)
    ensures SingleLine(Replay(t, keys))
    decreases |keys|
  {
    if |keys| > 0 {
      KeyboardKeepsSingleLine(HandleKeyboardInput(t, keys[0]).0, keys[1..]);
    }
  }

  /** The state after a sequence of key events. */
  function Replay(t: TextInput, keys: seq<KeyEvent>): TextInput
    decreases |keys|
  {
    if |keys| == 0 then t
    else Replay(HandleKeyboardInput(t, keys[0]).0, keys[1..])
  }
}
