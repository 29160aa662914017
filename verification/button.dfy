/**
 * `salvation/src/widgets/button.rs`: a push button with an `Active`
 * pseudo-class while pressed, a trigger on press or on release, optional
 * auto-repeat timers, and press tracking across the pointer leaving and
 * re-entering the button.
 */
module SalvationButton {
  import opened Wrappers
  import opened Geometry
  import opened Address
  import Css

  type TimerId = nat

  datatype Button = Button(
    text: string,
    textVisible: bool,
    autoRepeat: bool,
    mouseLeaveSensitive: bool,
    triggerOnPress: bool,
    isPressed: bool,
    wasPressedButMovedOut: bool,
    delayTimer: Option<TimerId>,
    intervalTimer: Option<TimerId>,
    pseudoClasses: set<Css.MyPseudoClass>,
    enabled: bool,
    focused: bool,
    focusable: bool)

  /**
   * What a handler did besides changing the button: how many times the
   * `on_triggered` callbacks ran, which timers it cancelled, and whether
   * it asked the window for focus.
   */
  datatype Effects = Effects(triggers: nat, cancelled: seq<TimerId>, focusRequested: bool)

  const NoEffects := Effects(0, [], false)

  /** Effects of one step followed by another. */
  function Then(a: Effects, b: Effects): (r: Effects)
    ensures r.triggers == a.triggers + b.triggers
    ensures r.cancelled == a.cancelled + b.cancelled
    ensures r.focusRequested == (a.focusRequested || b.focusRequested)
  {
    Effects(a.triggers + b.triggers, a.cancelled + b.cancelled, a.focusRequested || b.focusRequested)
  }

  function TimerList(t: Option<TimerId>): (r: seq<TimerId>)
    ensures t.None? <==> r == []
    ensures t.Some? ==> r == [t.value]
  {
    if t.Some? then [t.value] else []
  }

  /** `Button::new`: focusable, text shown, leave-sensitive, triggering on release. */
  function New(text: string): (b: Button)
    ensures !b.isPressed && !b.wasPressedButMovedOut && b.delayTimer.None? && b.intervalTimer.None?
    ensures b.textVisible && !b.autoRepeat && b.mouseLeaveSensitive && !b.triggerOnPress && b.focusable
  {
    Button(text, true, false, true, false, false, false, None, None, {}, true, false, true)
  }

  /** The `Active` pseudo-class is present exactly while the button is pressed. */
  predicate ActiveAgrees(b: Button) {
    (Css.Active in b.pseudoClasses) <==> b.isPressed
  }

  /** No auto-repeat timer outlives a press. */
  predicate TimersIdle(b: Button) {
    !b.isPressed ==> b.delayTimer.None? && b.intervalTimer.None?
  }

  /**
   * `set_pressed`. A call that does not change the pressed state does
   * nothing. Otherwise the `Active` pseudo-class follows the new state;
   * unless suppressed, a press triggers when `trigger_on_press` is set and
   * a release when it is not; a press with auto-repeat starts the delay
   * timer (`newTimer` is the id the timer service hands out), and a release
   * cancels and clears both timers.
   */
  function SetPressed(b: Button, value: bool, suppress: bool, newTimer: TimerId): (r: (Button, Effects))
    ensures b.isPressed == value ==> r == (b, NoEffects)
    ensures r.0.isPressed == value
    ensures b.isPressed != value ==>
      ((Css.Active in r.0.pseudoClasses) <==> value) &&
      r.0.pseudoClasses - {Css.Active} == b.pseudoClasses - {Css.Active}
    ensures r.1.triggers == if b.isPressed != value && !suppress && value == b.triggerOnPress then 1 else 0
    ensures b.isPressed && !value ==>
      r.0.delayTimer.None? && r.0.intervalTimer.None? &&
      r.1.cancelled == TimerList(b.delayTimer) + TimerList(b.intervalTimer)
    ensures !b.isPressed && value ==>
      r.1.cancelled == [] && r.0.intervalTimer == b.intervalTimer &&
      r.0.delayTimer == if b.autoRepeat then Some(newTimer) else b.delayTimer
    ensures !r.1.focusRequested
    ensures r.0 == b.(isPressed := r.0.isPressed, pseudoClasses := r.0.pseudoClasses,
                      delayTimer := r.0.delayTimer, intervalTimer := r.0.intervalTimer)
  {
    if b.isPressed == value then (b, NoEffects)
    else if value then
      var pressed := b.(isPressed := true, pseudoClasses := b.pseudoClasses + {Css.Active});
      var triggers := if b.triggerOnPress && !suppress then 1 else 0;
      var timed := if b.autoRepeat then pressed.(delayTimer := Some(newTimer)) else pressed;
      (timed, Effects(triggers, [], false))
    else
      var released := b.(isPressed := false, pseudoClasses := b.pseudoClasses - {Css.Active},
                         delayTimer := None, intervalTimer := None);
      var triggers := if !b.triggerOnPress && !suppress then 1 else 0;
      (released, Effects(triggers, TimerList(b.delayTimer) + TimerList(b.intervalTimer), false))
  }

  /** `set_pressed` keeps both invariants. */
  lemma SetPressedKeepsInvariants(b: Button, value: bool, suppress: bool, newTimer: TimerId)
    requires ActiveAgrees(b) && TimersIdle(b)
    ensures ActiveAgrees(SetPressed(b, value, suppress, newTimer).0)
    ensures TimersIdle(SetPressed(b, value, suppress, newTimer).0)
  {
  }

  /**
   * Without suppression, a press followed by a release triggers exactly
   * once, whichever of the two `trigger_on_press` picks, and leaves no
   * timer behind.
   */
  lemma PressReleaseTriggersOnce(b: Button, timer1: TimerId, timer2: TimerId)
    requires !b.isPressed
    ensures var (b1, e1) := SetPressed(b, true, false, timer1);
      var (b2, e2) := SetPressed(b1, false, false, timer2);
      e1.triggers + e2.triggers == 1 && !b2.isPressed &&
      b2.delayTimer.None? && b2.intervalTimer.None? && Css.Active !in b2.pseudoClasses
  {
  }

  /**
   * `start_auto_repeat`, run when the delay timer fires: nothing while
   * disabled; otherwise one trigger and the interval timer starts.
   */
  function StartAutoRepeat(b: Button, newTimer: TimerId): (r: (Button, Effects))
    ensures !b.enabled ==> r == (b, NoEffects)
    ensures b.enabled ==> r.0 == b.(intervalTimer := Some(newTimer)) && r.1 == Effects(1, [], false)
  {
    if !b.enabled then (b, NoEffects)
    else (b.(intervalTimer := Some(newTimer)), Effects(1, [], false))
  }

  /** One tick of the interval timer: a trigger while enabled. */
  function AutoRepeatTick(b: Button): (e: Effects)
    ensures e.triggers == if b.enabled then 1 else 0
    ensures e.cancelled == [] && !e.focusRequested
  {
    if b.enabled then Effects(1, [], false) else NoEffects
  }

  /** Why a handler stopped: the widget had no rectangle or no window. */
  datatype ButtonError = NoRect | NoWindow

  /**
   * A handler's outcome. The button's changes survive an error, as the
   * Rust handler mutates the widget before its `?` returns.
   */
  datatype Outcome = Outcome(button: Button, effects: Effects, result: Result<bool, ButtonError>)

  /**
   * `handle_mouse_move` with re-entry clearing `was_pressed_but_moved_out`.
   * Leaving the rectangle while pressed and leave-sensitive unpresses the
   * button without triggering and remembers the press; coming back
   * re-presses it without triggering.
   */
  function HandleMouseMove(b: Button, pos: Point, rect: Option<Rect>, newTimer: TimerId): (r: Outcome)
    ensures rect.None? ==> r == Outcome(b, NoEffects, Err(NoRect))
    ensures rect.Some? ==> r.result == Ok(true) && r.effects.triggers == 0
    ensures rect.Some? && Contains(rect.value, pos) ==>
      !r.button.wasPressedButMovedOut &&
      (b.wasPressedButMovedOut ==> r.button.isPressed) &&
      (!b.wasPressedButMovedOut ==> r.button == b)
    ensures rect.Some? && !Contains(rect.value, pos) ==>
      if b.isPressed && b.mouseLeaveSensitive then
        !r.button.isPressed && r.button.wasPressedButMovedOut
      else r.button == b
  {
    match rect
    case None => Outcome(b, NoEffects, Err(NoRect))
    case Some(rr) =>
      if Contains(rr, pos) then
        if b.wasPressedButMovedOut then
          var (b1, e1) := SetPressed(b.(wasPressedButMovedOut := false), true, true, newTimer);
          Outcome(b1, e1, Ok(true))
        else Outcome(b, NoEffects, Ok(true))
      else if b.isPressed && b.mouseLeaveSensitive then
        var (b1, e1) := SetPressed(b.(wasPressedButMovedOut := true), false, true, newTimer);
        Outcome(b1, e1, Ok(true))
      else Outcome(b, NoEffects, Ok(true))
  }

  /**
   * `handle_mouse_move` as written: on re-entry the flag is assigned
   * `true` again (button.rs line 215), so it stays set after the button
   * has been re-pressed.
   */
  function HandleMouseMoveAsWritten(b: Button, pos: Point, rect: Option<Rect>, newTimer: TimerId): (r: Outcome)
    ensures rect.Some? && Contains(rect.value, pos) && b.wasPressedButMovedOut ==>
      r.button.wasPressedButMovedOut && r.button.isPressed
    ensures rect.Some? && Contains(rect.value, pos) && !b.wasPressedButMovedOut ==> r.button == b
  {
    match rect
    case None => Outcome(b, NoEffects, Err(NoRect))
    case Some(rr) =>
      if Contains(rr, pos) then
        if b.wasPressedButMovedOut then
          var (b1, e1) := SetPressed(b.(wasPressedButMovedOut := true), true, true, newTimer);
          Outcome(b1, e1, Ok(true))
        else Outcome(b, NoEffects, Ok(true))
      else if b.isPressed && b.mouseLeaveSensitive then
        var (b1, e1) := SetPressed(b.(wasPressedButMovedOut := true), false, true, newTimer);
        Outcome(b1, e1, Ok(true))
      else Outcome(b, NoEffects, Ok(true))
  }

  /**
   * A left press on an enabled button: it presses (triggering per
   * `trigger_on_press`) and, unless already focused, asks the window for
   * focus when focusable; without a window the handler fails after the
   * press.
   */
  function MousePress(b: Button, window: Option<WindowId>, newTimer: TimerId): (r: Outcome)
    ensures r.button.isPressed
    ensures r.effects.triggers == (if !b.isPressed && b.triggerOnPress then 1 else 0)
    ensures r.effects.focusRequested == (!b.focused && b.focusable && window.Some?)
    ensures r.result.Err? <==> !b.focused && window.None?
  {
    var r := SetPressed(b, true, false, newTimer);
    if b.focused then Outcome(r.0, r.1, Ok(true))
    else if window.None? then Outcome(r.0, r.1, Err(NoWindow))
    else Outcome(r.0, Then(r.1, Effects(0, [], b.focusable)), Ok(true))
  }

  /** A left release on an enabled button: it forgets any moved-out press and releases. */
  function MouseRelease(b: Button, newTimer: TimerId): (r: Outcome)
    ensures r.result == Ok(true) && !r.button.isPressed && !r.button.wasPressedButMovedOut
    ensures b.isPressed ==> r.button.delayTimer.None? && r.button.intervalTimer.None?
    ensures r.effects.triggers == (if b.isPressed && !b.triggerOnPress then 1 else 0)
  {
    var r := SetPressed(b.(wasPressedButMovedOut := false), false, false, newTimer);
    Outcome(r.0, r.1, Ok(true))
  }

  /**
   * `handle_mouse_input`: a disabled button accepts the event and does
   * nothing; so does any button other than the left one.
   */
  function HandleMouseInput(b: Button, isLeftButton: bool, pressed: bool, window: Option<WindowId>,
                            newTimer: TimerId): (r: Outcome)
    ensures !b.enabled || !isLeftButton ==> r == Outcome(b, NoEffects, Ok(true))
    ensures b.enabled && isLeftButton ==> r.button.isPressed == pressed
    ensures b.enabled && isLeftButton && pressed ==> r == MousePress(b, window, newTimer)
    ensures b.enabled && isLeftButton && !pressed ==> r == MouseRelease(b, newTimer)
  {
    if !b.enabled || !isLeftButton then Outcome(b, NoEffects, Ok(true))
    else if pressed then MousePress(b, window, newTimer)
    else MouseRelease(b, newTimer)
  }

  /** The physical keys the button looks at. */
  datatype PhysicalKey = CodeSpace | CodeEnter | CodeNumpadEnter | OtherCode

  /** The logical keys the button looks at. */
  datatype LogicalKey = NamedSpace | NamedEnter | OtherLogical

  /**
   * `handle_keyboard_input`: Space (physical or logical) presses or
   * releases like the mouse; Enter (either physical Enter key, or logical)
   * triggers at once; any other key is refused.
   */
  function HandleKeyboardInput(b: Button, physical: PhysicalKey, logical: LogicalKey, pressed: bool,
                               newTimer: TimerId): (r: (Button, Effects, bool))
    ensures (physical == CodeSpace || logical == NamedSpace) ==>
      r.2 && (r.0, r.1) == SetPressed(b, pressed, false, newTimer)
    ensures (!(physical == CodeSpace || logical == NamedSpace) &&
      (physical == CodeEnter || physical == CodeNumpadEnter || logical == NamedEnter)) ==>
      r == (b, Effects(1, [], false), true)
    ensures physical == OtherCode && logical == OtherLogical ==> r == (b, NoEffects, false)
  {
    if physical == CodeSpace || logical == NamedSpace then
      var (b1, e1) := SetPressed(b, pressed, false, newTimer);
      (b1, e1, true)
    else if physical == CodeEnter || physical == CodeNumpadEnter || logical == NamedEnter then
      (b, Effects(1, [], false), true)
    else (b, NoEffects, false)
  }

  /** The accessibility actions the button looks at. */
  datatype AccessibleAction = DefaultAction | FocusAction | OtherAction

  /**
   * `handle_accessible_action`: the default action triggers; the focus
   * action asks the window for focus, failing without a window.
   */
  function HandleAccessibleAction(b: Button, action: AccessibleAction, window: Option<WindowId>): (r: Result<Effects, ButtonError>)
    ensures action == DefaultAction ==> r == Ok(Effects(1, [], false))
    ensures action == FocusAction ==> (r.Err? <==> window.None?) && (r.Ok? ==> r.value == Effects(0, [], true))
    ensures action == OtherAction ==> r == Ok(NoEffects)
  {
    match action
    case DefaultAction => Ok(Effects(1, [], false))
    case FocusAction => if window.None? then Err(NoWindow) else Ok(Effects(0, [], true))
    case OtherAction => Ok(NoEffects)
  }

  /**
   * `handle_widget_scope_change` after the widget's enabled state became
   * `enabled`: a disabled button cancels both timers, releases without
   * triggering and forgets any moved-out press.
   */
  function HandleScopeChange(b: Button, enabled: bool, newTimer: TimerId): (r: (Button, Effects))
    ensures enabled ==> r == (b.(enabled := true), NoEffects)
    ensures !enabled ==>
      !r.0.enabled && !r.0.isPressed && !r.0.wasPressedButMovedOut &&
      r.0.delayTimer.None? && r.0.intervalTimer.None? &&
      r.1.triggers == 0 && r.1.cancelled == TimerList(b.delayTimer) + TimerList(b.intervalTimer)
    ensures ActiveAgrees(b) ==> ActiveAgrees(r.0)
  {
    var b0 := b.(enabled := enabled);
    if enabled then (b0, NoEffects)
    else
      var stopped := b0.(delayTimer := None, intervalTimer := None);
      var (b1, e1) := SetPressed(stopped, false, true, newTimer);
      (b1.(wasPressedButMovedOut := false),
       Then(Effects(0, TimerList(b.delayTimer) + TimerList(b.intervalTimer), false), e1))
  }

  /**
   * `recalculate_size_hint_x` / `_y` for one axis: the text's extent when
   * the text is shown, else the icon's, else 0, plus the padding (with
   * border) on both sides for the requested mode.
   */
  function AxisHint(textVisible: bool, textExtent: int, iconExtent: Option<int>, padding: int): (h: int)
    ensures textVisible ==> h == textExtent + 2 * padding
    ensures !textVisible && iconExtent.Some? ==> h == iconExtent.value + 2 * padding
    ensures !textVisible && iconExtent.None? ==> h == 2 * padding
  {
    var content := if textVisible then textExtent else if iconExtent.Some? then iconExtent.value else 0;
    content + 2 * padding
  }

  datatype SizeHintMode = MinMode | PreferredMode

  /** The two paddings (border included) of the button's style. */
  datatype PaddingStyle = PaddingStyle(minPaddingWithBorder: Point, preferredPaddingWithBorder: Point)

  function ModePadding(style: PaddingStyle, mode: SizeHintMode): Point {
    match mode
    case MinMode => style.minPaddingWithBorder
    case PreferredMode => style.preferredPaddingWithBorder
  }

  /**
   * `recalculate_size_hint_x` of a button: its text's width when the text
   * is shown, else its icon's, plus the mode's horizontal padding on both
   * sides. `textSize` and `iconSize` are what the text engine and the
   * icon report.
   */
  function RecalculateSizeHintX(b: Button, style: PaddingStyle, mode: SizeHintMode, textSize: Size, iconSize: Option<Size>)
    : (h: int)
    ensures b.textVisible ==> h == textSize.x + 2 * ModePadding(style, mode).x
    ensures !b.textVisible && iconSize.Some? ==> h == iconSize.value.x + 2 * ModePadding(style, mode).x
    ensures !b.textVisible && iconSize.None? ==> h == 2 * ModePadding(style, mode).x
  {
    AxisHint(b.textVisible, textSize.x, if iconSize.Some? then Some(iconSize.value.x) else None, ModePadding(style, mode).x)
  }

  /** `recalculate_size_hint_y`: the same with heights; the offered width plays no part. */
  function RecalculateSizeHintY(b: Button, style: PaddingStyle, mode: SizeHintMode, sizeX: int, textSize: Size,
                                iconSize: Option<Size>): (h: int)
    ensures b.textVisible ==> h == textSize.y + 2 * ModePadding(style, mode).y
    ensures !b.textVisible && iconSize.Some? ==> h == iconSize.value.y + 2 * ModePadding(style, mode).y
    ensures !b.textVisible && iconSize.None? ==> h == 2 * ModePadding(style, mode).y
  {
    AxisHint(b.textVisible, textSize.y, if iconSize.Some? then Some(iconSize.value.y) else None, ModePadding(style, mode).y)
  }

  /**
   * The two modes measure the same content: a button's preferred hint
   * exceeds its minimum one by exactly twice the difference of the
   * paddings, so it is never smaller when the minimum padding is the
   * smaller one.
   */
  lemma MinHintAtMostPreferred(b: Button, style: PaddingStyle, sizeX: int, textSize: Size, iconSize: Option<Size>)
    ensures RecalculateSizeHintX(b, style, PreferredMode, textSize, iconSize) -
            RecalculateSizeHintX(b, style, MinMode, textSize, iconSize) ==
            2 * (style.preferredPaddingWithBorder.x - style.minPaddingWithBorder.x)
    ensures RecalculateSizeHintY(b, style, PreferredMode, sizeX, textSize, iconSize) -
            RecalculateSizeHintY(b, style, MinMode, sizeX, textSize, iconSize) ==
            2 * (style.preferredPaddingWithBorder.y - style.minPaddingWithBorder.y)
    ensures style.minPaddingWithBorder.x <= style.preferredPaddingWithBorder.x ==>
            RecalculateSizeHintX(b, style, MinMode, textSize, iconSize) <=
            RecalculateSizeHintX(b, style, PreferredMode, textSize, iconSize)
  {
  }

  /**
   * The corrected re-entry handler: once the button has been re-pressed
   * by coming back inside, further moves inside never press it again,
   * whatever happens to the pressed state in between.
   */
  lemma ReentryPressesOnlyOnce(b: Button, pos: Point, rect: Rect, newTimer: TimerId, other: bool)
    requires Contains(rect, pos) && b.wasPressedButMovedOut
    ensures var after := HandleMouseMove(b, pos, Some(rect), newTimer).button;
      HandleMouseMove(after.(isPressed := other), pos, Some(rect), newTimer).button == after.(isPressed := other)
  {
  }

  /** Steps of the trace in `ReentryRepressAsWritten`, for either re-entry handler. */
  function Trace(b0: Button, pos: Point, outside: Point, rect: Rect, asWritten: bool): (r: (Button, nat))
  {
    var o1 := HandleMouseInput(b0, true, true, Some(0), 0);
    var o2 := if asWritten then HandleMouseMoveAsWritten(o1.button, outside, Some(rect), 0)
              else HandleMouseMove(o1.button, outside, Some(rect), 0);
    var o3 := if asWritten then HandleMouseMoveAsWritten(o2.button, pos, Some(rect), 0)
              else HandleMouseMove(o2.button, pos, Some(rect), 0);
    var (b4, e4, _) := HandleKeyboardInput(o3.button, CodeSpace, OtherLogical, true, 0);
    var (b5, e5, _) := HandleKeyboardInput(b4, CodeSpace, OtherLogical, false, 0);
    var o6 := if asWritten then HandleMouseMoveAsWritten(b5, pos, Some(rect), 0)
              else HandleMouseMove(b5, pos, Some(rect), 0);
    var o7 := HandleMouseInput(o6.button, true, false, Some(0), 0);
    (o7.button, o1.effects.triggers + o2.effects.triggers + o3.effects.triggers + e4.triggers +
                e5.triggers + o6.effects.triggers + o7.effects.triggers)
  }

  /**
   * The input that shows line 215's slip: press the mouse, leave, come
   * back, press and release Space (one trigger), move inside once more,
   * release the mouse. As written, the last move re-presses the button
   * and the mouse release triggers a second time; with the flag cleared
   * on re-entry there is exactly one trigger.
   */
  lemma ReentryRepressAsWritten()
    ensures var b0 := New("OK").(focused := true);
      var rect := Rect(Point(0, 0), Size(10, 10));
      Trace(b0, Point(5, 5), Point(20, 5), rect, true).1 == 2 &&
      Trace(b0, Point(5, 5), Point(20, 5), rect, false).1 == 1
  {
  }
}

/**
 * `src/widgets/button.rs`: the first generation's button, with a
 * default, hover and pressed look, clicking on press.
 */
module SrcButton {
  import opened Geometry
  import opened Address
  import opened Wrappers

  datatype ButtonState = Default | Hover | Pressed

  /** `PADDING`. */
  const Padding := Point(10, 5)

  /** The text colour of a disabled button. */
  const DisabledTextColor := (191, 191, 191, 255)

  /**
   * The button: its text, look, enabled flag, whether a click callback is
   * set, and the text colour last chosen by `update_color`.
   */
  datatype Button = Button(
    text: string, state: ButtonState, enabled: bool, hasCallback: bool,
    textColor: (int, int, int, int))

  /** `update_color`: the palette's foreground while enabled, grey otherwise. */
  function UpdateColor(b: Button, foreground: (int, int, int, int)): (r: Button)
    ensures r.textColor == if b.enabled then foreground else DisabledTextColor
    ensures r.(textColor := b.textColor) == b
  {
    b.(textColor := if b.enabled then foreground else DisabledTextColor)
  }

  /** `Button::new`. */
  function New(text: string, foreground: (int, int, int, int)): (b: Button)
    ensures b.text == text && b.state == Default && b.enabled && !b.hasCallback
    ensures b.textColor == foreground
  {
    UpdateColor(Button(text, Default, true, false, foreground), foreground)
  }

  /** `set_enabled`: only a change of the flag recolours the text. */
  function SetEnabled(b: Button, enabled: bool, foreground: (int, int, int, int)): (r: Button)
    ensures r.enabled == enabled
    ensures b.enabled == enabled ==> r == b
    ensures b.enabled != enabled ==> r.textColor == (if enabled then foreground else DisabledTextColor)
    ensures r.state == b.state && r.text == b.text && r.hasCallback == b.hasCallback
  {
    if b.enabled != enabled then UpdateColor(b.(enabled := enabled), foreground) else b
  }

  /** Toggling the flag twice ends in the same button, colour included, when it started in step with the palette. */
  lemma SetEnabledRoundTrip(b: Button, foreground: (int, int, int, int))
    requires b.textColor == if b.enabled then foreground else DisabledTextColor
    ensures SetEnabled(SetEnabled(b, !b.enabled, foreground), b.enabled, foreground) == b
  {
  }

  /**
   * `on_mouse_input`: an enabled left press shows `Pressed` and clicks
   * (the callback, if set, gets the text); an enabled left release shows
   * `Hover`. Focus is requested from the button's window in every case,
   * and the event is always accepted.
   */
  function OnMouseInput(b: Button, isLeftButton: bool, pressed: bool, window: WindowId): (r: (Button, seq<string>, WindowId, bool))
    ensures r.3 && r.2 == window
    ensures !isLeftButton || !b.enabled ==> r.0 == b && r.1 == []
    ensures isLeftButton && b.enabled ==> r.0 == b.(state := if pressed then Pressed else Hover)
    ensures r.1 == if isLeftButton && b.enabled && pressed && b.hasCallback then [b.text] else []
  {
    if isLeftButton && pressed && b.enabled then
      (b.(state := Pressed), if b.hasCallback then [b.text] else [], window, true)
    else if isLeftButton && !pressed && b.enabled then
      (b.(state := Hover), [], window, true)
    else (b, [], window, true)
  }

  /** `on_cursor_moved`: the button shows `Hover` and refuses the event. */
  function OnCursorMoved(b: Button): (r: (Button, bool))
    ensures r.0 == b.(state := Hover) && !r.1
  {
    (b.(state := Hover), false)
  }

  /**
   * A press and release of the left button clicks once while enabled and
   * never while disabled, and ends in `Hover` exactly when enabled.
   */
  lemma ClickCycle(b: Button, window: WindowId)
    requires b.hasCallback
    ensures var (b1, c1, _, _) := OnMouseInput(b, true, true, window);
      var (b2, c2, _, _) := OnMouseInput(b1, true, false, window);
      (b.enabled ==> c1 + c2 == [b.text] && b2.state == Hover) &&
      (!b.enabled ==> c1 + c2 == [] && b2 == b)
  {
  }

  /** `size_hint_x`: the text width, 20 more preferred, fixed. */
  function SizeHintX(textSize: Size): (h: SizeHint)
    ensures h.min == textSize.x && h.preferred == h.min + 2 * Padding.x && h.isFixed
  {
    SizeHint(textSize.x, textSize.x + 2 * Padding.x, true)
  }

  /** `size_hint_y`: the text height, 10 more preferred, fixed; the offered width plays no part. */
  function SizeHintY(textSize: Size, sizeX: int): (h: SizeHint)
    ensures h.min == textSize.y && h.preferred == h.min + 2 * Padding.y && h.isFixed
  {
    SizeHint(textSize.y, textSize.y + 2 * Padding.y, true)
  }
}
