/**
 * The Pomodoro timer component. Its React state (settings, staged settings,
 * panel flag, mode, remaining seconds, active flag, completed count) is one
 * immutable record; every handler and effect of the component is a pure
 * transition on it. The one-second interval callback is the explicit step
 * `Tick`; browser storage is a parameter (`Option<Settings>`, `Option<int>`).
 */
module Timer {
  import opened Wrappers
  import Text

  datatype Mode = Pomodoro | ShortBreak | LongBreak

  /**
   * Interval lengths in minutes. They are `int`: the settings inputs store
   * `parseInt(value, 10) || 0` unchecked, so zero and negative values occur.
   */
  datatype Settings = Settings(pomodoro: int, shortBreak: int, longBreak: int)

  const DefaultSettings := Settings(25, 5, 15)

  /** The minutes `st` gives to interval `m`; an input field carries the same name as its mode */
  function Minutes(st: Settings, m: Mode): int {
    match m
    case Pomodoro => st.pomodoro
    case ShortBreak => st.shortBreak
    case LongBreak => st.longBreak
  }

  /** The full length of interval `m`, in seconds */
  function Duration(st: Settings, m: Mode): int {
    Minutes(st, m) * 60
  }

  datatype State = State(
    settings: Settings,   // the committed settings
    staged: Settings,     // what the settings inputs show (`tempSettings`)
    panelOpen: bool,      // the settings panel is shown
    mode: Mode,
    time: int,            // remaining seconds
    active: bool,         // the countdown runs
    completed: int        // completed pomodoros, persisted
  )

  /** The state before any effect has run; `savedCount` is the stored counter, if it parsed */
  function Initial(savedCount: Option<int>): (s: State)
    ensures s.settings == s.staged == DefaultSettings && !s.panelOpen
    ensures s.mode == Pomodoro && !s.active && s.time == Duration(DefaultSettings, Pomodoro)
    ensures s.completed == savedCount.GetOr(0)
  {
    State(DefaultSettings, DefaultSettings, false, Pomodoro, 25 * 60, false, savedCount.GetOr(0))
  }

  /**
   * The settings-loading effect: stored settings, if any, replace both the
   * committed and the staged settings, and a paused timer is set to the
   * work duration whatever the current mode is.
   */
  function Reload(s: State, saved: Option<Settings>): (r: State)
    ensures saved.None? ==> r == s
    ensures saved.Some? ==> r.settings == saved.value && r.staged == saved.value
    ensures saved.Some? && !s.active ==> r.time == Duration(saved.value, Pomodoro)
    ensures s.active ==> r.time == s.time
    ensures r.mode == s.mode && r.active == s.active && r.completed == s.completed && r.panelOpen == s.panelOpen
  {
    match saved
    case None => s
    case Some(parsed) =>
      var s' := s.(settings := parsed, staged := parsed);
      if !s.active then s'.(time := parsed.pomodoro * 60) else s'
  }

  /** The component after mounting: initial state plus the first run of the loading effect */
  function Mount(savedSettings: Option<Settings>, savedCount: Option<int>): (s: State)
    ensures s.settings == savedSettings.GetOr(DefaultSettings) && s.staged == s.settings
    ensures s.mode == Pomodoro && !s.active && s.time == Duration(s.settings, Pomodoro)
    ensures s.completed == savedCount.GetOr(0) && !s.panelOpen
  {
    Reload(Initial(savedCount), savedSettings)
  }

  /** `switchMode`: pause and load the full length of the chosen interval */
  function SwitchMode(s: State, m: Mode): (r: State)
    ensures r.mode == m && !r.active && r.time == Duration(s.settings, m)
    ensures r.settings == s.settings && r.staged == s.staged
    ensures r.completed == s.completed && r.panelOpen == s.panelOpen
  {
    var s' := s.(active := false, mode := m);
    if m == Pomodoro then s'.(time := s.settings.pomodoro * 60)
    else if m == ShortBreak then s'.(time := s.settings.shortBreak * 60)
    else s'.(time := s.settings.longBreak * 60)
  }

  /**
   * The interval callback, one per elapsed second. An interval is only
   * scheduled while the timer is active with time left, so anything else
   * is a no-op — including an active timer holding a negative time.
   */
  function Tick(s: State): (r: State)
    ensures s.active && s.time > 0 ==> r.time == s.time - 1 && r.(time := s.time) == s
    ensures !(s.active && s.time > 0) ==> r == s
  {
    if s.active && s.time > 0 then s.(time := s.time - 1) else s
  }

  /** The expiry branch of the countdown effect is armed */
  predicate Expired(s: State) {
    s.active && s.time == 0
  }

  /** The interval to go to after a completed pomodoro, given the new completed count */
  function BreakAfter(count: int): (m: Mode)
    ensures m != Pomodoro
    ensures m == LongBreak <==> count % 4 == 0
  {
    // JavaScript's `%` truncates, but a zero remainder means the same under both conventions
    if count % 4 == 0 then LongBreak else ShortBreak
  }

  /**
   * The expiry branch of the countdown effect. A finished pomodoro raises
   * the counter by one and moves to a break; a finished break moves back to
   * a pomodoro. Both go through `SwitchMode`, so the next interval starts
   * paused at its full length.
   */
  function Expire(s: State): (r: State)
    ensures !Expired(s) ==> r == s
    ensures Expired(s) ==> !r.active && r.time == Duration(s.settings, r.mode) && r.mode != s.mode
    ensures Expired(s) && s.mode == Pomodoro ==>
              r.completed == s.completed + 1 && (r.mode == LongBreak <==> r.completed % 4 == 0)
    ensures Expired(s) && s.mode != Pomodoro ==> r.mode == Pomodoro && r.completed == s.completed
    ensures r.settings == s.settings && r.staged == s.staged && r.panelOpen == s.panelOpen
    ensures !Expired(r)
  {
    if !Expired(s) then s
    else if s.mode == Pomodoro then
      var count := s.completed + 1;
      SwitchMode(s.(completed := count), BreakAfter(count))
    else SwitchMode(s, Pomodoro)
  }

  /** `toggleTimer` */
  function Toggle(s: State): (r: State)
    ensures r.active == !s.active && r.(active := s.active) == s
  {
    s.(active := !s.active)
  }

  /** `resetTimer`: pause and reload the full length of the current interval */
  function Reset(s: State): (r: State)
    ensures !r.active && r.time == Duration(s.settings, s.mode)
    ensures r.(active := s.active, time := s.time) == s
  {
    s.(active := false,
       time := if s.mode == Pomodoro then s.settings.pomodoro * 60
               else if s.mode == ShortBreak then s.settings.shortBreak * 60
               else s.settings.longBreak * 60)
  }

  /** `handleSettingsChange`: the input named `field` stores `parseInt(input, 10) || 0` */
  function EditSetting(s: State, field: Mode, input: string): (r: State)
    ensures Minutes(r.staged, field) == Text.NumberOr(input, 0)
    ensures forall m :: m != field ==> Minutes(r.staged, m) == Minutes(s.staged, m)
    ensures r.(staged := s.staged) == s
  {
    var v := Text.NumberOr(input, 0);
    s.(staged := match field
                 case Pomodoro => s.staged.(pomodoro := v)
                 case ShortBreak => s.staged.(shortBreak := v)
                 case LongBreak => s.staged.(longBreak := v))
  }

  /**
   * `handleSaveSettings`: commit the staged settings and close the panel; a
   * paused timer takes the new length of its current interval, a running
   * one keeps counting down from where it is.
   */
  function SaveSettings(s: State): (r: State)
    ensures r.settings == s.staged && r.staged == s.staged && !r.panelOpen
    ensures !s.active ==> r.time == Duration(s.staged, s.mode)
    ensures s.active ==> r.time == s.time
    ensures r.mode == s.mode && r.active == s.active && r.completed == s.completed
  {
    var s' := s.(settings := s.staged, panelOpen := false);
    if s.active then s'
    else if s.mode == Pomodoro then s'.(time := s.staged.pomodoro * 60)
    else if s.mode == ShortBreak then s'.(time := s.staged.shortBreak * 60)
    else s'.(time := s.staged.longBreak * 60)
  }

  /** The Cancel button closes the panel; the staged edits stay in the inputs */
  function CancelSettings(s: State): (r: State)
    ensures !r.panelOpen && r.(panelOpen := s.panelOpen) == s
  {
    s.(panelOpen := false)
  }

  /** The gear button opens or closes the panel without touching the staged edits */
  function TogglePanel(s: State): (r: State)
    ensures r.panelOpen == !s.panelOpen && r.(panelOpen := s.panelOpen) == s
  {
    s.(panelOpen := !s.panelOpen)
  }

  /**
   * The counter-reset button, shown only while the count is positive; it
   * clears the count when the user confirms the dialog.
   */
  function ResetCount(s: State, confirmed: bool): (r: State)
    ensures s.completed > 0 && confirmed ==> r.completed == 0
    ensures !(s.completed > 0 && confirmed) ==> r.completed == s.completed
    ensures r.(completed := s.completed) == s
  {
    if s.completed > 0 && confirmed then s.(completed := 0) else s
  }

  /** `formatTime`'s two parts: `Math.floor(seconds / 60)` (Dafny's `/` floors for a positive divisor) and `seconds % 60` */
  function ClockParts(seconds: int): (parts: (int, int))
    ensures seconds >= 0 ==> parts.0 * 60 + parts.1 == seconds && 0 <= parts.0 && 0 <= parts.1 < 60
    ensures Text.JsRem(seconds, 60) == 0 ==> parts.0 * 60 == seconds && parts.1 == 0
  {
    (seconds / 60, Text.JsRem(seconds, 60))
  }

  /** `formatTime`: minutes and seconds, each zero-padded to two places, joined by ':' */
  function FormatTime(seconds: int): string {
    var parts := ClockParts(seconds);
    Clock(parts.0, parts.1)
  }

  /** Two numbers, each rendered and zero-padded to two places, joined by ':' */
  function Clock(mins: int, secs: int): string {
    TwoPlaces(mins) + ":" + TwoPlaces(secs)
  }

  /** `n.toString().padStart(2, '0')` */
  function TwoPlaces(n: int): string {
    Text.PadStart(Text.IntToString(n), 2, '0')
  }

  /** A non-negative number in two places is a colon-free digit string of its value */
  lemma TwoPlacesDigits(n: nat)
    ensures var p := TwoPlaces(n);
            |p| > 0 && Text.AllDigits(p) && Text.DigitsValue(p) == n && ':' !in p
  {
    var p := TwoPlaces(n);
    Text.PadTwoDigits(n);
    assert forall i :: 0 <= i < |p| ==> Text.IsDigit(p[i]);
  }

  /** The display of a non-negative time ends in ':' and the two digits of its seconds; below 100 minutes it is `MM:SS` */
  lemma FormatTimeShape(seconds: int)
    requires seconds >= 0
    ensures var r := FormatTime(seconds);
            && |r| >= 5 && r[|r| - 3] == ':'
            && r[|r| - 2..] == [Text.DigitChar(seconds % 60 / 10), Text.DigitChar(seconds % 60 % 10)]
            && (seconds < 6000 ==> |r| == 5)
  {
    var mins, secs := MinutesAndSeconds(seconds);
    DisplayOfNonNegative(seconds, mins, secs);
    PaddedMinutes(mins);
    PaddedSeconds(secs);
    Joined(TwoPlaces(mins), TwoPlaces(secs));
  }

  /** Where the separator and the seconds sit in a joined display */
  lemma Joined(m: string, sc: string)
    requires |sc| == 2
    ensures var r := m + ":" + sc; |r| == |m| + 3 && r[|r| - 3] == ':' && r[|r| - 2..] == sc
  {
  }

  /** The minutes of a non-negative time pad to a digit string of at least two places, exactly two below 100 */
  lemma PaddedMinutes(mins: nat)
    ensures |TwoPlaces(mins)| >= 2 && (mins < 100 ==> |TwoPlaces(mins)| == 2)
  {
    Text.PadTwoDigits(mins);
  }

  /** The seconds part pads to exactly its two decimal digits */
  lemma PaddedSeconds(secs: nat)
    requires secs < 60
    ensures TwoPlaces(secs) == [Text.DigitChar(secs / 10), Text.DigitChar(secs % 10)]
  {
    Text.PadTwoDigits(secs);
  }

  /** Reads a clock display `MM:SS` back into seconds; `None` when it is not one */
  function ParseClock(t: string): Option<int> {
    match Text.IndexOf(t, ':')
    case None => None
    case Some(k) => ParseSides(t[..k], t[k + 1..])
  }

  /** The value of the minutes and seconds digit strings on either side of the colon */
  function ParseSides(mins: string, secs: string): Option<int> {
    if |mins| == 0 || |secs| == 0 || !Text.AllDigits(mins) || !Text.AllDigits(secs) then None
    else if Text.DigitsValue(secs) >= 60 then None
    else Some(Text.DigitsValue(mins) * 60 + Text.DigitsValue(secs))
  }

  /** A display whose minutes hold no colon splits at the colon that follows them */
  lemma ParseJoined(m: string, sc: string)
    requires ':' !in m
    ensures ParseClock(m + ":" + sc) == ParseSides(m, sc)
  {
    var t := m + ":" + sc;
    assert Text.IndexOf(t, ':') == Some(|m|) by {
      assert t == m + ([':'] + sc);
      Text.IndexOfAfter(m, [':'] + sc, ':');
    }
    SplitAtColon(t, m, sc);
  }

  /** The two sides of a display split at the colon after its minutes */
  lemma SplitAtColon(t: string, m: string, sc: string)
    requires t == m + ":" + sc
    ensures t[..|m|] == m && t[|m| + 1..] == sc
  {
  }

  /** The display of a time `mins * 60 + secs` with `secs < 60` shows `mins` and `secs` */
  lemma DisplayOfNonNegative(seconds: int, mins: nat, secs: nat)
    requires seconds == mins * 60 + secs && secs < 60
    ensures FormatTime(seconds) == Clock(mins, secs)
  {
    assert ClockParts(seconds) == (mins, secs);
  }

  /** Padded minutes and seconds, joined, read back as their value in seconds */
  lemma ParsePadded(mins: nat, secs: nat, total: int)
    requires secs < 60 && total == mins * 60 + secs
    ensures ParseClock(Clock(mins, secs)) == Some(total)
  {
    TwoPlacesDigits(mins);
    TwoPlacesDigits(secs);
    ParseDigits(TwoPlaces(mins), TwoPlaces(secs), total);
  }

  /** Two digit strings joined by a colon read back as minutes and seconds */
  lemma ParseDigits(m: string, sc: string, total: int)
    requires |m| > 0 && Text.AllDigits(m) && |sc| > 0 && Text.AllDigits(sc) && ':' !in m
    requires Text.DigitsValue(sc) < 60 && total == Text.DigitsValue(m) * 60 + Text.DigitsValue(sc)
    ensures ParseClock(m + ":" + sc) == Some(total)
  {
    ParseJoined(m, sc);
  }

  lemma MinutesAndSeconds(seconds: int) returns (mins: nat, secs: nat)
    requires seconds >= 0
    ensures seconds == mins * 60 + secs && secs < 60 && secs == seconds % 60
  {
    mins, secs := seconds / 60, seconds % 60;
  }

  /** The display of a non-negative time reads back as that time */
  lemma FormatTimeRoundTrip(seconds: int)
    requires seconds >= 0
    ensures ParseClock(FormatTime(seconds)) == Some(seconds)
  {
    var mins, secs := MinutesAndSeconds(seconds);
    DisplayOfNonNegative(seconds, mins, secs);
    ParsePadded(mins, secs, seconds);
  }

  /**
   * Times the component can hold: set from a whole number of minutes, or
   * counted down from a positive value, so a negative time is always a
   * whole number of minutes.
   */
  predicate WholeOrCounting(s: State) {
    s.time >= 0 || Text.JsRem(s.time, 60) == 0
  }

  /** For every reachable time the two displayed parts add back up to it */
  lemma DisplayConsistent(s: State)
    requires WholeOrCounting(s)
    ensures ClockParts(s.time).0 * 60 + ClockParts(s.time).1 == s.time
  {
  }

  // ----- User events and the effects that follow them -----

  datatype Event =
    | Choose(target: Mode)                 // a mode button
    | Second                               // the interval callback
    | StartPause                           // the Start/Pause button
    | ResetPressed                         // the reset button
    | Input(field: Mode, value: string)    // typing into a settings input
    | SavePressed
    | CancelPressed
    | GearPressed
    | CountResetPressed(confirmed: bool)   // the counter-reset button and its dialog answer

  /** The handler an event runs, before any effect */
  function Handle(s: State, e: Event): State {
    match e
    case Choose(m) => SwitchMode(s, m)
    case Second => Tick(s)
    case StartPause => Toggle(s)
    case ResetPressed => Reset(s)
    case Input(f, v) => EditSetting(s, f, v)
    case SavePressed => SaveSettings(s)
    case CancelPressed => CancelSettings(s)
    case GearPressed => TogglePanel(s)
    case CountResetPressed(ok) => ResetCount(s, ok)
  }

  /**
   * An event followed by the countdown effect, with stored settings read
   * once at mount. This is the behaviour the code's comments and the
   * save handler describe; `ApplyAsWritten` is what the effects actually do.
   */
  function Apply(s: State, e: Event): (r: State)
    ensures !Expired(r)
    ensures e != Second && e != StartPause && !Expired(s) ==> r == Handle(s, e)
  {
    Expire(Handle(s, e))
  }

  /**
   * One round of effects after a render of `s` whose previous render had
   * active flag `prevActive`. The loading effect runs only when the flag
   * changed; both effects read the same render, the loading effect's
   * updates are queued first, and the expiry uses the render's settings.
   */
  function Flush(prevActive: bool, s: State, saved: Option<Settings>): State {
    var loaded := if s.active != prevActive then Reload(s, saved) else s;
    if Expired(s) then Expire(s).(settings := loaded.settings, staged := loaded.staged)
    else loaded
  }

  /**
   * An event followed by the effect rounds it triggers, as the component is
   * written. `saved` is what storage holds; a save writes the staged settings
   * there before the effects run. Two rounds always reach a resting state.
   */
  function ApplyAsWritten(s: State, e: Event, saved: Option<Settings>): (r: State)
    ensures !Expired(r)
  {
    var stored := if e.SavePressed? then Some(s.staged) else saved;
    var h := Handle(s, e);
    var r1 := Flush(s.active, h, stored);
    Flush(h.active, r1, stored)
  }

  /** Two rounds suffice: a third round of effects changes nothing */
  lemma AsWrittenComesToRest(s: State, e: Event, saved: Option<Settings>)
    ensures var stored := if e.SavePressed? then Some(s.staged) else saved;
            var h := Handle(s, e);
            var r1 := Flush(s.active, h, stored);
            var r2 := Flush(h.active, r1, stored);
            Flush(r1.active, r2, stored) == r2
  {
  }

  /** With nothing in storage the written code behaves as `Apply` */
  lemma AsWrittenAgreesWithoutStorage(s: State, e: Event)
    requires !Expired(s)
    ensures ApplyAsWritten(s, e, None) == Apply(s, e)
  {
  }

  /** Pausing a running timer keeps its mode and remaining time */
  lemma PauseKeepsRemaining(s: State)
    requires s.active
    ensures var r := Apply(s, StartPause); !r.active && r.time == s.time && r.mode == s.mode
  {
  }

  /** Counterexample: with stored settings, pausing a short break at 2:00 shows 25:00 */
  lemma PauseResetsToWorkAsWritten()
    ensures var s := State(DefaultSettings, DefaultSettings, false, ShortBreak, 120, true, 1);
            var r := ApplyAsWritten(s, StartPause, Some(DefaultSettings));
            r.mode == ShortBreak && !r.active && r.time == 1500 && Apply(s, StartPause).time == 120
  {
  }

  /** Counterexample: with stored settings, the break after a pomodoro starts at the work length */
  lemma ExpiryLoadsWorkLengthAsWritten()
    ensures var s := State(DefaultSettings, DefaultSettings, false, Pomodoro, 1, true, 0);
            var r := ApplyAsWritten(s, Second, Some(DefaultSettings));
            r.mode == ShortBreak && r.time == 1500 && Apply(s, Second).time == 300
  {
  }

  /** Counterexample: with stored settings, starting the timer throws away unsaved edits in the settings inputs */
  lemma StartDropsStagedEditsAsWritten()
    ensures var s := State(DefaultSettings, Settings(50, 5, 15), true, Pomodoro, 1500, false, 0);
            && ApplyAsWritten(s, StartPause, Some(DefaultSettings)).staged == DefaultSettings
            && Apply(s, StartPause).staged == Settings(50, 5, 15)
  {
  }

  /** The state after `k` seconds of the interval callback */
  function Ticks(s: State, k: nat): State
    decreases k
  {
    if k == 0 then s else Ticks(Apply(s, Second), k - 1)
  }

  /** Before the last second the countdown only lowers the time, one per second */
  lemma {:induction false} CountingDown(s: State, k: nat)
    requires s.active && k < s.time
    ensures Ticks(s, k) == s.(time := s.time - k)
    decreases k
  {
    if k > 0 {
      var s1 := Apply(s, Second);
      assert s1 == s.(time := s.time - 1);
      CountingDown(s1, k - 1);
    }
  }

  /**
   * A running interval with `n` seconds left expires on exactly the `n`-th
   * tick: the next interval is loaded at its full length, paused, and the
   * counter has moved by one if and only if a pomodoro finished.
   */
  lemma {:induction false} CountdownExpires(s: State)
    requires s.active && s.time > 0
    ensures var r := Ticks(s, s.time);
            r == Expire(s.(time := 0)) && r.mode != s.mode && !r.active
            && r.time == Duration(s.settings, r.mode)
            && r.completed == s.completed + (if s.mode == Pomodoro then 1 else 0)
  {
    var n := s.time;
    CountingDown(s, n - 1);
    var last := s.(time := 1);
    assert Ticks(s, n - 1) == last;
    TicksSplit(s, n - 1, 1);
    assert Ticks(last, 1) == Apply(last, Second);
    assert Apply(last, Second) == Expire(s.(time := 0));
  }

  lemma {:induction false} TicksSplit(s: State, a: nat, b: nat)
    ensures Ticks(s, a + b) == Ticks(Ticks(s, a), b)
    decreases a
  {
    if a > 0 {
      TicksSplit(Apply(s, Second), a - 1, b);
    }
  }

  /** A tick while paused changes nothing */
  lemma PausedTickIsInert(s: State)
    requires !s.active
    ensures Apply(s, Second) == s
  {
  }

  /** A running timer at zero (a zero-length interval) expires as soon as it is started, before any tick */
  lemma StartAtZeroExpires(s: State)
    requires !s.active && s.time == 0
    ensures var r := Apply(s, StartPause); r == Expire(s.(active := true)) && r.mode != s.mode
  {
  }

  /**
   * The counter only moves in two ways: up by one when a pomodoro finishes
   * (on a tick or when started at zero), or to zero on a confirmed reset of
   * a positive count.
   */
  lemma CounterDiscipline(s: State, e: Event)
    requires !Expired(s)
    ensures var r := Apply(s, e);
            || r.completed == s.completed
            || (r.completed == s.completed + 1 && s.mode == Pomodoro && r.mode != Pomodoro
                && !r.active && (e == Second || e == StartPause))
            || (r.completed == 0 && s.completed > 0 && e == CountResetPressed(true))
  {
  }

  /** Every event keeps the time a whole number of minutes or non-negative */
  lemma {:induction false} EventsKeepWholeOrCounting(s: State, e: Event)
    requires WholeOrCounting(s)
    ensures WholeOrCounting(Apply(s, e))
  {
    var h := Handle(s, e);
    forall m: Mode, st: Settings ensures Text.JsRem(Duration(st, m), 60) == 0 {
      Text.WholeMinutes(Minutes(st, m));
    }
    assert WholeOrCounting(h);
  }
}
