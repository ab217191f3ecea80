/**
 * The Dynamic Island widget's state: the passcode lock, the onboarding
 * carousel that ends in setting a passcode, the four mutually exclusive
 * panels and the settings switches. Each handler is a transition on one
 * state record.
 */
module Island {
  import opened JsText

  /** Passcodes are four digits. */
  const PasscodeLength: nat := 4

  /** The onboarding carousel has three slides. */
  const SlideCount: int := 3

  datatype Panel = ClockPanel | TimezonePanel | ScanningPanel | SettingsPanel

  datatype Setting = DarkMode | Notifications | AutoLock

  datatype Settings = Settings(darkMode: bool, notifications: bool, autoLock: bool)

  /**
   * `pendingClears` counts the one-second timers a wrong passcode has
   * scheduled and that have not fired yet.
   */
  datatype State = State(
    expanded: bool,
    locked: bool,
    passcode: JsString,
    entered: JsString,
    pendingClears: nat,
    setupMode: bool,
    welcomeVisible: bool,
    slide: int,
    clockOpen: bool,
    timezoneOpen: bool,
    scanningOpen: bool,
    settingsOpen: bool,
    settings: Settings)

  // ---------------------------------------------------------------------
  // Passcode entry
  // ---------------------------------------------------------------------

  /**
   * The passcode field's filter: the first four digits typed,
   * in order; never more than four, never anything but digits.
   */
  function SanitizePasscode(raw: JsString): (r: JsString)
    ensures AllDigits(r) && |r| <= PasscodeLength
    ensures |r| <= |KeepDigits(raw)| && r == KeepDigits(raw)[..|r|]
    ensures |r| < PasscodeLength ==> r == KeepDigits(raw)
  {
    Take(KeepDigits(raw), PasscodeLength)
  }

  /** A passcode already in the sanitised form passes through unchanged. */
  lemma SanitizeKeepsShortDigits(p: JsString)
    requires AllDigits(p) && |p| <= PasscodeLength
    ensures SanitizePasscode(p) == p
  {
    KeepDigitsOfDigits(p);
  }

  /** Sanitising twice is sanitising once. */
  lemma SanitizeIdempotent(raw: JsString)
    ensures SanitizePasscode(SanitizePasscode(raw)) == SanitizePasscode(raw)
  {
    SanitizeKeepsShortDigits(SanitizePasscode(raw));
  }

  /** Non-digits typed anywhere are ignored. */
  lemma SanitizeIgnoresNonDigits(a: JsString, junk: JsString, b: JsString)
    requires forall k :: 0 <= k < |junk| ==> !IsDigit(junk[k])
    ensures SanitizePasscode(a + junk + b) == SanitizePasscode(a + b)
  {
    KeepDigitsAppend(a + junk, b);
    KeepDigitsAppend(a, junk);
    KeepDigitsDropsOthers(junk);
    KeepDigitsAppend(a, b);
    assert KeepDigits(a) + [] == KeepDigits(a);
  }

  /** Once four digits are in, typing more changes nothing. */
  lemma SanitizeKeepsFirstFour(a: JsString, b: JsString)
    requires |SanitizePasscode(a)| == PasscodeLength
    ensures SanitizePasscode(a + b) == SanitizePasscode(a)
  {
    KeepDigitsAppend(a, b);
    var d := KeepDigits(a);
    assert (d + KeepDigits(b))[..PasscodeLength] == d[..PasscodeLength];
  }

  /**
   * `handlePasscodeEntry`: the sanitised entry is stored. While locked, a
   * complete entry equal to the passcode unlocks and empties the entry; a
   * complete wrong entry stays shown and schedules a timer that clears it.
   * Unlocked, the entry is only stored. The passcode itself never changes.
   */
  function PasscodeEntry(s: State, raw: JsString): (r: State)
    ensures r.passcode == s.passcode
    ensures !s.locked ==> r == s.(entered := SanitizePasscode(raw))
    ensures s.locked ==> (r.locked <==> SanitizePasscode(raw) != s.passcode || |s.passcode| != PasscodeLength)
    ensures s.locked && !r.locked ==> r == s.(locked := false, entered := [])
    ensures s.locked && r.locked ==> r.entered == SanitizePasscode(raw)
    ensures s.locked && r.locked && |SanitizePasscode(raw)| == PasscodeLength ==>
      r == s.(entered := SanitizePasscode(raw), pendingClears := s.pendingClears + 1)
    ensures s.locked && |SanitizePasscode(raw)| < PasscodeLength ==>
      r == s.(entered := SanitizePasscode(raw))
  {
    var entry := SanitizePasscode(raw);
    if |entry| == PasscodeLength && s.locked then
      if entry == s.passcode then s.(locked := false, entered := [])
      else s.(entered := entry, pendingClears := s.pendingClears + 1)
    else s.(entered := entry)
  }

  /** The timer a wrong entry scheduled fires and empties the entry. */
  function ClearEntryTimer(s: State): (r: State)
    requires s.pendingClears > 0
    ensures r == s.(entered := [], pendingClears := s.pendingClears - 1)
  {
    s.(entered := [], pendingClears := s.pendingClears - 1)
  }

  /**
   * A wrong complete entry keeps the island locked; when its timer fires the
   * state is as before the attempt except that the entry is empty.
   */
  lemma WrongEntryThenTimer(s: State, raw: JsString)
    requires s.locked && |SanitizePasscode(raw)| == PasscodeLength && SanitizePasscode(raw) != s.passcode
    ensures PasscodeEntry(s, raw).locked && PasscodeEntry(s, raw).pendingClears > 0
    ensures ClearEntryTimer(PasscodeEntry(s, raw)) == s.(entered := [])
  {
  }

  /** What the entry field can hold: up to four digits. */
  predicate EntryWellFormed(s: State) {
    AllDigits(s.entered) && |s.entered| <= PasscodeLength
  }

  /**
   * `handleSetPasscode`: a complete entry becomes the passcode, ends setup
   * and shows the welcome screen; anything shorter changes nothing.
   */
  function SetPasscode(s: State): (r: State)
    ensures |s.entered| != PasscodeLength ==> r == s
    ensures |s.entered| == PasscodeLength ==>
      r == s.(passcode := s.entered, setupMode := false, welcomeVisible := true)
    ensures EntryWellFormed(s) && |s.entered| == PasscodeLength ==>
      AllDigits(r.passcode) && |r.passcode| == PasscodeLength
  {
    if |s.entered| == PasscodeLength then
      s.(passcode := s.entered, setupMode := false, welcomeVisible := true)
    else s
  }

  /** `handleLock`: locks, expands the island and empties the entry. */
  function Lock(s: State): (r: State)
    ensures r == s.(locked := true, expanded := true, entered := [])
  {
    s.(locked := true, expanded := true, entered := [])
  }

  /** Every passcode transition keeps the entry to at most four digits. */
  lemma PasscodeStepsKeepEntryWellFormed(s: State, raw: JsString)
    requires EntryWellFormed(s)
    ensures EntryWellFormed(PasscodeEntry(s, raw))
    ensures EntryWellFormed(SetPasscode(s))
    ensures EntryWellFormed(Lock(s))
    ensures s.pendingClears > 0 ==> EntryWellFormed(ClearEntryTimer(s))
  {
    EntryKeepsWellFormed(s, raw);
    SetPasscodeKeepsWellFormed(s);
  }

  lemma EntryKeepsWellFormed(s: State, raw: JsString)
    ensures EntryWellFormed(PasscodeEntry(s, raw))
  {
    var r := PasscodeEntry(s, raw);
    assert r.entered == SanitizePasscode(raw) || r.entered == [];
  }

  lemma SetPasscodeKeepsWellFormed(s: State)
    requires EntryWellFormed(s)
    ensures EntryWellFormed(SetPasscode(s))
  {
    assert SetPasscode(s).entered == s.entered;
  }

  /**
   * The passcode set during onboarding unlocks the island: set it, lock,
   * type the same digits, and the island is unlocked with an empty entry.
   * Any other complete entry keeps it locked.
   */
  lemma SetLockUnlock(s: State, raw: JsString)
    requires EntryWellFormed(s) && |s.entered| == PasscodeLength
    ensures var locked := Lock(SetPasscode(s));
      && !PasscodeEntry(locked, s.entered).locked
      && PasscodeEntry(locked, s.entered).entered == []
      && (SanitizePasscode(raw) != s.entered ==> PasscodeEntry(locked, raw).locked)
  {
    SanitizeKeepsShortDigits(s.entered);
  }

  // ---------------------------------------------------------------------
  // Onboarding carousel
  // ---------------------------------------------------------------------

  /** JavaScript's integer division truncated toward zero. */
  function JsQuotient(a: int, b: int): int
    requires b > 0
  {
    if a >= 0 then a / b else -((-a) / b)
  }

  /**
   * JavaScript's `a % b`: what truncating division leaves over, so the
   * remainder takes the sign of `a` (Dafny's own `%` never goes negative).
   */
  function JsRemainder(a: int, b: int): (r: int)
    requires b > 0
    ensures a == JsQuotient(a, b) * b + r
    ensures -b < r < b
    ensures a >= 0 ==> r >= 0
    ensures a <= 0 ==> r <= 0
  {
    if a >= 0 then
      DivMod(a, b);
      a % b
    else
      DivMod(-a, b);
      NegateProduct((-a) / b, b);
      -((-a) % b)
  }

  /** Euclidean division of a natural number, as Dafny's `/` and `%` compute it. */
  lemma DivMod(x: int, b: int)
    requires x >= 0 && b > 0
    ensures x == (x / b) * b + x % b && 0 <= x % b < b
  {
  }

  lemma NegateProduct(q: int, b: int)
    ensures (-q) * b == -(q * b)
  {
  }

  /** `handleNextSlide`: one slide on, wrapping with JavaScript's remainder. */
  function NextSlide(i: int): (r: int)
    ensures 0 <= i < SlideCount ==> 0 <= r < SlideCount
    ensures 0 <= i < SlideCount - 1 ==> r == i + 1
    ensures i == SlideCount - 1 ==> r == 0
  {
    JsRemainder(i + 1, SlideCount)
  }

  /** `handlePrevSlide`: one slide back, shifted by the slide count before the remainder. */
  function PrevSlide(i: int): (r: int)
    ensures 0 <= i < SlideCount ==> 0 <= r < SlideCount
    ensures 0 < i < SlideCount ==> r == i - 1
    ensures i == 0 ==> r == SlideCount - 1
  {
    JsRemainder(i - 1 + SlideCount, SlideCount)
  }

  /** On the carousel's indices, going back undoes going forward and the other way round. */
  lemma SlidesInverse(i: int)
    requires 0 <= i < SlideCount
    ensures PrevSlide(NextSlide(i)) == i
    ensures NextSlide(PrevSlide(i)) == i
  {
  }

  // ---------------------------------------------------------------------
  // Panels and settings
  // ---------------------------------------------------------------------

  function IsOpen(s: State, p: Panel): bool {
    match p
    case ClockPanel => s.clockOpen
    case TimezonePanel => s.timezoneOpen
    case ScanningPanel => s.scanningOpen
    case SettingsPanel => s.settingsOpen
  }

  predicate AtMostOneOpen(s: State) {
    forall p: Panel, q: Panel :: IsOpen(s, p) && IsOpen(s, q) ==> p == q
  }

  /**
   * The clock, timezone, scanning and settings click handlers: the clicked
   * panel flips, the other three close and the island expands. Afterwards at
   * most one panel is open; nothing else changes.
   */
  function PanelClick(s: State, p: Panel): (r: State)
    ensures IsOpen(r, p) == !IsOpen(s, p)
    ensures forall q: Panel :: q != p ==> !IsOpen(r, q)
    ensures AtMostOneOpen(r)
    ensures r.expanded
    ensures r == s.(clockOpen := r.clockOpen, timezoneOpen := r.timezoneOpen,
                    scanningOpen := r.scanningOpen, settingsOpen := r.settingsOpen, expanded := true)
  {
    var flipped := !IsOpen(s, p);
    s.(clockOpen := p == ClockPanel && flipped,
       timezoneOpen := p == TimezonePanel && flipped,
       scanningOpen := p == ScanningPanel && flipped,
       settingsOpen := p == SettingsPanel && flipped,
       expanded := true)
  }

  /** Clicking the same panel twice closes everything it opened. */
  lemma PanelClickTwiceCloses(s: State, p: Panel)
    requires !IsOpen(s, p)
    ensures forall q: Panel :: !IsOpen(PanelClick(PanelClick(s, p), p), q)
  {
  }

  function SettingOf(s: Settings, name: Setting): bool {
    match name
    case DarkMode => s.darkMode
    case Notifications => s.notifications
    case AutoLock => s.autoLock
  }

  /** `toggleSetting(name)`: that switch flips and the others stay. */
  function ToggleSetting(s: Settings, name: Setting): (r: Settings)
    ensures SettingOf(r, name) == !SettingOf(s, name)
    ensures forall other: Setting :: other != name ==> SettingOf(r, other) == SettingOf(s, other)
  {
    match name
    case DarkMode => s.(darkMode := !s.darkMode)
    case Notifications => s.(notifications := !s.notifications)
    case AutoLock => s.(autoLock := !s.autoLock)
  }

  /** Toggling the same switch twice restores the settings. */
  lemma ToggleSettingTwice(s: Settings, name: Setting)
    ensures ToggleSetting(ToggleSetting(s, name), name) == s
  {
  }
}
