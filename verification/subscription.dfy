/**
 * The AuraCrypt trial clock and the licence-key list of the editor's
 * account side: the one-second countdown, buying extra hours, the
 * hours/minutes/seconds display and adding a licence key.
 */
module Subscription {
  import opened JsText

  /** One hour, the length of a fresh trial, in seconds. */
  const SecondsPerHour: nat := 3600

  datatype Trial = Trial(active: bool, timeLeft: nat, useAuraCrypt: bool)

  /** The countdown interval runs only while the trial is active and time is left. */
  predicate Running(t: Trial) {
    t.active && t.timeLeft > 0
  }

  /**
   * One firing of the one-second interval. With one second or less left the
   * trial ends, AuraCrypt is switched off and the time is set to 0; otherwise
   * one second is taken off. Without a running interval nothing happens.
   */
  function Tick(t: Trial): (r: Trial)
    ensures !Running(t) ==> r == t
    ensures Running(t) ==> r.timeLeft == t.timeLeft - 1
    ensures Running(t) ==> (r.active <==> t.timeLeft > 1)
    ensures Running(t) && t.timeLeft == 1 ==> !r.useAuraCrypt
    ensures Running(t) && t.timeLeft > 1 ==> r.useAuraCrypt == t.useAuraCrypt
  {
    if !Running(t) then t
    else if t.timeLeft <= 1 then Trial(false, 0, false)
    else t.(timeLeft := t.timeLeft - 1)
  }

  /** `n` firings in a row. */
  function Ticks(t: Trial, n: nat): Trial
    decreases n
  {
    if n == 0 then t else Ticks(Tick(t), n - 1)
  }

  /**
   * A running trial counts down one second per firing and stays active
   * until exactly `timeLeft` firings have happened; then it has ended, with
   * AuraCrypt off, and further firings change nothing.
   */
  lemma {:induction false} TrialRunsOut(t: Trial, n: nat)
    requires Running(t)
    ensures n < t.timeLeft ==> Ticks(t, n) == t.(timeLeft := t.timeLeft - n)
    ensures n >= t.timeLeft ==> Ticks(t, n) == Trial(false, 0, false)
    decreases n
  {
    if n > 0 {
      if t.timeLeft == 1 {
        StoppedTrialStays(Trial(false, 0, false), n - 1);
      } else {
        TrialRunsOut(Tick(t), n - 1);
      }
    }
  }

  lemma {:induction false} StoppedTrialStays(t: Trial, n: nat)
    requires !Running(t)
    ensures Ticks(t, n) == t
    decreases n
  {
    if n > 0 {
      StoppedTrialStays(t, n - 1);
    }
  }

  /**
   * `handlePurchaseTime(hours)`: adds the hours to the time left. It does not
   * restart an expired trial: the active flag is left as it was.
   */
  function PurchaseTime(t: Trial, hours: nat): (r: Trial)
    ensures r.timeLeft == t.timeLeft + hours * SecondsPerHour
    ensures r.active == t.active && r.useAuraCrypt == t.useAuraCrypt
  {
    t.(timeLeft := t.timeLeft + hours * SecondsPerHour)
  }

  /** An expired trial stays stopped even after buying time. */
  lemma PurchaseDoesNotRestart(t: Trial, hours: nat, n: nat)
    requires !t.active
    ensures Ticks(PurchaseTime(t, hours), n) == PurchaseTime(t, hours)
  {
    StoppedTrialStays(PurchaseTime(t, hours), n);
  }

  /**
   * The `{h}h {m}m {s}s` display: whole hours, then whole minutes of the
   * remaining part of the hour, then the remaining seconds.
   */
  function Countdown(seconds: nat): (r: (nat, nat, nat))
    ensures r.0 * 3600 + r.1 * 60 + r.2 == seconds
    ensures r.1 < 60 && r.2 < 60
  {
    (seconds / 3600, (seconds % 3600) / 60, seconds % 60)
  }

  /** The display determines the number of seconds. */
  lemma CountdownInjective(a: nat, b: nat)
    requires Countdown(a) == Countdown(b)
    ensures a == b
  {
  }

  // ---------------------------------------------------------------------
  // Licence keys
  // ---------------------------------------------------------------------

  datatype KeyStatus = Active

  datatype LicenseKey = LicenseKey(key: JsString, status: KeyStatus)

  datatype Licenses = Licenses(keys: seq<LicenseKey>, input: JsString, modalVisible: bool)

  /**
   * `handleLicenseKeySubmit`: a non-blank input is trimmed and appended as
   * an active key, and the input and dialog are cleared; a blank input
   * changes nothing.
   */
  function SubmitLicenseKey(l: Licenses): (r: Licenses)
    ensures |Trim(l.input)| == 0 ==> r == l
    ensures |Trim(l.input)| > 0 ==>
      && |r.keys| == |l.keys| + 1
      && r.keys[..|l.keys|] == l.keys
      && r.keys[|l.keys|].status == Active
      && r.input == [] && !r.modalVisible
    ensures |Trim(l.input)| > 0 ==>
      var k := r.keys[|l.keys|].key;
      && |k| > 0 && !IsSpace(k[0]) && !IsSpace(k[|k| - 1])
      && exists i :: 0 <= i <= |l.input| - |k| && l.input[i..i + |k|] == k
                     && AllSpace(l.input[..i]) && AllSpace(l.input[i + |k|..])
  {
    var key := Trim(l.input);
    if |key| == 0 then l
    else
      var r := Licenses(l.keys + [LicenseKey(key, Active)], [], false);
      assert r.keys[..|l.keys|] == l.keys;
      assert r.keys[|l.keys|].key == key;
      var i := LeadingSpace(l.input);
      assert l.input[i..i + |key|] == key && AllSpace(l.input[..i]) && AllSpace(l.input[i + |key|..]);
      r
  }
}
