/**
  The detection gate of app.py: which classifier results are shown and
  logged, the per-label 30-second cooldown, the remaining-time message and
  `log_detection`. The session state that holds the last logging time of
  each label is an explicit map, and the clock readings are parameters.
 */
module DetectionGate {
  import opened Wrappers
  import opened Text
  import opened LogStore

  /** Seconds that must pass before the same label is logged again. */
  const CooldownPeriod: int := 30

  /** The score a result needs to be shown and logged. */
  const Threshold: real := 0.90

  /** The session-state entries `last_detection_<label>`: the last time each
      label was logged, in seconds. */
  type Cooldowns = map<string, int>

  /** Shown and offered for logging: not a "...Human" or "...Environment"
      label, and a score of at least 0.90. */
  predicate Eligible(name: string, confidence: real) {
    !EndsWith(name, "Human") && !EndsWith(name, "Environment") && confidence >= Threshold
  }

  /** The "...Human" and "...Environment" classes are never shown, whatever
      the score; nothing below 0.90 is shown either. */
  lemma ExcludedLabelsNeverEligible(prefix: string, confidence: real)
    ensures !Eligible(prefix + "Human", confidence)
    ensures !Eligible(prefix + "Environment", confidence)
    ensures confidence < Threshold ==> !Eligible(prefix, confidence)
  {
    assert (prefix + "Human")[|prefix|..] == "Human";
    assert (prefix + "Environment")[|prefix|..] == "Environment";
  }

  /** A previous log time exists for the label and less than 30 s have passed. */
  predicate InCooldown(last: Cooldowns, name: string, now: int) {
    name in last && now - last[name] < CooldownPeriod
  }

  /** Python's `int()` on a float: truncation toward zero. */
  function TruncateToInt(x: real): (n: int)
    ensures 0.0 <= x ==> n as real <= x < n as real + 1.0
    ensures x < 0.0 ==> n as real - 1.0 < x <= n as real
  {
    if x >= 0.0 then x.Floor else -((-x).Floor)
  }

  /** `cooldown_period - int(elapsed)`, shown while the label is in cooldown. */
  function RemainingCooldown(elapsed: real): (r: int)
    requires elapsed < CooldownPeriod as real
    ensures 0.0 <= elapsed ==> 1 <= r <= CooldownPeriod
    ensures 0.0 <= elapsed ==> (CooldownPeriod - r) as real <= elapsed < (CooldownPeriod - r + 1) as real
    ensures elapsed < 0.0 ==> r >= CooldownPeriod
  {
    CooldownPeriod - TruncateToInt(elapsed)
  }

  /** With whole-second times the remaining time is exactly the rest of the period. */
  lemma RemainingWholeSeconds(elapsed: int)
    requires elapsed < CooldownPeriod
    ensures RemainingCooldown(elapsed as real) == CooldownPeriod - elapsed
  {
  }

  /** What `log_detection` returns (the timestamp, or `None` in cooldown)
      and the state it leaves behind. */
  datatype LogResult = LogResult(timestamp: Option<int>, last: Cooldowns, file: LogFile)

  /** `log_detection` at time `now`. In cooldown nothing happens. Otherwise the
      record is appended; when the file is missing the read raises, the error
      is swallowed, nothing is written and the cooldown is not started, yet the
      timestamp is still returned. */
  function LogDetection(last: Cooldowns, file: LogFile, name: string, category: string,
                        confidence: real, now: int): (r: LogResult)
    ensures InCooldown(last, name, now) ==> r == LogResult(None, last, file)
    ensures !InCooldown(last, name, now) ==> r.timestamp == Some(now)
    ensures !InCooldown(last, name, now) && file.Missing? ==> r.file == file && r.last == last
    ensures !InCooldown(last, name, now) && !file.Missing? ==>
      && r.file.Valid?
      && r.file.records == Contents(file) + [Record(now, name, category, confidence)]
      && r.last.Keys == last.Keys + {name}
      && r.last[name] == now
      && forall k :: k in last && k != name ==> r.last[k] == last[k]
  {
    if InCooldown(last, name, now) then LogResult(None, last, file)
    else
      var file' := Append(file, Record(now, name, category, confidence));
      if file.Missing? then LogResult(Some(now), last, file)
      else LogResult(Some(now), last[name := now], file')
  }

  /** An accepted detection on a blank or unparseable file leaves exactly one record. */
  lemma FreshLogHoldsOneRecord(last: Cooldowns, file: LogFile, name: string, category: string,
                               confidence: real, now: int)
    requires file.Blank? || file.Corrupt?
    requires !InCooldown(last, name, now)
    ensures LogDetection(last, file, name, category, confidence, now).file
         == Valid([Record(now, name, category, confidence)])
  {
  }

  /** The session invariant of the cooldown: every logged label has a last
      time no earlier than its records, and two records of one label are at
      least a cooldown period apart. */
  ghost predicate Spaced(last: Cooldowns, rs: seq<Record>) {
    && (forall i :: 0 <= i < |rs| ==> rs[i].className in last && rs[i].timestamp <= last[rs[i].className])
    && (forall i, j :: 0 <= i < j < |rs| && rs[i].className == rs[j].className ==>
          rs[j].timestamp - rs[i].timestamp >= CooldownPeriod)
  }

  /** `log_detection` keeps the invariant, whatever the clock does. */
  lemma LogDetectionKeepsSpacing(last: Cooldowns, file: LogFile, name: string, category: string,
                                 confidence: real, now: int)
    requires Spaced(last, Contents(file))
    ensures var r := LogDetection(last, file, name, category, confidence, now);
      Spaced(r.last, Contents(r.file))
  {
    var r := LogDetection(last, file, name, category, confidence, now);
    if !InCooldown(last, name, now) && !file.Missing? {
      var rs := Contents(file);
      var rs' := Contents(r.file);
      assert rs' == rs + [Record(now, name, category, confidence)];
      forall i, j | 0 <= i < j < |rs'| && rs'[i].className == rs'[j].className
        ensures rs'[j].timestamp - rs'[i].timestamp >= CooldownPeriod
      {
        if j == |rs| {
          assert rs'[i] == rs[i];
          assert rs[i].className in last && rs[i].timestamp <= last[name];
        } else {
          assert rs'[i] == rs[i] && rs'[j] == rs[j];
        }
      }
      forall i | 0 <= i < |rs'|
        ensures rs'[i].className in r.last && rs'[i].timestamp <= r.last[rs'[i].className]
      {
        if i < |rs| {
          assert rs'[i] == rs[i];
          if rs[i].className == name {
            assert rs[i].timestamp <= last[name];
          }
        }
      }
    }
  }

  /** An empty session over an empty log starts out spaced. */
  lemma EmptySessionSpaced()
    ensures Spaced(map[], [])
  {
  }

  /** What the detection screen does with one classifier result. */
  datatype FrameOutcome =
    | Ignored                  // not shown: excluded label or low score
    | Cooldown(remaining: int) // shown, not logged, with the seconds to wait
    | Logged(timestamp: int)   // shown and logged
    | NotLogged                // shown; `log_detection` declined after all

  datatype FrameResult = FrameResult(outcome: FrameOutcome, last: Cooldowns, file: LogFile)

  /** The gate for one result. The screen reads the clock once for its own
      cooldown test (`checkTime`) and `log_detection` reads it again (`logTime`). */
  function ProcessDetection(last: Cooldowns, file: LogFile, name: string, category: string,
                            confidence: real, checkTime: int, logTime: int): (r: FrameResult)
    ensures !Eligible(name, confidence) ==> r == FrameResult(Ignored, last, file)
    ensures confidence < Threshold ==> r.outcome == Ignored
    ensures Eligible(name, confidence) && InCooldown(last, name, checkTime) ==>
      && r.outcome.Cooldown? && r.last == last && r.file == file
      && r.outcome.remaining == RemainingCooldown((checkTime - last[name]) as real)
    ensures r.outcome.Cooldown? ==> name in last
    ensures r.outcome.Cooldown? && name in last && last[name] <= checkTime ==> 1 <= r.outcome.remaining <= CooldownPeriod
    ensures r.outcome.Logged? ==>
      && Eligible(name, confidence) && r.outcome.timestamp == logTime
      && r == (var l := LogDetection(last, file, name, category, confidence, logTime);
               FrameResult(Logged(logTime), l.last, l.file))
    ensures r.outcome.NotLogged? ==> logTime < checkTime && r.last == last && r.file == file
    ensures Eligible(name, confidence) && !InCooldown(last, name, checkTime) ==>
      var l := LogDetection(last, file, name, category, confidence, logTime);
      r == if l.timestamp.Some? then FrameResult(Logged(logTime), l.last, l.file)
           else FrameResult(NotLogged, last, file)
    ensures (Eligible(name, confidence) && !InCooldown(last, name, checkTime) && !InCooldown(last, name, logTime))
      ==> r.outcome == Logged(logTime)
  {
    if !Eligible(name, confidence) then FrameResult(Ignored, last, file)
    else if InCooldown(last, name, checkTime) then
      FrameResult(Cooldown(RemainingCooldown((checkTime - last[name]) as real)), last, file)
    else
      var l := LogDetection(last, file, name, category, confidence, logTime);
      if l.timestamp.Some? then FrameResult(Logged(l.timestamp.value), l.last, l.file)
      else FrameResult(NotLogged, last, file)
  }

  /** The gate never changes the state except by logging, and so keeps the session invariant. */
  lemma ProcessKeepsSpacing(last: Cooldowns, file: LogFile, name: string, category: string,
                            confidence: real, checkTime: int, logTime: int)
    requires Spaced(last, Contents(file))
    ensures var r := ProcessDetection(last, file, name, category, confidence, checkTime, logTime);
      Spaced(r.last, Contents(r.file))
  {
    LogDetectionKeepsSpacing(last, file, name, category, confidence, logTime);
  }

  /** "Vaquita" is shown at every score of 0.90 and above. */
  lemma VaquitaEligible(confidence: real)
    requires confidence >= Threshold
    ensures Eligible("Vaquita", confidence)
  {
    assert "Vaquita"[7 - 5..] != "Human" by { assert "Vaquita"[2] != "Human"[0]; }
  }

  /** An empty log; Vaquita logged at `t0`; seen again 10 s later and held
      back with 20 s to go; seen at `t0 + 31` and logged: two records. */
  lemma VaquitaScenario(t0: int)
    ensures var s1 := ProcessDetection(map[], Valid([]), "Vaquita", "EN(G1)", 0.95, t0, t0);
      var s2 := ProcessDetection(s1.last, s1.file, "Vaquita", "EN(G1)", 0.97, t0 + 10, t0 + 10);
      var s3 := ProcessDetection(s2.last, s2.file, "Vaquita", "EN(G1)", 0.92, t0 + 31, t0 + 31);
      && s1.outcome == Logged(t0)
      && s2.outcome == Cooldown(20)
      && s3.outcome == Logged(t0 + 31)
      && Contents(s3.file) == [Record(t0, "Vaquita", "EN(G1)", 0.95), Record(t0 + 31, "Vaquita", "EN(G1)", 0.92)]
  {
    VaquitaEligible(0.95);
    VaquitaEligible(0.97);
    VaquitaEligible(0.92);
    RemainingWholeSeconds(10);
  }
}
