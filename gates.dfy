/**
 * The two gates of the frame loop, as pure state transitions. The debounce
 * gate counts consecutive positive frames; once the count reaches the
 * required streak, the cooldown gate admits an alert only if at least
 * `cooldown` seconds have passed since the last admitted one. Admission
 * records the time and resets the streak; a cooldown rejection leaves both
 * alone, so every further positive frame asks the cooldown gate again.
 */
module Gates {

  datatype Config = Config(requiredStreak: nat, cooldown: nat)

  /** The state the gates keep between frames: the streak and the last admission time (seconds). */
  datatype Gate = Gate(streak: nat, lastAlert: nat)

  /**
   * What one pass of the loop contributes: `Skip` for a pass that reaches
   * no decision (the read failed, monitoring was switched off meanwhile, the
   * detector raised), `Seen` for a frame that was classified at clock `now`.
   */
  datatype Obs = Skip | Seen(detected: bool, now: nat)

  datatype Outcome = Outcome(gate: Gate, admitted: bool)

  /** Streak after one classified frame, before gating. */
  function Debounce(streak: nat, detected: bool): nat
  {
    if detected then streak + 1 else 0
  }

  /** The cooldown comparison, on signed differences: a clock behind the last alert never passes. */
  predicate CooledDown(c: Config, lastAlert: nat, now: nat)
  {
    now - lastAlert >= c.cooldown
  }

  /** One pass of the loop through both gates. */
  function Observe(c: Config, g: Gate, o: Obs): (out: Outcome)
    ensures o.Skip? ==> out == Outcome(g, false)
    ensures o.Seen? ==>
      (out.admitted <==> Debounce(g.streak, o.detected) >= c.requiredStreak && CooledDown(c, g.lastAlert, o.now))
    ensures out.admitted ==> out.gate == Gate(0, o.now)
    ensures o.Seen? && !out.admitted ==> out.gate == Gate(Debounce(g.streak, o.detected), g.lastAlert)
  {
    match o
    case Skip => Outcome(g, false)
    case Seen(detected, now) =>
      var s := Debounce(g.streak, detected);
      if s >= c.requiredStreak && CooledDown(c, g.lastAlert, now) then Outcome(Gate(0, now), true)
      else Outcome(Gate(s, g.lastAlert), false)
  }

  /** Gate state after a sequence of passes. */
  function Run(c: Config, g: Gate, obs: seq<Obs>): Gate
  {
    if obs == [] then g else Observe(c, Run(c, g, obs[..|obs| - 1]), obs[|obs| - 1]).gate
  }

  /** For each pass, whether it admitted an alert. */
  function Flags(c: Config, g: Gate, obs: seq<Obs>): (fs: seq<bool>)
    ensures |fs| == |obs|
  {
    if obs == [] then []
    else Flags(c, g, obs[..|obs| - 1]) + [Observe(c, Run(c, g, obs[..|obs| - 1]), obs[|obs| - 1]).admitted]
  }

  lemma RunSnoc(c: Config, g: Gate, obs: seq<Obs>, o: Obs)
    ensures Run(c, g, obs + [o]) == Observe(c, Run(c, g, obs), o).gate
    ensures Flags(c, g, obs + [o]) == Flags(c, g, obs) + [Observe(c, Run(c, g, obs), o).admitted]
  {
    assert (obs + [o])[..|obs|] == obs;
  }

  // ---------------------------------------------------------------------------
  // Skipped passes

  /** The classified frames of a sequence of passes, in order. */
  function Seens(obs: seq<Obs>): (s: seq<Obs>)
    ensures |s| <= |obs|
    ensures forall i :: 0 <= i < |s| ==> s[i].Seen?
  {
    if obs == [] then []
    else if obs[|obs| - 1].Skip? then Seens(obs[..|obs| - 1])
    else Seens(obs[..|obs| - 1]) + [obs[|obs| - 1]]
  }

  /** Failed reads and detector errors leave streak and last alert time exactly as they were. */
  lemma {:induction false} RunIgnoresSkips(c: Config, g: Gate, obs: seq<Obs>)
    ensures Run(c, g, obs) == Run(c, g, Seens(obs))
    ensures forall i :: 0 <= i < |obs| && obs[i].Skip? ==> !Flags(c, g, obs)[i]
  {
    if obs != [] {
      var init := obs[..|obs| - 1];
      var last := obs[|obs| - 1];
      RunIgnoresSkips(c, g, init);
      assert obs == init + [last];
      if last.Seen? {
        RunSnoc(c, g, Seens(init), last);
      }
    }
  }

  // ---------------------------------------------------------------------------
  // Cooldown: admitted alerts are spaced

  /**
   * Every admission happens at least `cooldown` seconds after the previous
   * one (and after the last alert before the run), so any two admissions of
   * a run are at least `cooldown` apart. No monotone clock is needed: the
   * comparison itself rejects a clock that went backwards.
   */
  lemma {:induction false} AdmissionsSpaced(c: Config, g: Gate, obs: seq<Obs>)
    ensures Run(c, g, obs).lastAlert >= g.lastAlert
    ensures var fs := Flags(c, g, obs);
      forall i :: 0 <= i < |obs| && fs[i] ==>
        obs[i].Seen? && obs[i].now >= g.lastAlert + c.cooldown && Run(c, g, obs).lastAlert >= obs[i].now
    ensures var fs := Flags(c, g, obs);
      forall i, j :: 0 <= i < j < |obs| && fs[i] && fs[j] ==> obs[j].now >= obs[i].now + c.cooldown
  {
    if obs != [] {
      var init := obs[..|obs| - 1];
      var last := obs[|obs| - 1];
      AdmissionsSpaced(c, g, init);
      var fs0 := Flags(c, g, init);
      var fs := Flags(c, g, obs);
      var before := Run(c, g, init);
      assert fs == fs0 + [Observe(c, before, last).admitted];
      forall i | 0 <= i < |init|
        ensures fs[i] == fs0[i] && obs[i] == init[i]
      {
      }
    }
  }

  // ---------------------------------------------------------------------------
  // Debounce: an admission needs a full streak of positive frames

  /** Number of positive classified frames at the end of the passes, skipped passes not counting. */
  function TrailingHits(obs: seq<Obs>): nat
  {
    if obs == [] then 0
    else
      match obs[|obs| - 1]
      case Skip => TrailingHits(obs[..|obs| - 1])
      case Seen(d, _) => if d then TrailingHits(obs[..|obs| - 1]) + 1 else 0
  }

  /** From a reset streak, the streak never exceeds the run of positive frames just seen. */
  lemma {:induction false} StreakBound(c: Config, g: Gate, obs: seq<Obs>)
    requires g.streak == 0
    ensures Run(c, g, obs).streak <= TrailingHits(obs)
  {
    if obs != [] {
      StreakBound(c, g, obs[..|obs| - 1]);
    }
  }

  /** The last `m` frames of `s` are all positive ones. */
  predicate EndsPositive(s: seq<Obs>, m: nat)
  {
    m <= |s| && forall j :: |s| - m <= j < |s| ==> s[j].Seen? && s[j].detected
  }

  /** The trailing hits are the last classified frames, all of them positive. */
  lemma {:induction false} TrailingHitsMeaning(obs: seq<Obs>, m: nat)
    requires TrailingHits(obs) >= m
    ensures EndsPositive(Seens(obs), m)
  {
    if obs != [] {
      var init := obs[..|obs| - 1];
      var last := obs[|obs| - 1];
      if last.Skip? {
        TrailingHitsMeaning(init, m);
      } else if m > 0 {
        TrailingHitsMeaning(init, m - 1);
        var s0 := Seens(init);
        assert Seens(obs) == s0 + [last];
        forall j | |Seens(obs)| - m <= j < |Seens(obs)|
          ensures Seens(obs)[j].detected
        {
          if j < |s0| {
            assert Seens(obs)[j] == s0[j];
          }
        }
      }
    }
  }

  /**
   * After a reset, a pass that admits an alert is a classified frame that
   * ends at least `requiredStreak` positive classified frames in a row;
   * failed reads and detector errors in between neither break nor extend the run.
   */
  lemma AdmissionFollowsStreak(c: Config, g: Gate, obs: seq<Obs>)
    requires g.streak == 0
    ensures forall k :: 0 <= k < |obs| && Flags(c, g, obs)[k] ==>
      && obs[k].Seen? && TrailingHits(obs[..k + 1]) >= c.requiredStreak
      && EndsPositive(Seens(obs[..k + 1]), c.requiredStreak)
  {
    forall k | 0 <= k < |obs| && Flags(c, g, obs)[k]
      ensures obs[k].Seen? && TrailingHits(obs[..k + 1]) >= c.requiredStreak
      ensures EndsPositive(Seens(obs[..k + 1]), c.requiredStreak)
    {
      AdmissionAt(c, g, obs, k);
      TrailingHitsMeaning(obs[..k + 1], c.requiredStreak);
    }
  }

  lemma AdmissionAt(c: Config, g: Gate, obs: seq<Obs>, k: nat)
    requires g.streak == 0
    requires k < |obs| && Flags(c, g, obs)[k]
    ensures obs[k].Seen? && TrailingHits(obs[..k + 1]) >= c.requiredStreak
  {
    var prefix := obs[..k + 1];
    FlagsPrefix(c, g, obs, k + 1);
    assert prefix == obs[..k] + [obs[k]];
    RunSnoc(c, g, obs[..k], obs[k]);
    StreakBound(c, g, obs[..k]);
    assert prefix[..k] == obs[..k];
  }

  lemma {:induction false} FlagsPrefix(c: Config, g: Gate, obs: seq<Obs>, n: nat)
    requires n <= |obs|
    ensures Flags(c, g, obs[..n]) == Flags(c, g, obs)[..n]
    decreases |obs|
  {
    if n < |obs| {
      var init := obs[..|obs| - 1];
      assert obs[..n] == init[..n];
      FlagsPrefix(c, g, init, n);
    } else {
      assert obs[..n] == obs;
    }
  }

  /**
   * The converse: take a window `start..k` of passes that ends in a positive
   * frame and holds at least `requiredStreak` classified frames, all of them
   * positive (failed reads may sit anywhere in it, since they leave the
   * streak alone). If none of the earlier passes in the window admitted, the
   * last one admits exactly when the cooldown has elapsed.
   */
  lemma StreakAdmits(c: Config, g: Gate, obs: seq<Obs>, start: nat, k: nat)
    requires start <= k < |obs|
    requires forall j :: start <= j < k ==> obs[j].Skip? || obs[j].detected
    requires obs[k].Seen? && obs[k].detected
    requires |Seens(obs[start..k + 1])| >= c.requiredStreak
    requires forall j :: start <= j < k ==> !Flags(c, g, obs)[j]
    ensures Flags(c, g, obs)[k] <==> CooledDown(c, Run(c, g, obs[..k]).lastAlert, obs[k].now)
  {
    StreakGrows(c, g, obs, start, k);
    SeensWindowStep(obs, start, k + 1);
    FlagAt(c, g, obs, k);
    AdmitAfterStreak(c, Run(c, g, obs[..k]), obs[k]);
  }

  /** A positive frame that completes the streak is admitted exactly when the cooldown has elapsed. */
  lemma AdmitAfterStreak(c: Config, g: Gate, o: Obs)
    requires g.streak + 1 >= c.requiredStreak && o.Seen? && o.detected
    ensures Observe(c, g, o).admitted <==> CooledDown(c, g.lastAlert, o.now)
  {
  }

  /** Across passes that are failed reads or non-admitted positives, the streak counts every positive. */
  lemma {:induction false} StreakGrows(c: Config, g: Gate, obs: seq<Obs>, start: nat, m: nat)
    requires start <= m < |obs|
    requires forall j :: start <= j < m ==> (obs[j].Skip? || obs[j].detected) && !Flags(c, g, obs)[j]
    ensures Run(c, g, obs[..m]).streak >= |Seens(obs[start..m])|
    decreases m
  {
    if m > start {
      StreakGrows(c, g, obs, start, m - 1);
      SeensWindowStep(obs, start, m);
      FlagAt(c, g, obs, m - 1);
    }
  }

  /** Pass `k` is admitted when feeding it to the gate reached by the passes before it admits. */
  lemma FlagAt(c: Config, g: Gate, obs: seq<Obs>, k: nat)
    requires k < |obs|
    ensures Run(c, g, obs[..k + 1]) == Observe(c, Run(c, g, obs[..k]), obs[k]).gate
    ensures Flags(c, g, obs)[k] == Observe(c, Run(c, g, obs[..k]), obs[k]).admitted
  {
    FlagsPrefix(c, g, obs, k + 1);
    assert obs[..k + 1] == obs[..k] + [obs[k]];
    RunSnoc(c, g, obs[..k], obs[k]);
  }

  /** Widening a window by one pass adds one classified frame unless that pass is a failed read. */
  lemma SeensWindowStep(obs: seq<Obs>, start: nat, m: nat)
    requires start < m <= |obs|
    ensures |Seens(obs[start..m])| == |Seens(obs[start..m - 1])| + (if obs[m - 1].Skip? then 0 else 1)
  {
    assert obs[start..m][..|obs[start..m]| - 1] == obs[start..m - 1];
  }

  // ---------------------------------------------------------------------------
  // Scenarios

  /**
   * Required streak 3, fresh streak: the frames positive, positive, negative,
   * positive, positive, positive admit exactly once, on the sixth frame, when
   * the cooldown has elapsed by then (and not at all otherwise).
   */
  lemma StreakScenario(cooldown: nat, last: nat, t0: nat, t1: nat, t2: nat, t3: nat, t4: nat, t5: nat)
    ensures var c := Config(3, cooldown);
      var obs := [Seen(true, t0), Seen(true, t1), Seen(false, t2), Seen(true, t3), Seen(true, t4), Seen(true, t5)];
      Flags(c, Gate(0, last), obs) == [false, false, false, false, false, CooledDown(c, last, t5)]
  {
    var c := Config(3, cooldown);
    var g := Gate(0, last);
    var o := [Seen(true, t0), Seen(true, t1), Seen(false, t2), Seen(true, t3), Seen(true, t4), Seen(true, t5)];
    RunSnoc(c, g, [], o[0]);
    assert [o[0]] == [] + [o[0]];
    RunSnoc(c, g, o[..1], o[1]);
    assert o[..2] == o[..1] + [o[1]];
    RunSnoc(c, g, o[..2], o[2]);
    assert o[..3] == o[..2] + [o[2]];
    RunSnoc(c, g, o[..3], o[3]);
    assert o[..4] == o[..3] + [o[3]];
    RunSnoc(c, g, o[..4], o[4]);
    assert o[..5] == o[..4] + [o[4]];
    RunSnoc(c, g, o[..5], o[5]);
    assert o == o[..5] + [o[5]];
  }

  /**
   * Cooldown 10 s, every positive frame a full streak: alerts at t, t + 5 and
   * t + 11 (with t at least 10 s after the last alert) are admitted, rejected
   * and admitted; the rejected one keeps the streak, so the third retries at once.
   */
  lemma CooldownScenario(last: nat, t: nat)
    requires t >= last + 10
    ensures var c := Config(1, 10);
      var obs := [Seen(true, t), Seen(true, t + 5), Seen(true, t + 11)];
      && Flags(c, Gate(0, last), obs) == [true, false, true]
      && Run(c, Gate(0, last), obs[..2]) == Gate(1, t)
      && Run(c, Gate(0, last), obs) == Gate(0, t + 11)
  {
    var c := Config(1, 10);
    var g := Gate(0, last);
    var o := [Seen(true, t), Seen(true, t + 5), Seen(true, t + 11)];
    RunSnoc(c, g, [], o[0]);
    assert [o[0]] == [] + [o[0]];
    RunSnoc(c, g, o[..1], o[1]);
    assert o[..2] == o[..1] + [o[1]];
    RunSnoc(c, g, o[..2], o[2]);
    assert o == o[..2] + [o[2]];
  }
}
