/**
 * The violation pipeline of the monitoring application: start/stop of
 * monitoring, one pass of the frame loop (detect, debounce, cooldown), and
 * recording a violation (evidence image first, then a row, then the
 * configured enforcement action).
 *
 * Camera, detector, image writer, clock and login lookup are inputs: a frame
 * read (failed, detector error, or the detector's results), the clock in
 * seconds, the local date-time, the login name if the lookup succeeded, and
 * whether the evidence file exists after the write. The file system is the
 * set of existing paths, the violations table the sequence of its rows, and
 * enforcement effects a log of actions.
 */
module Pipeline {
  import opened Wrappers
  import Detection
  import Evidence
  import opened Gates

  const ObjectLabel := "Mobile Phone"
  const UnknownEmployee := "Unknown"
  const InitialCooldown: nat := 10
  const InitialRequiredStreak: nat := 3
  const InitialActionMode := "Log Only"

  /** A row of the violations table (its autoincrement id is its position). */
  datatype Row = Row(timestamp: string, employee: string, objectDetected: string, imagePath: string)

  /** An enforcement effect: a warning dialog, or a workstation lock request. */
  datatype Action = ShowWarning | LockWorkstation

  /** The capture handle: none, or one that did or did not open. */
  datatype Capture = NoCapture | Capture(isOpen: bool)

  /** What one pass of the loop got from camera and detector. */
  datatype FrameRead =
    | ReadFailed
    | DetectorFailed
    | Frame(results: seq<Detection.DetectorResult>)

  /** Everything one pass of the loop consumes from the outside world. */
  datatype Tick = Tick(read: FrameRead, now: nat, at: Evidence.DateTime, login: Option<string>, existsAfter: bool)

  datatype StartOutcome = StillLoading | LoadFailed | AlreadyRunning | Started | CameraError

  /** The state recording touches: existing files, table rows, enforcement effects. */
  datatype Store = Store(files: set<string>, rows: seq<Row>, actions: seq<Action>)

  /** Enforcement for an action mode: "Warn" warns, "Lock" locks, any other mode does nothing. */
  function Enforcement(mode: string): (a: seq<Action>)
    ensures a == [ShowWarning] <==> mode == "Warn"
    ensures a == [LockWorkstation] <==> mode == "Lock"
    ensures a == [] <==> mode != "Warn" && mode != "Lock"
  {
    if mode == "Warn" then [ShowWarning] else if mode == "Lock" then [LockWorkstation] else []
  }

  function EmployeeName(login: Option<string>): string
  {
    login.GetOr(UnknownEmployee)
  }

  /** The row recorded for a violation seen at `at`. */
  function RowFor(dir: string, at: Evidence.DateTime, login: Option<string>): Row
    requires Evidence.Valid(at)
  {
    Row(Evidence.TimestampString(at), EmployeeName(login), ObjectLabel, Evidence.EvidencePath(dir, at))
  }

  /** How a pass of the loop reaches the gates; reads after monitoring was switched off count for nothing. */
  function ObsOf(read: FrameRead, monitoring: bool, now: nat): (o: Obs)
    ensures o.Seen? <==> read.Frame? && monitoring
    ensures o.Seen? ==> o.detected == Detection.ContainsPhone(read.results) && o.now == now
  {
    match read
    case Frame(rs) => if monitoring then Seen(Detection.ContainsPhone(rs), now) else Skip
    case _ => Skip
  }

  function Observations(ticks: seq<Tick>): (obs: seq<Obs>)
    ensures |obs| == |ticks|
    ensures forall i :: 0 <= i < |ticks| ==> obs[i] == ObsOf(ticks[i].read, true, ticks[i].now)
  {
    seq(|ticks|, i requires 0 <= i < |ticks| => ObsOf(ticks[i].read, true, ticks[i].now))
  }

  /**
   * Recording one violation: the evidence file exists afterwards or not; a
   * row is appended and the enforcement runs only if it does.
   */
  function Record(st: Store, dir: string, mode: string, at: Evidence.DateTime, login: Option<string>,
                  existsAfter: bool): Store
    requires Evidence.Valid(at)
  {
    var path := Evidence.EvidencePath(dir, at);
    var files := if existsAfter then st.files + {path} else st.files - {path};
    if path in files then Store(files, st.rows + [RowFor(dir, at, login)], st.actions + Enforcement(mode))
    else Store(files, st.rows, st.actions)
  }

  /**
   * Recording touches no file but the evidence path, which exists afterwards
   * exactly when the write left it; the row and the enforcement follow only then.
   */
  lemma RecordEffect(st: Store, dir: string, mode: string, at: Evidence.DateTime, login: Option<string>,
                     existsAfter: bool)
    requires Evidence.Valid(at)
    ensures var path, r := Evidence.EvidencePath(dir, at), Record(st, dir, mode, at, login, existsAfter);
      && r.files - {path} == st.files - {path}
      && (path in r.files <==> existsAfter)
      && (existsAfter ==> r.rows == st.rows + [RowFor(dir, at, login)] && r.actions == st.actions + Enforcement(mode))
      && (!existsAfter ==> r.rows == st.rows && r.actions == st.actions)
  {
  }

  predicate AllValid(ticks: seq<Tick>)
  {
    forall i :: 0 <= i < |ticks| ==> Evidence.Valid(ticks[i].at)
  }

  /** Recording for every pass whose flag says it admitted an alert. */
  function RecordAll(st: Store, dir: string, mode: string, ticks: seq<Tick>, flags: seq<bool>): Store
    requires AllValid(ticks) && |flags| == |ticks|
  {
    if ticks == [] then st
    else
      var n := |ticks| - 1;
      var before := RecordAll(st, dir, mode, ticks[..n], flags[..n]);
      if flags[n] then Record(before, dir, mode, ticks[n].at, ticks[n].login, ticks[n].existsAfter) else before
  }

  /** The passes that admitted an alert and whose evidence file then existed, in order. */
  function SavedIndices(ticks: seq<Tick>, flags: seq<bool>): (idx: seq<nat>)
    requires |flags| == |ticks|
    ensures forall k :: 0 <= k < |idx| ==> idx[k] < |ticks|
  {
    if ticks == [] then []
    else
      var n := |ticks| - 1;
      SavedIndices(ticks[..n], flags[..n]) + (if flags[n] && ticks[n].existsAfter then [n] else [])
  }

  lemma AllValidPrefix(ticks: seq<Tick>, n: nat)
    requires AllValid(ticks) && n <= |ticks|
    ensures AllValid(ticks[..n])
  {
    forall i | 0 <= i < n ensures Evidence.Valid(ticks[..n][i].at) {
      assert ticks[..n][i] == ticks[i];
    }
  }

  /** A pass is saved exactly when it admitted an alert and its evidence file existed. */
  lemma {:induction false} SavedIndicesExact(ticks: seq<Tick>, flags: seq<bool>)
    requires |flags| == |ticks|
    ensures forall i: nat :: i in SavedIndices(ticks, flags) <==> i < |ticks| && flags[i] && ticks[i].existsAfter
  {
    if ticks != [] {
      var n := |ticks| - 1;
      SavedIndicesExact(ticks[..n], flags[..n]);
      var before := SavedIndices(ticks[..n], flags[..n]);
      var idx := SavedIndices(ticks, flags);
      forall i: nat
        ensures i in idx <==> i < |ticks| && flags[i] && ticks[i].existsAfter
      {
        if i < n {
          assert flags[..n][i] == flags[i] && ticks[..n][i] == ticks[i];
          assert i in idx <==> i in before;
        } else {
          assert i !in before;
        }
      }
    }
  }

  /** Saved passes keep the order in which they happened. */
  lemma {:induction false} SavedIndicesOrdered(ticks: seq<Tick>, flags: seq<bool>)
    requires |flags| == |ticks|
    ensures forall a, b :: 0 <= a < b < |SavedIndices(ticks, flags)| ==>
      SavedIndices(ticks, flags)[a] < SavedIndices(ticks, flags)[b]
  {
    if ticks != [] {
      var n := |ticks| - 1;
      SavedIndicesOrdered(ticks[..n], flags[..n]);
      var before := SavedIndices(ticks[..n], flags[..n]);
      var idx := SavedIndices(ticks, flags);
      forall a, b | 0 <= a < b < |idx|
        ensures idx[a] < idx[b]
      {
        assert idx[a] == before[a] < n;
        if b < |before| {
          assert idx[b] == before[b];
        } else {
          assert idx[b] == n;
        }
      }
    }
  }

  /**
   * Over a run the table only grows: the old rows stay in place and one row
   * follows per saved pass, in order, each the row of that pass.
   */
  lemma {:induction false} RecordAllRows(st: Store, dir: string, mode: string, ticks: seq<Tick>, flags: seq<bool>)
    requires AllValid(ticks) && |flags| == |ticks|
    ensures |RecordAll(st, dir, mode, ticks, flags).rows| == |st.rows| + |SavedIndices(ticks, flags)|
    ensures RecordAll(st, dir, mode, ticks, flags).rows[..|st.rows|] == st.rows
    ensures forall k :: 0 <= k < |SavedIndices(ticks, flags)| ==>
      RecordAll(st, dir, mode, ticks, flags).rows[|st.rows| + k]
      == RowFor(dir, ticks[SavedIndices(ticks, flags)[k]].at, ticks[SavedIndices(ticks, flags)[k]].login)
  {
    if ticks != [] {
      var n := |ticks| - 1;
      RecordAllLast(st, dir, mode, ticks, flags);
      RecordAllRows(st, dir, mode, ticks[..n], flags[..n]);
      var before := RecordAll(st, dir, mode, ticks[..n], flags[..n]);
      var r := RecordAll(st, dir, mode, ticks, flags);
      var idx0 := SavedIndices(ticks[..n], flags[..n]);
      var idx := SavedIndices(ticks, flags);
      if flags[n] {
        RecordShape(before, dir, mode, ticks[n].at, ticks[n].login, ticks[n].existsAfter);
      }
      assert r.rows[..|before.rows|] == before.rows;
      assert r.rows[..|st.rows|] == before.rows[..|st.rows|];
      forall k | 0 <= k < |idx|
        ensures r.rows[|st.rows| + k] == RowFor(dir, ticks[idx[k]].at, ticks[idx[k]].login)
      {
        if k < |idx0| {
          assert idx[k] == idx0[k];
          assert ticks[..n][idx0[k]] == ticks[idx[k]];
        } else {
          assert idx[k] == n;
        }
      }
    }
  }


  lemma RecordAllLast(st: Store, dir: string, mode: string, ticks: seq<Tick>, flags: seq<bool>)
    requires AllValid(ticks) && |flags| == |ticks| && ticks != []
    ensures var n := |ticks| - 1;
      AllValid(ticks[..n]) &&
      var before := RecordAll(st, dir, mode, ticks[..n], flags[..n]);
      && RecordAll(st, dir, mode, ticks, flags)
         == (if flags[n] then Record(before, dir, mode, ticks[n].at, ticks[n].login, ticks[n].existsAfter) else before)
      && SavedIndices(ticks, flags) == SavedIndices(ticks[..n], flags[..n]) + (if flags[n] && ticks[n].existsAfter then [n] else [])
  {
    AllValidPrefix(ticks, |ticks| - 1);
  }

  /** `n` copies of `a`, one after another. */
  function Repeat<T>(a: seq<T>, n: nat): seq<T>
  {
    if n == 0 then [] else Repeat(a, n - 1) + a
  }

  /** Enforcement effects grow by exactly one mode's worth per new row, in order. */
  lemma {:induction false} RecordAllActions(st: Store, dir: string, mode: string, ticks: seq<Tick>, flags: seq<bool>)
    requires AllValid(ticks) && |flags| == |ticks|
    ensures RecordAll(st, dir, mode, ticks, flags).actions == st.actions + Repeat(Enforcement(mode), |SavedIndices(ticks, flags)|)
  {
    if ticks != [] {
      var n := |ticks| - 1;
      var e := Enforcement(mode);
      RecordAllLast(st, dir, mode, ticks, flags);
      RecordAllActions(st, dir, mode, ticks[..n], flags[..n]);
      var before := RecordAll(st, dir, mode, ticks[..n], flags[..n]);
      var c := |SavedIndices(ticks[..n], flags[..n])|;
      var saved := flags[n] && ticks[n].existsAfter;
      assert RecordAll(st, dir, mode, ticks, flags).actions == before.actions + (if saved then e else []) by {
        if flags[n] {
          RecordShape(before, dir, mode, ticks[n].at, ticks[n].login, ticks[n].existsAfter);
        }
        assert before.actions + [] == before.actions;
      }
      assert |SavedIndices(ticks, flags)| == c + (if saved then 1 else 0);
      RepeatStep(st.actions, e, c, saved);
    }
  }

  /** One more optional copy of `e` after `c` copies. */
  lemma RepeatStep<T>(s: seq<T>, e: seq<T>, c: nat, more: bool)
    ensures s + Repeat(e, c) + (if more then e else []) == s + Repeat(e, c + (if more then 1 else 0))
  {
    if more {
      assert Repeat(e, c + 1) == Repeat(e, c) + e;
      assert s + Repeat(e, c) + e == s + (Repeat(e, c) + e);
    } else {
      assert s + Repeat(e, c) + [] == s + Repeat(e, c);
    }
  }

  /** The effect of one recording, in the form the run lemmas use. */
  lemma RecordShape(st: Store, dir: string, mode: string, at: Evidence.DateTime, login: Option<string>, existsAfter: bool)
    requires Evidence.Valid(at)
    ensures var r := Record(st, dir, mode, at, login, existsAfter);
      && r.rows == (if existsAfter then st.rows + [RowFor(dir, at, login)] else st.rows)
      && r.actions == (if existsAfter then st.actions + Enforcement(mode) else st.actions)
  {
  }

  /** In "Log Only" (or any mode but warn and lock) a run never enforces anything. */
  lemma {:induction false} LogOnlyNeverEnforces(st: Store, dir: string, mode: string, ticks: seq<Tick>, flags: seq<bool>)
    requires AllValid(ticks) && |flags| == |ticks|
    requires mode != "Warn" && mode != "Lock"
    ensures RecordAll(st, dir, mode, ticks, flags).actions == st.actions
  {
    if ticks != [] {
      var n := |ticks| - 1;
      AllValidPrefix(ticks, n);
      LogOnlyNeverEnforces(st, dir, mode, ticks[..n], flags[..n]);
    }
  }

  /** One more pass of the frame loop extends the gate run and the recordings by that pass. */
  lemma MonitorStep(c: Config, g0: Gate, st0: Store, dir: string, mode: string, ticks: seq<Tick>, i: nat,
                    out: Outcome, st: Store, st': Store)
    requires AllValid(ticks) && i < |ticks|
    requires st == RecordAll(st0, dir, mode, ticks[..i], Flags(c, g0, Observations(ticks)[..i]))
    requires out == Observe(c, Run(c, g0, Observations(ticks)[..i]), ObsOf(ticks[i].read, true, ticks[i].now))
    requires st' == if out.admitted then Record(st, dir, mode, ticks[i].at, ticks[i].login, ticks[i].existsAfter) else st
    ensures out.gate == Run(c, g0, Observations(ticks)[..i + 1])
    ensures st' == RecordAll(st0, dir, mode, ticks[..i + 1], Flags(c, g0, Observations(ticks)[..i + 1]))
  {
    var obs := Observations(ticks);
    assert obs[..i + 1] == obs[..i] + [obs[i]];
    RunSnoc(c, g0, obs[..i], obs[i]);
    var fs' := Flags(c, g0, obs[..i + 1]);
    var t' := ticks[..i + 1];
    AllValidPrefix(ticks, i + 1);
    assert t'[..i] == ticks[..i];
    assert fs'[..i] == Flags(c, g0, obs[..i]);
    RecordAllLast(st0, dir, mode, t', fs');
  }

  class SafeDeskApp {
    var monitoring: bool
    var modelLoaded: bool
    var modelLoading: bool
    var cap: Capture
    var alertCooldownSeconds: nat
    var requiredStreak: nat
    var detectStreak: nat
    var actionMode: string
    var lastAlertTime: nat
    const alertsDir: string
    var files: set<string>
    var rows: seq<Row>
    var actions: seq<Action>

    function GateConfig(): Config
      reads this
    {
      Config(requiredStreak, alertCooldownSeconds)
    }

    function GateState(): Gate
      reads this
    {
      Gate(detectStreak, lastAlertTime)
    }

    function StoreState(): Store
      reads this
    {
      Store(files, rows, actions)
    }

    /** A new application over an evidence directory and a table left by earlier sessions. */
    constructor (alertsDir: string, existingFiles: set<string>, existingRows: seq<Row>)
      ensures this.alertsDir == alertsDir
      ensures !monitoring && !modelLoaded && !modelLoading && cap == NoCapture
      ensures alertCooldownSeconds == InitialCooldown && requiredStreak == InitialRequiredStreak
      ensures detectStreak == 0 && lastAlertTime == 0 && actionMode == InitialActionMode
      ensures StoreState() == Store(existingFiles, existingRows, [])
    {
      this.alertsDir := alertsDir;
      monitoring, modelLoaded, modelLoading, cap := false, false, false, NoCapture;
      alertCooldownSeconds, requiredStreak := InitialCooldown, InitialRequiredStreak;
      detectStreak, actionMode, lastAlertTime := 0, InitialActionMode, 0;
      files, rows, actions := existingFiles, existingRows, [];
    }

    /** Begins loading the detection model unless it is loaded or already loading. */
    method LoadModelBackground()
      modifies this`modelLoading
      ensures modelLoading == (old(modelLoading) || !modelLoaded)
    {
      if !modelLoading && !modelLoaded {
        modelLoading := true;
      }
    }

    /** The background load finished, successfully or not. */
    method ModelLoadFinished(ok: bool)
      modifies this`modelLoaded, this`modelLoading
      ensures !modelLoading
      ensures modelLoaded == (old(modelLoaded) || ok)
    {
      if ok {
        modelLoaded := true;
      }
      modelLoading := false;
    }

    /**
     * Start monitoring: refused while the model is not loaded (still loading,
     * or the load failed) and ignored while already monitoring; otherwise the
     * streak is reset and monitoring stays on only if the camera opened.
     */
    method StartMonitoring(cameraOpens: bool) returns (outcome: StartOutcome)
      modifies this`monitoring, this`detectStreak, this`cap
      ensures !modelLoaded ==> outcome == (if modelLoading then StillLoading else LoadFailed)
      ensures modelLoaded && old(monitoring) ==> outcome == AlreadyRunning
      ensures !modelLoaded || old(monitoring) ==>
        monitoring == old(monitoring) && detectStreak == old(detectStreak) && cap == old(cap)
      ensures modelLoaded && !old(monitoring) ==>
        && detectStreak == 0
        && cap == Capture(cameraOpens)
        && monitoring == cameraOpens
        && outcome == (if cameraOpens then Started else CameraError)
    {
      if !modelLoaded {
        outcome := if modelLoading then StillLoading else LoadFailed;
        return;
      }
      if monitoring {
        outcome := AlreadyRunning;
        return;
      }
      monitoring := true;
      detectStreak := 0;
      cap := Capture(cameraOpens);
      if cap.isOpen {
        outcome := Started;
      } else {
        outcome := CameraError;
        monitoring := false;
      }
    }

    /** Stop monitoring: release the camera and reset the streak; the last alert time is kept. */
    method StopMonitoring()
      modifies this`monitoring, this`detectStreak, this`cap
      ensures !monitoring && detectStreak == 0 && cap == NoCapture
      ensures lastAlertTime == old(lastAlertTime)
    {
      monitoring := false;
      detectStreak := 0;
      if cap != NoCapture {
        cap := NoCapture;
      }
    }

    method SetActionMode(value: string)
      modifies this`actionMode
      ensures actionMode == value
    {
      actionMode := value;
    }

    /** One pass of the frame loop through detection and both gates. */
    method Step(read: FrameRead, now: nat) returns (admitted: bool)
      modifies this`detectStreak, this`lastAlertTime
      ensures Outcome(GateState(), admitted) == Observe(GateConfig(), old(GateState()), ObsOf(read, monitoring, now))
    {
      admitted := false;
      match read
      case ReadFailed =>
      case DetectorFailed =>
      case Frame(results) =>
        if !monitoring {
          return;
        }
        var phoneDetected := Detection.PhoneDetected(results);
        if phoneDetected {
          detectStreak := detectStreak + 1;
        } else {
          detectStreak := 0;
        }
        if detectStreak >= requiredStreak {
          if now - lastAlertTime >= alertCooldownSeconds {
            lastAlertTime := now;
            admitted := true;
            detectStreak := 0;
          }
        }
    }

    /** Record a violation seen at `at`: write the evidence, then the row and the enforcement. */
    method SaveViolation(at: Evidence.DateTime, login: Option<string>, existsAfter: bool)
      requires Evidence.Valid(at)
      modifies this`files, this`rows, this`actions
      ensures StoreState() == Record(old(StoreState()), alertsDir, actionMode, at, login, existsAfter)
    {
      var timestamp := Evidence.TimestampString(at);
      var imgName := Evidence.EvidencePath(alertsDir, at);
      var employee := EmployeeName(login);
      files := if existsAfter then files + {imgName} else files - {imgName};
      if imgName in files {
        rows := rows + [Row(timestamp, employee, ObjectLabel, imgName)];
        if actionMode == "Warn" {
          actions := actions + [ShowWarning];
        } else if actionMode == "Lock" {
          actions := actions + [LockWorkstation];
        }
      }
    }

    /** One pass of the loop followed, on admission, by recording the violation. */
    method ProcessFrame(t: Tick) returns (admitted: bool)
      requires Evidence.Valid(t.at)
      modifies this`detectStreak, this`lastAlertTime, this`files, this`rows, this`actions
      ensures Outcome(GateState(), admitted) == Observe(GateConfig(), old(GateState()), ObsOf(t.read, monitoring, t.now))
      ensures StoreState() == if admitted then Record(old(StoreState()), alertsDir, actionMode, t.at, t.login, t.existsAfter)
                              else old(StoreState())
    {
      admitted := Step(t.read, t.now);
      if admitted {
        SaveViolation(t.at, t.login, t.existsAfter);
      }
    }

    /** The frame loop over a sequence of passes, while monitoring is on. */
    method Monitor(ticks: seq<Tick>)
      requires AllValid(ticks)
      modifies this`detectStreak, this`lastAlertTime, this`files, this`rows, this`actions
      ensures !old(monitoring) ==> GateState() == old(GateState()) && StoreState() == old(StoreState())
      ensures old(monitoring) ==>
        && GateState() == Run(GateConfig(), old(GateState()), Observations(ticks))
        && StoreState() == RecordAll(old(StoreState()), alertsDir, actionMode, ticks,
                                     Flags(GateConfig(), old(GateState()), Observations(ticks)))
    {
      var i := 0;
      ghost var g0 := GateState();
      ghost var st0 := StoreState();
      ghost var obs := Observations(ticks);
      while i < |ticks| && monitoring
        invariant 0 <= i <= |ticks|
        invariant !monitoring ==> i == 0
        invariant GateState() == Run(GateConfig(), g0, obs[..i])
        invariant StoreState() == RecordAll(st0, alertsDir, actionMode, ticks[..i], Flags(GateConfig(), g0, obs[..i]))
      {
        ghost var st := StoreState();
        var admitted := ProcessFrame(ticks[i]);
        MonitorStep(GateConfig(), g0, st0, alertsDir, actionMode, ticks, i, Outcome(GateState(), admitted), st, StoreState());
        i := i + 1;
      }
      if monitoring {
        assert obs[..i] == obs;
        assert ticks[..i] == ticks;
      }
    }
  }
}
