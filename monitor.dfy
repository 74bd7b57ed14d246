/**
 * The clipboard change detector of `clipboard_monitor.py`: one poll of the
 * clipboard ("tick") classifies the snapshot, fingerprints it, asks the
 * self-echo suppressor, then the recent-window deduplicator, then compares with
 * the last fingerprint, and emits at most one change event.
 *
 * The self-echo arm lives on the application object (`app.setProperty`), so it
 * is a class of its own, `AppProperties`, written by the widget and by the
 * monitor. Time is an input: `now` stands for `monotonic()`.
 *
 * Each step is specified by a function on values (`SelfCopyCheck`, `Pruned`,
 * `Remembered`, `TickStep`); the classes' methods are proved to update their
 * fields exactly as those functions say, and the properties are proved about
 * the functions.
 */
module Monitor {
  import opened Wrappers
  import opened Fingerprint
  import opened Classifier

  /** `deque(maxlen=16)`. */
  const RecentCapacity: nat := 16

  /** The default `dedupe_window_seconds`. */
  const DefaultDedupeWindow: real := 1.0

  /** One `(hash, t)` pair of the recent window. */
  datatype Entry = Entry(hash: string, at: real)

  /** An entry older than the window at time `now`. */
  predicate Expired(e: Entry, now: real, window: real) {
    now - e.at > window
  }

  /** Some entry of `recent` carries fingerprint `h`. */
  predicate Holds(recent: seq<Entry>, h: string) {
    exists i :: 0 <= i < |recent| && recent[i].hash == h
  }

  /** How many entries `_is_recent` pops from the front: the run of expired ones there. */
  function PruneCount(recent: seq<Entry>, now: real, window: real): (k: nat)
    ensures k <= |recent|
    ensures forall j :: 0 <= j < k ==> Expired(recent[j], now, window)
    ensures k < |recent| ==> !Expired(recent[k], now, window)
  {
    if |recent| > 0 && Expired(recent[0], now, window) then 1 + PruneCount(recent[1..], now, window) else 0
  }

  /** The window after `_is_recent` has pruned it at time `now`. */
  function Pruned(recent: seq<Entry>, now: real, window: real): seq<Entry> {
    recent[PruneCount(recent, now, window)..]
  }

  /**
   * Pruning removes a prefix of expired entries and nothing else: the entries
   * kept are a suffix of the window in their order, the first of them is not
   * expired, and every entry that has not expired is kept.
   */
  lemma PruneKeepsLiveSuffix(recent: seq<Entry>, now: real, window: real)
    ensures var r := Pruned(recent, now, window);
            && |r| <= |recent| && r == recent[|recent| - |r|..]
            && (forall j :: 0 <= j < |recent| - |r| ==> Expired(recent[j], now, window))
            && (r != [] ==> !Expired(r[0], now, window))
            && (forall j :: 0 <= j < |recent| && !Expired(recent[j], now, window) ==> recent[j] in r)
  {
    var k := PruneCount(recent, now, window);
    forall j | 0 <= j < |recent| && !Expired(recent[j], now, window) ensures recent[j] in recent[k..] {
      assert recent[k..][j - k] == recent[j];
    }
  }

  /** Pruning pops an expired front entry and stops at a live one. */
  lemma PruneFront(recent: seq<Entry>, now: real, window: real)
    ensures |recent| > 0 && Expired(recent[0], now, window) ==> Pruned(recent, now, window) == Pruned(recent[1..], now, window)
    ensures !(|recent| > 0 && Expired(recent[0], now, window)) ==> Pruned(recent, now, window) == recent
  {
  }

  /** An entry that has not expired still answers for its fingerprint after pruning. */
  lemma LiveEntryIsRecent(recent: seq<Entry>, i: nat, now: real, window: real)
    requires i < |recent| && !Expired(recent[i], now, window)
    ensures Holds(Pruned(recent, now, window), recent[i].hash)
  {
    var k := PruneCount(recent, now, window);
    assert i >= k;
    assert Pruned(recent, now, window)[i - k] == recent[i];
  }

  /**
   * `_remember(h)`: a non-empty fingerprint is appended with time `now`, and a
   * full window drops its oldest entry; an empty fingerprint changes nothing.
   */
  function Remembered(recent: seq<Entry>, h: string, now: real): (r: seq<Entry>)
    requires |recent| <= RecentCapacity
    ensures |r| <= RecentCapacity
    ensures h == "" ==> r == recent
    ensures h != "" ==> && |r| == Text.Min(|recent| + 1, RecentCapacity)
                        && r[|r| - 1] == Entry(h, now)
                        && r[..|r| - 1] == recent[|recent| + 1 - |r|..]
  {
    if h == "" then recent
    else (if |recent| == RecentCapacity then recent[1..] else recent) + [Entry(h, now)]
  }

  /** What the monitor keeps between ticks. */
  datatype MonitorState = MonitorState(lastContentHash: string, recent: seq<Entry>)

  /** The window never holds more than 16 entries, and never an empty fingerprint. */
  predicate ValidState(s: MonitorState) {
    && |s.recent| <= RecentCapacity
    && forall i :: 0 <= i < |s.recent| ==> s.recent[i].hash != ""
  }

  /** The two application properties `clip_skip_once` and `clip_skip_hash` (`None`: unset or not a string). */
  datatype Arm = Arm(skipOnce: bool, skipHash: Option<string>)

  /** The arm the widget sets just before it writes `content` with fingerprint `h` to the clipboard. */
  function Armed(h: string): Arm {
    Arm(true, Some(h))
  }

  /** Both properties cleared. */
  const Disarmed := Arm(false, Some(""))

  datatype SkipOutcome = SkipOutcome(skip: bool, arm: Arm)

  /**
   * `_should_skip_for_self_copy(app, h)`: whether to skip fingerprint `h` as the
   * echo of the application's own write, and the arm afterwards. `fault` stands
   * for reading the properties raising.
   */
  function SelfCopyCheck(arm: Arm, h: string, fault: bool): SkipOutcome {
    if fault then SkipOutcome(false, Disarmed)
    else if !arm.skipOnce then SkipOutcome(false, arm)
    else if arm.skipHash.Some? && arm.skipHash.value != "" then
      if h == arm.skipHash.value then SkipOutcome(true, Disarmed)
      else SkipOutcome(false, arm)
    else SkipOutcome(true, arm.(skipOnce := false))
  }

  /** Not armed: no skip, and the arm is left as it is. */
  lemma UnarmedNeverSkips(arm: Arm, h: string)
    requires !arm.skipOnce
    ensures SelfCopyCheck(arm, h, false) == SkipOutcome(false, arm)
  {
  }

  /** Armed with a fingerprint, the matching observation is skipped and clears both properties. */
  lemma MatchingEchoIsSkippedOnce(h: string)
    requires h != ""
    ensures SelfCopyCheck(Armed(h), h, false) == SkipOutcome(true, Disarmed)
  {
  }

  /** Armed with a fingerprint, a different observation is not skipped and does not consume the arm. */
  lemma OtherContentKeepsArm(armed: string, h: string)
    requires armed != "" && h != armed
    ensures SelfCopyCheck(Armed(armed), h, false) == SkipOutcome(false, Armed(armed))
  {
  }

  /** Armed without a fingerprint, the next observation is skipped whatever it is, and the flag clears. */
  lemma UnconditionalArmSkipsNext(arm: Arm, h: string)
    requires arm.skipOnce && (arm.skipHash.None? || arm.skipHash.value == "")
    ensures var out := SelfCopyCheck(arm, h, false);
            out.skip && !out.arm.skipOnce && out.arm.skipHash == arm.skipHash
  {
  }

  /** A fault while reading the properties fails open: no skip, and both properties cleared. */
  lemma FaultFailsOpen(arm: Arm, h: string)
    ensures SelfCopyCheck(arm, h, true) == SkipOutcome(false, Disarmed)
  {
  }

  /** A skip consumes the arm: without a new arm, no later observation is skipped. */
  lemma SkipHappensOnce(arm: Arm, h: string, h': string, fault': bool)
    requires SelfCopyCheck(arm, h, false).skip
    ensures !SelfCopyCheck(SelfCopyCheck(arm, h, false).arm, h', fault').skip
  {
  }

  /** What one tick observes: the clipboard's snapshot (`None` when `mimeData()` is `None`) and its context. */
  datatype Observation = Observation(mime: Option<MimeData>, fs: FileSystem, now: real, propertyFault: bool)

  /** The arguments of one `clipboard_changed.emit(content, content_type, metadata)`. */
  datatype ChangeEvent = ChangeEvent(content: string, contentType: string, metadata: Metadata)

  datatype TickOutcome = TickOutcome(state: MonitorState, arm: Arm, event: Option<ChangeEvent>)

  /** The classified content a tick sees: nothing when the clipboard has no snapshot. */
  function Observed(obs: Observation): Classified {
    if obs.mime.None? then Nothing else ProcessClipboardData(obs.mime.value, obs.fs)
  }

  /** One pass of the body of `run`'s loop. */
  function TickStep(s: MonitorState, arm: Arm, obs: Observation, window: real): TickOutcome
    requires ValidState(s)
  {
    var c := Observed(obs);
    if c.content == "" then TickOutcome(s, arm, None)
    else
      var h := HashContent(c.content);
      var check := SelfCopyCheck(arm, h, obs.propertyFault);
      if check.skip then TickOutcome(MonitorState(h, Remembered(s.recent, h, obs.now)), check.arm, None)
      else
        var live := Pruned(s.recent, obs.now, window);
        if Holds(live, h) || h == s.lastContentHash then TickOutcome(s.(recent := live), check.arm, None)
        else
          TickOutcome(MonitorState(h, Remembered(live, h, obs.now)), check.arm,
                      Some(ChangeEvent(c.content, c.contentType, c.metadata)))
  }

  /** Remembering a non-empty fingerprint keeps the window valid. */
  lemma RememberedKeepsValid(s: MonitorState, h: string, now: real)
    requires ValidState(s) && h != ""
    ensures ValidState(MonitorState(h, Remembered(s.recent, h, now)))
  {
    var r := Remembered(s.recent, h, now);
    forall i | 0 <= i < |r| ensures r[i].hash != "" {
      if i < |r| - 1 {
        assert r[i] == r[..|r| - 1][i];
        assert r[i] == s.recent[|s.recent| + 1 - |r| + i];
      }
    }
  }

  /** Every tick keeps the window at most 16 entries long and free of empty fingerprints. */
  lemma TickKeepsValid(s: MonitorState, arm: Arm, obs: Observation, window: real)
    requires ValidState(s)
    ensures ValidState(TickStep(s, arm, obs, window).state)
  {
    var c := Observed(obs);
    if c.content != "" {
      var h := HashContent(c.content);
      var live := Pruned(s.recent, obs.now, window);
      assert ValidState(s.(recent := live));
      RememberedKeepsValid(s, h, obs.now);
      RememberedKeepsValid(s.(recent := live), h, obs.now);
    }
  }

  /**
   * A tick emits exactly when the snapshot has content whose fingerprint is not
   * skipped as a self-echo, is not in the pruned window and differs from the last
   * one; the event carries the classified content, and afterwards that
   * fingerprint is the last one and is in the window.
   */
  lemma EmitsExactlyWhenNew(s: MonitorState, arm: Arm, obs: Observation, window: real)
    requires ValidState(s)
    ensures var out := TickStep(s, arm, obs, window);
            var c := Observed(obs);
            var h := HashContent(c.content);
            && (out.event.Some? <==>
                  && c.content != ""
                  && !SelfCopyCheck(arm, h, obs.propertyFault).skip
                  && !Holds(Pruned(s.recent, obs.now, window), h)
                  && h != s.lastContentHash)
            && (out.event.Some? ==>
                  && out.event.value == ChangeEvent(c.content, c.contentType, c.metadata)
                  && out.state.lastContentHash == h
                  && Holds(out.state.recent, h))
  {
    var out := TickStep(s, arm, obs, window);
    if out.event.Some? {
      var r := out.state.recent;
      assert r[|r| - 1].hash == HashContent(Observed(obs).content);
    }
  }

  /** A snapshot without content changes nothing and emits nothing. */
  lemma EmptyContentChangesNothing(s: MonitorState, arm: Arm, obs: Observation, window: real)
    requires ValidState(s) && Observed(obs).content == ""
    ensures TickStep(s, arm, obs, window) == TickOutcome(s, arm, None)
  {
  }

  /**
   * A skipped self-echo emits nothing, yet its fingerprint becomes the last one
   * and is remembered (without pruning the window first).
   */
  lemma SkippedEchoBecomesLast(s: MonitorState, arm: Arm, obs: Observation, window: real)
    requires ValidState(s)
    requires var c := Observed(obs); c.content != "" && SelfCopyCheck(arm, HashContent(c.content), obs.propertyFault).skip
    ensures var h := HashContent(Observed(obs).content);
            TickStep(s, arm, obs, window)
              == TickOutcome(MonitorState(h, Remembered(s.recent, h, obs.now)),
                             SelfCopyCheck(arm, h, obs.propertyFault).arm, None)
  {
  }

  /**
   * The window is asked before the last fingerprint: content remembered less
   * than a window ago is not emitted even when it differs from the last
   * fingerprint, and the last fingerprint stays as it was.
   */
  lemma RecentContentIsNotEmitted(s: MonitorState, arm: Arm, obs: Observation, window: real, i: nat)
    requires ValidState(s)
    requires var c := Observed(obs);
             && c.content != ""
             && !SelfCopyCheck(arm, HashContent(c.content), obs.propertyFault).skip
             && i < |s.recent| && s.recent[i].hash == HashContent(c.content)
             && !Expired(s.recent[i], obs.now, window)
    ensures var out := TickStep(s, arm, obs, window);
            out.event.None? && out.state.lastContentHash == s.lastContentHash
  {
    LiveEntryIsRecent(s.recent, i, obs.now, window);
  }

  /** The tick on which an emission happens leaves that content as the last one: the same content right after emits nothing. */
  lemma NoEmissionOnRepeat(s: MonitorState, arm: Arm, obs: Observation, obs': Observation, window: real)
    requires ValidState(s)
    requires Observed(obs') == Observed(obs)
    ensures ValidState(TickStep(s, arm, obs, window).state)
    ensures var out := TickStep(s, arm, obs, window);
            out.event.Some? ==> TickStep(out.state, out.arm, obs', window).event.None?
  {
    TickKeepsValid(s, arm, obs, window);
    var out := TickStep(s, arm, obs, window);
    EmitsExactlyWhenNew(s, arm, obs, window);
    EmitsExactlyWhenNew(out.state, out.arm, obs', window);
  }

  /**
   * What happens between two states of the monitor: a tick of the polling loop,
   * or the widget arming the suppressor for the fingerprint of what it is about
   * to write.
   */
  datatype Op = Poll(obs: Observation) | ArmCopy(hash: string)

  /** The monitor's state, the arm and the events emitted so far. */
  datatype Replayed = Replayed(state: MonitorState, arm: Arm, events: seq<ChangeEvent>)

  /** The effect of one operation. */
  function Apply(r: Replayed, op: Op, window: real): (r': Replayed)
    requires ValidState(r.state)
    ensures ValidState(r'.state)
    ensures |r.events| <= |r'.events| <= |r.events| + 1 && r'.events[..|r.events|] == r.events
  {
    match op
    case ArmCopy(h) => r.(arm := Armed(h))
    case Poll(obs) =>
      TickKeepsValid(r.state, r.arm, obs, window);
      var out := TickStep(r.state, r.arm, obs, window);
      Replayed(out.state, out.arm, r.events + if out.event.Some? then [out.event.value] else [])
  }

  /** The outcome of `ops`, applied in order from state `s` and arm `arm`. */
  function Replay(s: MonitorState, arm: Arm, ops: seq<Op>, window: real): (r: Replayed)
    requires ValidState(s)
    ensures ValidState(r.state)
    ensures |r.events| <= |ops|
    decreases |ops|
  {
    if ops == [] then Replayed(s, arm, [])
    else Apply(Replay(s, arm, ops[..|ops| - 1], window), ops[|ops| - 1], window)
  }

  /** Replaying one more operation applies it to the outcome so far. */
  lemma ReplaySnoc(s: MonitorState, arm: Arm, ops: seq<Op>, op: Op, window: real)
    requires ValidState(s)
    ensures Replay(s, arm, ops + [op], window) == Apply(Replay(s, arm, ops, window), op, window)
  {
    assert (ops + [op])[..|ops|] == ops;
  }

  /** The ticks that observe `observations`, one each, with no arming in between. */
  function Polls(observations: seq<Observation>): (ops: seq<Op>)
    ensures |ops| == |observations|
    ensures forall i :: 0 <= i < |ops| ==> ops[i] == Poll(observations[i])
  {
    if observations == [] then []
    else Polls(observations[..|observations| - 1]) + [Poll(observations[|observations| - 1])]
  }

  /** Replaying the polls of one more observation applies that observation's tick to the outcome so far. */
  lemma ReplayPollStep(s: MonitorState, arm: Arm, observations: seq<Observation>, i: nat, r: Replayed, t: TickOutcome, window: real)
    requires ValidState(s) && i < |observations|
    requires r == Replay(s, arm, Polls(observations[..i]), window)
    requires t == TickStep(r.state, r.arm, observations[i], window)
    ensures Replay(s, arm, Polls(observations[..i + 1]), window)
            == Replayed(t.state, t.arm, r.events + if t.event.Some? then [t.event.value] else [])
  {
    assert observations[..i + 1][..i] == observations[..i];
    ReplaySnoc(s, arm, Polls(observations[..i]), Poll(observations[i]), window);
  }

  /** The application object's two properties: the self-echo arm, written by the widget and by the monitor. */
  class AppProperties {
    var clipSkipOnce: bool
    var clipSkipHash: Option<string>

    /** Before anything sets them, both properties read as `None`. */
    constructor ()
      ensures !clipSkipOnce && clipSkipHash == None
    {
      clipSkipOnce := false;
      clipSkipHash := None;
    }

    function ArmState(): Arm
      reads this
    {
      Arm(clipSkipOnce, clipSkipHash)
    }
  }

  /** `ClipboardMonitor(QThread)`, without the thread: its fields and the body of its polling loop. */
  class ClipboardMonitor {
    var lastContentHash: string
    var recent: seq<Entry>
    const dedupeWindow: real

    ghost predicate Valid()
      reads this
    {
      ValidState(State())
    }

    function State(): MonitorState
      reads this
    {
      MonitorState(lastContentHash, recent)
    }

    constructor (dedupeWindowSeconds: real)
      ensures Valid() && State() == MonitorState("", []) && dedupeWindow == dedupeWindowSeconds
    {
      lastContentHash := "";
      recent := [];
      dedupeWindow := dedupeWindowSeconds;
    }

    /** `_is_recent(h)`: prunes expired entries from the front, then looks `h` up. */
    method IsRecent(h: string, now: real) returns (seen: bool)
      requires Valid()
      modifies this
      ensures Valid()
      ensures recent == Pruned(old(recent), now, dedupeWindow)
      ensures lastContentHash == old(lastContentHash)
      ensures seen <==> Holds(recent, h)
    {
      while |recent| > 0 && now - recent[0].at > dedupeWindow
        invariant Pruned(recent, now, dedupeWindow) == Pruned(old(recent), now, dedupeWindow)
        invariant lastContentHash == old(lastContentHash)
        invariant Valid()
        decreases |recent|
      {
        PruneFront(recent, now, dedupeWindow);
        recent := recent[1..];
      }
      PruneFront(recent, now, dedupeWindow);
      seen := exists i | 0 <= i < |recent| :: recent[i].hash == h;
    }

    /** `_remember(h)`. */
    method Remember(h: string, now: real)
      requires Valid()
      modifies this
      ensures Valid()
      ensures recent == Remembered(old(recent), h, now)
      ensures lastContentHash == old(lastContentHash)
    {
      if h != "" {
        if |recent| == RecentCapacity {
          recent := recent[1..];
        }
        recent := recent + [Entry(h, now)];
      }
    }

    /** `_should_skip_for_self_copy(app, h)`; `fault` stands for reading the properties raising. */
    method ShouldSkipForSelfCopy(app: AppProperties, h: string, fault: bool) returns (skip: bool)
      modifies app
      ensures SkipOutcome(skip, app.ArmState()) == SelfCopyCheck(old(app.ArmState()), h, fault)
    {
      if fault {
        app.clipSkipOnce := false;
        app.clipSkipHash := Some("");
        return false;
      }
      if !app.clipSkipOnce {
        return false;
      }
      var marked := app.clipSkipHash;
      if marked.Some? && marked.value != "" {
        if h == marked.value {
          app.clipSkipOnce := false;
          app.clipSkipHash := Some("");
          return true;
        } else {
          return false;
        }
      } else {
        app.clipSkipOnce := false;
        return true;
      }
    }

    /** One pass of the body of `run`'s `while self.running` loop. */
    method Tick(app: AppProperties, obs: Observation) returns (event: Option<ChangeEvent>)
      requires Valid()
      modifies this, app
      ensures Valid()
      ensures TickOutcome(State(), app.ArmState(), event) == TickStep(old(State()), old(app.ArmState()), obs, dedupeWindow)
    {
      event := None;
      if obs.mime.None? {
        return;
      }
      var c := ProcessClipboardData(obs.mime.value, obs.fs);
      if c.content != "" {
        var h := HashContent(c.content);
        var skip := ShouldSkipForSelfCopy(app, h, obs.propertyFault);
        if skip {
          lastContentHash := h;
          Remember(h, obs.now);
          return;
        }
        var seen := IsRecent(h, obs.now);
        if seen {
          return;
        }
        if h != lastContentHash {
          event := Some(ChangeEvent(c.content, c.contentType, c.metadata));
          lastContentHash := h;
          Remember(h, obs.now);
        }
      }
    }

    /**
     * `run()`: the polling loop, over the observations its ticks make before
     * `stop()`; the events are the `clipboard_changed` emissions in order.
     */
    method Run(app: AppProperties, observations: seq<Observation>) returns (events: seq<ChangeEvent>)
      requires Valid()
      modifies this, app
      ensures Valid()
      ensures Replayed(State(), app.ArmState(), events)
              == Replay(old(State()), old(app.ArmState()), Polls(observations), dedupeWindow)
    {
      ghost var s0, a0 := State(), app.ArmState();
      events := [];
      var i := 0;
      while i < |observations|
        invariant 0 <= i <= |observations|
        invariant Valid()
        invariant Replayed(State(), app.ArmState(), events) == Replay(s0, a0, Polls(observations[..i]), dedupeWindow)
      {
        ghost var before := Replayed(State(), app.ArmState(), events);
        var event := Tick(app, observations[i]);
        ReplayPollStep(s0, a0, observations, i, before, TickOutcome(State(), app.ArmState(), event), dedupeWindow);
        events := events + if event.Some? then [event.value] else [];
        i := i + 1;
      }
      assert observations[..i] == observations;
    }
  }
}
