/**
 * Properties of whole runs of the clipboard monitor: sequences of ticks, with
 * the widget arming the self-echo suppressor in between.
 */
module MonitorTraces {
  import opened Wrappers
  import opened Fingerprint
  import opened Classifier
  import opened Monitor

  /** Every tick of `ops` sees either nothing or the classified content `content`. */
  predicate OnlyShows(ops: seq<Op>, content: string) {
    forall i :: 0 <= i < |ops| && ops[i].Poll? ==>
      Observed(ops[i].obs).content == "" || Observed(ops[i].obs).content == content
  }

  /** A tick leaves the last fingerprint as it was, or sets it to the fingerprint of what it saw. */
  lemma TickSetsLastToSeen(s: MonitorState, arm: Arm, obs: Observation, window: real)
    requires ValidState(s)
    ensures var last := TickStep(s, arm, obs, window).state.lastContentHash;
            last == s.lastContentHash || (Observed(obs).content != "" && last == HashContent(Observed(obs).content))
  {
  }

  /**
   * However the ticks and arms interleave, while the clipboard shows only
   * `content` (or nothing), at most one change event is emitted, it carries
   * `content`, and none at all when `content` was already the last one.
   */
  lemma {:induction false} RepeatEmitsAtMostOnce(s: MonitorState, arm: Arm, ops: seq<Op>, window: real, content: string)
    requires ValidState(s) && content != "" && OnlyShows(ops, content)
    ensures var r := Replay(s, arm, ops, window);
            var h := HashContent(content);
            && (r.state.lastContentHash == s.lastContentHash || r.state.lastContentHash == h)
            && |r.events| <= 1
            && (|r.events| == 1 ==> r.state.lastContentHash == h && r.events[0].content == content)
            && (s.lastContentHash == h ==> r.events == [])
    decreases |ops|
  {
    if ops != [] {
      var init := ops[..|ops| - 1];
      assert OnlyShows(init, content) by {
        forall i | 0 <= i < |init| ensures init[i] == ops[i] { }
      }
      RepeatEmitsAtMostOnce(s, arm, init, window, content);
      var prev := Replay(s, arm, init, window);
      match ops[|ops| - 1]
      case ArmCopy(_) =>
      case Poll(obs) =>
        assert ops[|ops| - 1].Poll?;
        EmitsExactlyWhenNew(prev.state, prev.arm, obs, window);
        TickSetsLastToSeen(prev.state, prev.arm, obs, window);
        assert Replay(s, arm, ops, window) == Apply(prev, ops[|ops| - 1], window);
    }
  }

  /**
   * Ticks that keep seeing the same new content, with the suppressor not armed,
   * emit exactly one event: the first tick's.
   */
  lemma {:induction false} RepeatEmitsExactlyOnce(s: MonitorState, arm: Arm, observations: seq<Observation>, window: real)
    requires ValidState(s) && |observations| > 0 && !arm.skipOnce
    requires var c := Observed(observations[0]);
             && c.content != ""
             && HashContent(c.content) != s.lastContentHash
             && !Holds(s.recent, HashContent(c.content))
    requires forall i :: 0 <= i < |observations| ==>
               Observed(observations[i]) == Observed(observations[0]) && !observations[i].propertyFault
    ensures var c := Observed(observations[0]);
            Replay(s, arm, Polls(observations), window).events == [ChangeEvent(c.content, c.contentType, c.metadata)]
    decreases |observations|
  {
    var c := Observed(observations[0]);
    var ops := Polls(observations);
    var prev := Replay(s, arm, ops[..|ops| - 1], window);
    if |observations| == 1 {
      assert ops[..0] == [];
      var o := observations[0];
      assert Holds(Pruned(s.recent, o.now, window), HashContent(c.content)) ==> Holds(s.recent, HashContent(c.content)) by {
        PruneKeepsLiveSuffix(s.recent, o.now, window);
      }
      EmitsExactlyWhenNew(s, arm, o, window);
    } else {
      var init := observations[..|observations| - 1];
      assert Polls(init) == ops[..|ops| - 1];
      RepeatEmitsExactlyOnce(s, arm, init, window);
      assert OnlyShows(Polls(init), c.content);
      RepeatEmitsAtMostOnce(s, arm, Polls(init), window, c.content);
      var o := observations[|observations| - 1];
      EmitsExactlyWhenNew(prev.state, prev.arm, o, window);
    }
  }

  /**
   * The widget's own write is not reported: arming with the fingerprint of
   * `content` and then observing `content` emits nothing, clears the arm and
   * makes `content` the last fingerprint, so that the same content observed
   * again (an external copy of the same text) emits nothing either.
   */
  lemma OwnCopyIsSuppressed(s: MonitorState, arm: Arm, obs: Observation, again: Observation, window: real)
    requires ValidState(s)
    requires Observed(obs).content != "" && !obs.propertyFault
    requires Observed(again) == Observed(obs)
    ensures var h := HashContent(Observed(obs).content);
            var r := Replay(s, arm, [ArmCopy(h), Poll(obs)], window);
            && r.events == [] && r.arm == Disarmed && r.state.lastContentHash == h
            && Replay(s, arm, [ArmCopy(h), Poll(obs), Poll(again)], window).events == []
  {
    var h := HashContent(Observed(obs).content);
    ReplayOne(s, arm, ArmCopy(h), window);
    ReplayTwo(s, arm, ArmCopy(h), Poll(obs), window);
    ReplayThree(s, arm, ArmCopy(h), Poll(obs), Poll(again), window);
    ArmedTickConsumesEcho(s, h, obs, window);
    var r := Replay(s, arm, [ArmCopy(h), Poll(obs)], window);
    EmitsExactlyWhenNew(r.state, r.arm, again, window);
  }

  /**
   * An arm is not consumed by other content: arming for `mine`, observing some
   * other content (reported as if nothing were armed), and then observing
   * `mine` emits nothing for `mine` and only then clears the arm.
   */
  lemma OtherContentDoesNotConsumeArm(s: MonitorState, other: Observation, mine: Observation, window: real)
    requires ValidState(s)
    requires Observed(mine).content != "" && !mine.propertyFault && !other.propertyFault
    requires Observed(other).content != Observed(mine).content
    ensures var h := HashContent(Observed(mine).content);
            var r1 := Replay(s, Disarmed, [ArmCopy(h), Poll(other)], window);
            var r2 := Replay(s, Disarmed, [ArmCopy(h), Poll(other), Poll(mine)], window);
            && r1.arm == Armed(h)
            && r1.events == Replay(s, Disarmed, [Poll(other)], window).events
            && r2.events == r1.events && r2.arm == Disarmed
  {
    var h := HashContent(Observed(mine).content);
    HashIdentifiesContent(Observed(other).content, Observed(mine).content);
    ReplayOne(s, Disarmed, ArmCopy(h), window);
    ReplayTwo(s, Disarmed, ArmCopy(h), Poll(other), window);
    ReplayThree(s, Disarmed, ArmCopy(h), Poll(other), Poll(mine), window);
    ReplayOne(s, Disarmed, Poll(other), window);
    ArmedTickIgnoresOther(s, h, other, window);
    var r1 := Replay(s, Disarmed, [ArmCopy(h), Poll(other)], window);
    ArmedTickConsumesEcho(r1.state, h, mine, window);
  }

  /** Armed for `h`, a tick that sees other content acts as if nothing were armed, and keeps the arm. */
  lemma ArmedTickIgnoresOther(s: MonitorState, h: string, obs: Observation, window: real)
    requires ValidState(s) && h != "" && !obs.propertyFault && HashContent(Observed(obs).content) != h
    ensures var t := TickStep(s, Armed(h), obs, window);
            var u := TickStep(s, Disarmed, obs, window);
            t.event == u.event && t.state == u.state && t.arm == Armed(h)
  {
    var hc := HashContent(Observed(obs).content);
    OtherContentKeepsArm(h, hc);
    UnarmedNeverSkips(Disarmed, hc);
  }

  /** Armed for the fingerprint of what a tick sees, the tick reports nothing and clears the arm. */
  lemma ArmedTickConsumesEcho(s: MonitorState, h: string, obs: Observation, window: real)
    requires ValidState(s) && !obs.propertyFault && Observed(obs).content != ""
    requires h == HashContent(Observed(obs).content)
    ensures var t := TickStep(s, Armed(h), obs, window);
            t.event == None && t.arm == Disarmed
  {
    MatchingEchoIsSkippedOnce(h);
  }

  /**
   * A tick leaves the window as it was or pruned, and then possibly remembers
   * the fingerprint it saw.
   */
  lemma TickWindowShapes(s: MonitorState, arm: Arm, obs: Observation, window: real)
    requires ValidState(s)
    ensures var h := HashContent(Observed(obs).content);
            var live := Pruned(s.recent, obs.now, window);
            var recent := TickStep(s, arm, obs, window).state.recent;
            recent == s.recent || recent == live || recent == Remembered(s.recent, h, obs.now)
            || recent == Remembered(live, h, obs.now)
  {
    var c := Observed(obs);
    var out := TickStep(s, arm, obs, window);
    if c.content != "" {
      var h := HashContent(c.content);
      var live := Pruned(s.recent, obs.now, window);
      if SelfCopyCheck(arm, h, obs.propertyFault).skip {
        assert out.state.recent == Remembered(s.recent, h, obs.now);
      } else if Holds(live, h) || h == s.lastContentHash {
        assert out.state.recent == live;
      } else {
        assert out.state.recent == Remembered(live, h, obs.now);
      }
    }
  }

  /** The newest entry of the window survives pruning while it has not expired, and remembering one more. */
  lemma NewestEntrySurvives(recent: seq<Entry>, now: real, window: real, h: string, at: real)
    requires 0 < |recent| <= RecentCapacity
    requires !Expired(recent[|recent| - 1], now, window)
    ensures var e := recent[|recent| - 1];
            var live := Pruned(recent, now, window);
            && live != [] && live[|live| - 1] == e
            && e in Remembered(recent, h, at)
            && e in Remembered(live, h, at)
  {
    var e := recent[|recent| - 1];
    PruneKeepsLiveSuffix(recent, now, window);
    var live := Pruned(recent, now, window);
    var r := Remembered(recent, h, at);
    if h != "" {
      assert r[..|r| - 1][|r| - 2] == e;
      var r' := Remembered(live, h, at);
      assert r'[..|r'| - 1][|r'| - 2] == e;
    }
  }

  /** Whatever a tick does, the newest entry of the window is still there afterwards while it has not expired. */
  lemma NewestEntrySurvivesTick(s: MonitorState, arm: Arm, obs: Observation, window: real)
    requires ValidState(s) && s.recent != []
    requires !Expired(s.recent[|s.recent| - 1], obs.now, window)
    ensures s.recent[|s.recent| - 1] in TickStep(s, arm, obs, window).state.recent
  {
    TickWindowShapes(s, arm, obs, window);
    NewestEntrySurvives(s.recent, obs.now, window, HashContent(Observed(obs).content), obs.now);
  }

  /** A tick that emits leaves the emitted fingerprint, stamped with the tick's time, as the newest entry. */
  lemma EmissionIsNewestEntry(s: MonitorState, arm: Arm, obs: Observation, window: real)
    requires ValidState(s) && TickStep(s, arm, obs, window).event.Some?
    ensures var recent := TickStep(s, arm, obs, window).state.recent;
            recent != [] && recent[|recent| - 1] == Entry(HashContent(Observed(obs).content), obs.now)
  {
  }

  /** Entry `e` is in the window, with at most `k` entries after it. */
  predicate KeptWithin(recent: seq<Entry>, e: Entry, k: nat) {
    exists j :: 0 <= j < |recent| && recent[j] == e && |recent| - 1 - j <= k
  }

  /** Allowing more entries after `e` keeps it kept. */
  lemma KeptLoosens(recent: seq<Entry>, e: Entry, k: nat, k': nat)
    requires KeptWithin(recent, e, k) && k <= k'
    ensures KeptWithin(recent, e, k')
  {
    var j :| 0 <= j < |recent| && recent[j] == e && |recent| - 1 - j <= k;
    assert recent[j] == e && |recent| - 1 - j <= k';
  }

  /** Pruning keeps a live entry, with no more entries after it than before. */
  lemma KeptPruned(recent: seq<Entry>, e: Entry, k: nat, now: real, window: real)
    requires KeptWithin(recent, e, k) && !Expired(e, now, window)
    ensures KeptWithin(Pruned(recent, now, window), e, k)
  {
    var j :| 0 <= j < |recent| && recent[j] == e && |recent| - 1 - j <= k;
    PruneKeepsLiveSuffix(recent, now, window);
    var live := Pruned(recent, now, window);
    var d := |recent| - |live|;
    assert j >= d;
    assert live[j - d] == recent[j];
  }

  /**
   * Remembering one more fingerprint keeps an entry that has fewer than 15
   * entries after it: the 16-entry window only drops its oldest entry.
   */
  lemma KeptRemembered(recent: seq<Entry>, e: Entry, k: nat, h: string, now: real)
    requires |recent| <= RecentCapacity && KeptWithin(recent, e, k) && k < RecentCapacity - 1
    ensures KeptWithin(Remembered(recent, h, now), e, k + 1)
  {
    var j :| 0 <= j < |recent| && recent[j] == e && |recent| - 1 - j <= k;
    var r := Remembered(recent, h, now);
    if h == "" {
      KeptLoosens(recent, e, k, k + 1);
    } else {
      var d := |recent| + 1 - |r|;
      assert j >= d;
      assert r[j - d] == r[..|r| - 1][j - d] == recent[j];
    }
  }

  /** A tick at a time when `e` is live keeps it, with at most one more entry after it. */
  lemma KeptTick(s: MonitorState, arm: Arm, obs: Observation, window: real, e: Entry, k: nat)
    requires ValidState(s) && KeptWithin(s.recent, e, k) && k < RecentCapacity - 1
    requires !Expired(e, obs.now, window)
    ensures KeptWithin(TickStep(s, arm, obs, window).state.recent, e, k + 1)
  {
    TickWindowShapes(s, arm, obs, window);
    var h := HashContent(Observed(obs).content);
    var live := Pruned(s.recent, obs.now, window);
    PruneKeepsLiveSuffix(s.recent, obs.now, window);
    KeptLoosens(s.recent, e, k, k + 1);
    KeptPruned(s.recent, e, k, obs.now, window);
    KeptLoosens(live, e, k, k + 1);
    KeptRemembered(s.recent, e, k, h, obs.now);
    KeptRemembered(live, e, k, h, obs.now);
  }

  /**
   * Operations at times when `e` is live keep it in the window, with one more
   * entry after it per operation at most, as long as fewer than 16 end up after it.
   */
  lemma {:induction false} KeptReplay(s: MonitorState, arm: Arm, ops: seq<Op>, window: real, e: Entry, k: nat)
    requires ValidState(s) && KeptWithin(s.recent, e, k) && k + |ops| < RecentCapacity
    requires forall i :: 0 <= i < |ops| && ops[i].Poll? ==> !Expired(e, ops[i].obs.now, window)
    ensures KeptWithin(Replay(s, arm, ops, window).state.recent, e, k + |ops|)
    decreases |ops|
  {
    if ops != [] {
      var prefix := ops[..|ops| - 1];
      assert forall i :: 0 <= i < |prefix| ==> prefix[i] == ops[i];
      KeptReplay(s, arm, prefix, window, e, k);
      var r := Replay(s, arm, prefix, window);
      var op := ops[|ops| - 1];
      assert Replay(s, arm, ops, window) == Apply(r, op, window);
      if op.Poll? {
        KeptTick(r.state, r.arm, op.obs, window, e, k + |prefix|);
      } else {
        KeptLoosens(r.state.recent, e, k + |prefix|, k + |ops|);
      }
    }
  }

  /** Content whose fingerprint is still live in the window is not emitted. */
  lemma KeptEntryIsNotEmitted(s: MonitorState, arm: Arm, e: Entry, k: nat, back: Observation, window: real)
    requires ValidState(s) && KeptWithin(s.recent, e, k)
    requires e.hash == HashContent(Observed(back).content) && !Expired(e, back.now, window)
    ensures TickStep(s, arm, back, window).event.None?
  {
    var i :| 0 <= i < |s.recent| && s.recent[i] == e && |s.recent| - 1 - i <= k;
    LiveEntryIsRecent(s.recent, i, back.now, window);
    EmitsExactlyWhenNew(s, arm, back, window);
  }

  /** A tick that emits leaves a valid state whose newest entry is the emitted fingerprint. */
  lemma EmissionIsKept(s: MonitorState, arm: Arm, obs: Observation, window: real)
    requires ValidState(s) && TickStep(s, arm, obs, window).event.Some?
    ensures var r := TickStep(s, arm, obs, window);
            ValidState(r.state) && KeptWithin(r.state.recent, Entry(HashContent(Observed(obs).content), obs.now), 0)
  {
    var recent := TickStep(s, arm, obs, window).state.recent;
    TickKeepsValid(s, arm, obs, window);
    EmissionIsNewestEntry(s, arm, obs, window);
    assert recent[|recent| - 1] == Entry(HashContent(Observed(obs).content), obs.now);
  }

  /**
   * An entry that is the newest in the window is still there, and still live,
   * after at most 15 operations no later than `back`, so content with its
   * fingerprint is not emitted at `back`.
   */
  lemma NewestEntryOutlastsReplay(s: MonitorState, arm: Arm, e: Entry, between: seq<Op>,
                                  back: Observation, window: real)
    requires ValidState(s) && KeptWithin(s.recent, e, 0)
    requires e.hash == HashContent(Observed(back).content) && back.now - e.at <= window
    requires |between| < RecentCapacity
    requires forall i :: 0 <= i < |between| && between[i].Poll? ==> between[i].obs.now <= back.now
    ensures var r := Replay(s, arm, between, window);
            TickStep(r.state, r.arm, back, window).event.None?
  {
    KeptReplay(s, arm, between, window, e, 0);
    var r := Replay(s, arm, between, window);
    KeptEntryIsNotEmitted(r.state, r.arm, e, |between|, back, window);
  }

  /**
   * Deduplication by the window, independent of the suppressor: content that
   * was emitted and shows up again within the window is not emitted again,
   * whatever the at most 15 operations in between saw or armed. Each of them
   * can add one entry to the 16-entry window, so the emitted entry is still
   * there when the content comes back.
   */
  lemma ReturnWithinWindowIsNotEmitted(s: MonitorState, arm: Arm, first: Observation, between: seq<Op>,
                                       back: Observation, window: real)
    requires ValidState(s)
    requires TickStep(s, arm, first, window).event.Some?
    requires Observed(back) == Observed(first)
    requires |between| < RecentCapacity
    requires forall i :: 0 <= i < |between| && between[i].Poll? ==> between[i].obs.now <= back.now
    requires back.now - first.now <= window
    ensures ValidState(TickStep(s, arm, first, window).state)
    ensures var r1 := TickStep(s, arm, first, window);
            var r := Replay(r1.state, r1.arm, between, window);
            TickStep(r.state, r.arm, back, window).event.None?
  {
    var r1 := TickStep(s, arm, first, window);
    var e := Entry(HashContent(Observed(first).content), first.now);
    EmissionIsKept(s, arm, first, window);
    NewestEntryOutlastsReplay(r1.state, r1.arm, e, between, back, window);
  }

  /** The fingerprints in the window all belong to `hs`. */
  predicate HashesAmong(recent: seq<Entry>, hs: set<string>) {
    forall i :: 0 <= i < |recent| ==> recent[i].hash in hs
  }

  /** A fingerprint that is not in the window is not found there after pruning either. */
  lemma AbsentStaysAbsent(recent: seq<Entry>, hs: set<string>, h: string, now: real, window: real)
    requires HashesAmong(recent, hs) && h !in hs
    ensures !Holds(Pruned(recent, now, window), h)
  {
    var live := Pruned(recent, now, window);
    PruneKeepsLiveSuffix(recent, now, window);
    forall i | 0 <= i < |live| ensures live[i].hash != h {
      assert live[i] == recent[|recent| - |live| + i];
    }
  }

  /** Pruning keeps only fingerprints that were there. */
  lemma PrunedHashes(recent: seq<Entry>, hs: set<string>, now: real, window: real)
    requires HashesAmong(recent, hs)
    ensures HashesAmong(Pruned(recent, now, window), hs)
  {
    var live := Pruned(recent, now, window);
    PruneKeepsLiveSuffix(recent, now, window);
    forall i | 0 <= i < |live| ensures live[i].hash in hs {
      assert live[i] == recent[|recent| - |live| + i];
    }
  }

  /** Remembering `h` adds only `h`. */
  lemma RememberedHashes(recent: seq<Entry>, hs: set<string>, h: string, now: real)
    requires |recent| <= RecentCapacity && HashesAmong(recent, hs)
    ensures HashesAmong(Remembered(recent, h, now), hs + {h})
  {
    var r := Remembered(recent, h, now);
    forall i | 0 <= i < |r| ensures r[i].hash in hs + {h} {
      if h != "" && i < |r| - 1 {
        assert r[i] == r[..|r| - 1][i];
      }
    }
  }

  /** After a tick, the window holds only fingerprints it held before and the one just seen. */
  lemma TickWindowHashes(s: MonitorState, arm: Arm, obs: Observation, window: real, hs: set<string>)
    requires ValidState(s) && HashesAmong(s.recent, hs)
    ensures HashesAmong(TickStep(s, arm, obs, window).state.recent, hs + {HashContent(Observed(obs).content)})
  {
    var h := HashContent(Observed(obs).content);
    var live := Pruned(s.recent, obs.now, window);
    PrunedHashes(s.recent, hs, obs.now, window);
    RememberedHashes(s.recent, hs, h, obs.now);
    RememberedHashes(live, hs, h, obs.now);
    TickWindowShapes(s, arm, obs, window);
  }

  /** The snapshot of a plain text copy. */
  function TextCopy(text: string, fs: FileSystem, now: real): (obs: Observation)
    ensures !obs.propertyFault
  {
    Observation(Some(MimeData([], None, Some(text))), fs, now, false)
  }

  /** The change event for text that is already stripped. */
  function TextEvent(text: string): ChangeEvent {
    ChangeEvent(text, "text", NoMetadata.(isUrl := UrlCheck.IsUrl(text)))
  }

  /** Non-blank stripped text is observed as itself. */
  lemma TextCopyIsObserved(text: string, fs: FileSystem, now: real)
    requires text != "" && Text.Strip(text) == text
    ensures var c := Observed(TextCopy(text, fs, now));
            ChangeEvent(c.content, c.contentType, c.metadata) == TextEvent(text)
  {
    TextIsStripped(MimeData([], None, Some(text)), fs);
  }

  /** A tick that sees new text while nothing is armed reports it. */
  lemma NewTextIsReported(r: Replayed, text: string, obs: Observation, window: real, hs: set<string>)
    requires ValidState(r.state) && HashesAmong(r.state.recent, hs) && !r.arm.skipOnce && !obs.propertyFault
    requires Observed(obs).content == text && text != ""
    requires HashContent(text) !in hs && HashContent(text) != r.state.lastContentHash
    ensures var r' := Apply(r, Poll(obs), window);
            var c := Observed(obs);
            && r'.events == r.events + [ChangeEvent(c.content, c.contentType, c.metadata)]
            && r'.state.lastContentHash == HashContent(text) && r'.arm == r.arm
            && HashesAmong(r'.state.recent, hs + {HashContent(text)})
  {
    AbsentStaysAbsent(r.state.recent, hs, HashContent(text), obs.now, window);
    EmitsExactlyWhenNew(r.state, r.arm, obs, window);
    TickWindowHashes(r.state, r.arm, obs, window, hs);
  }

  /** A tick that sees the last content again while nothing is armed reports nothing and changes no fingerprint. */
  lemma SameTextIsNotReported(r: Replayed, obs: Observation, window: real, hs: set<string>)
    requires ValidState(r.state) && HashesAmong(r.state.recent, hs) && !r.arm.skipOnce && !obs.propertyFault
    requires Observed(obs).content != "" && HashContent(Observed(obs).content) == r.state.lastContentHash
    requires r.state.lastContentHash in hs
    ensures var r' := Apply(r, Poll(obs), window);
            && r'.events == r.events && r'.state.lastContentHash == r.state.lastContentHash && r'.arm == r.arm
            && HashesAmong(r'.state.recent, hs)
  {
    EmitsExactlyWhenNew(r.state, r.arm, obs, window);
    TickSetsLastToSeen(r.state, r.arm, obs, window);
    TickWindowHashes(r.state, r.arm, obs, window, hs);
    assert hs + {r.state.lastContentHash} == hs;
  }

  /** A tick that sees the content the arm was set for reports nothing, takes it as the last content and disarms. */
  lemma EchoIsNotReported(r: Replayed, obs: Observation, window: real, hs: set<string>)
    requires ValidState(r.state) && HashesAmong(r.state.recent, hs) && !obs.propertyFault
    requires Observed(obs).content != "" && r.arm == Armed(HashContent(Observed(obs).content))
    ensures var r' := Apply(r, Poll(obs), window);
            var h := HashContent(Observed(obs).content);
            && r'.events == r.events && r'.state.lastContentHash == h && r'.arm == Disarmed
            && HashesAmong(r'.state.recent, hs + {h})
  {
    TickWindowHashes(r.state, r.arm, obs, window, hs);
  }

  /** Replaying one operation applies it to the starting point. */
  lemma ReplayOne(s: MonitorState, arm: Arm, p1: Op, window: real)
    requires ValidState(s)
    ensures Replay(s, arm, [p1], window) == Apply(Replayed(s, arm, []), p1, window)
  {
    ReplaySnoc(s, arm, [], p1, window);
    assert [] + [p1] == [p1];
  }

  /** Replaying two operations applies the second to the replay of the first. */
  lemma ReplayTwo(s: MonitorState, arm: Arm, p1: Op, p2: Op, window: real)
    requires ValidState(s)
    ensures Replay(s, arm, [p1, p2], window) == Apply(Replay(s, arm, [p1], window), p2, window)
  {
    ReplaySnoc(s, arm, [p1], p2, window);
    assert [p1] + [p2] == [p1, p2];
  }

  /** Replaying three operations applies the third to the replay of the first two. */
  lemma ReplayThree(s: MonitorState, arm: Arm, p1: Op, p2: Op, p3: Op, window: real)
    requires ValidState(s)
    ensures Replay(s, arm, [p1, p2, p3], window) == Apply(Replay(s, arm, [p1, p2], window), p3, window)
  {
    ReplaySnoc(s, arm, [p1, p2], p3, window);
    assert [p1, p2] + [p3] == [p1, p2, p3];
  }

  lemma Unions(x: string, y: string)
    ensures {} + {x} == {x} && {x} + {y} == {x, y}
  {
  }

  /** Replaying six operations is replaying the first three, then applying the other three in turn. */
  lemma ReplaySix(s: MonitorState, arm: Arm, p1: Op, p2: Op, p3: Op, p4: Op, p5: Op, p6: Op, window: real)
    requires ValidState(s)
    ensures Replay(s, arm, [p1, p2, p3, p4, p5, p6], window)
            == Apply(Apply(Apply(Replay(s, arm, [p1, p2, p3], window), p4, window), p5, window), p6, window)
  {
    var ops3 := [p1, p2, p3];
    var ops4 := ops3 + [p4];
    var ops5 := ops4 + [p5];
    ReplaySnoc(s, arm, ops3, p4, window);
    ReplaySnoc(s, arm, ops4, p5, window);
    ReplaySnoc(s, arm, ops5, p6, window);
    SnocThree(ops3, p1, p2, p3, p4, p5, p6);
  }

  lemma SnocThree<T>(s: seq<T>, x1: T, x2: T, x3: T, x4: T, x5: T, x6: T)
    requires s == [x1, x2, x3]
    ensures s + [x4] + [x5] + [x6] == [x1, x2, x3, x4, x5, x6]
  {
  }

  lemma AppendToSingleton<T>(s: seq<T>, x: T, y: T)
    requires s == [x]
    ensures s + [y] == [x, y]
  {
  }

  /** Tick 1 of `Session`: `a` copied and reported. */
  lemma SessionFirstCopy(a: string, fs: FileSystem, t1: real, window: real)
    requires a != "" && Text.Strip(a) == a
    ensures var r := Replay(MonitorState("", []), Arm(false, None), [Poll(TextCopy(a, fs, t1))], window);
            && r.events == [TextEvent(a)] && r.state.lastContentHash == HashContent(a) && r.arm == Arm(false, None)
            && HashesAmong(r.state.recent, {HashContent(a)})
  {
    var s0, a0 := MonitorState("", []), Arm(false, None);
    var o1 := TextCopy(a, fs, t1);
    ReplayOne(s0, a0, Poll(o1), window);
    TextCopyIsObserved(a, fs, t1);
    NewTextIsReported(Replayed(s0, a0, []), a, o1, window, {});
    Unions(HashContent(a), HashContent(a));
  }

  /** Ticks 1 and 2 of `Session`: `a` copied and reported, then seen again and not reported. */
  lemma SessionRepeat(a: string, fs: FileSystem, t1: real, t2: real, window: real)
    requires a != "" && Text.Strip(a) == a
    ensures var r := Replay(MonitorState("", []), Arm(false, None),
                            [Poll(TextCopy(a, fs, t1)), Poll(TextCopy(a, fs, t2))], window);
            && r.events == [TextEvent(a)] && r.state.lastContentHash == HashContent(a) && r.arm == Arm(false, None)
            && HashesAmong(r.state.recent, {HashContent(a)})
  {
    var s0, a0 := MonitorState("", []), Arm(false, None);
    var o1, o2 := TextCopy(a, fs, t1), TextCopy(a, fs, t2);
    SessionFirstCopy(a, fs, t1, window);
    TextCopyIsObserved(a, fs, t2);
    ReplayTwo(s0, a0, Poll(o1), Poll(o2), window);
    SameTextIsNotReported(Replay(s0, a0, [Poll(o1)], window), o2, window, {HashContent(a)});
  }

  /** The first half of `Session`: `a` copied and reported, seen again, then the arm for `b`. */
  lemma SessionOpening(a: string, hb: string, fs: FileSystem, t1: real, t2: real, window: real)
    requires a != "" && Text.Strip(a) == a
    ensures var r := Replay(MonitorState("", []), Arm(false, None),
                            [Poll(TextCopy(a, fs, t1)), Poll(TextCopy(a, fs, t2)), ArmCopy(hb)], window);
            && r.events == [TextEvent(a)] && r.state.lastContentHash == HashContent(a) && r.arm == Armed(hb)
            && HashesAmong(r.state.recent, {HashContent(a)})
  {
    var s0, a0 := MonitorState("", []), Arm(false, None);
    var o1, o2 := TextCopy(a, fs, t1), TextCopy(a, fs, t2);
    SessionRepeat(a, fs, t1, t2, window);
    ReplayThree(s0, a0, Poll(o1), Poll(o2), ArmCopy(hb), window);
  }

  /** Ticks 4 and 5 of `Session`: the echo of `b`, then an external copy of `b`. */
  lemma SessionEcho(r: Replayed, ha: string, b: string, fs: FileSystem, t4: real, t5: real, window: real)
    requires ValidState(r.state) && HashesAmong(r.state.recent, {ha}) && r.arm == Armed(HashContent(b))
    requires b != "" && Text.Strip(b) == b
    ensures var r' := Apply(Apply(r, Poll(TextCopy(b, fs, t4)), window), Poll(TextCopy(b, fs, t5)), window);
            && r'.events == r.events && r'.state.lastContentHash == HashContent(b) && r'.arm == Disarmed
            && HashesAmong(r'.state.recent, {ha, HashContent(b)})
  {
    var hb := HashContent(b);
    var o4, o5 := TextCopy(b, fs, t4), TextCopy(b, fs, t5);
    TextCopyIsObserved(b, fs, t4);
    TextCopyIsObserved(b, fs, t5);
    EchoIsNotReported(r, o4, window, {ha});
    Unions(ha, hb);
    SameTextIsNotReported(Apply(r, Poll(o4), window), o5, window, {ha, hb});
  }

  /**
   * The second half of `Session`: the echo of `b`, an external copy of `b`, then
   * `c`, from any state armed for `b` whose window holds only `a`.
   */
  lemma SessionClosing(r: Replayed, a: string, b: string, c: string, fs: FileSystem, t4: real, t5: real, t6: real,
                       window: real)
    requires ValidState(r.state) && HashesAmong(r.state.recent, {HashContent(a)}) && r.arm == Armed(HashContent(b))
    requires b != "" && c != "" && Text.Strip(b) == b && Text.Strip(c) == c && b != c && a != c
    ensures var r' := Apply(Apply(Apply(r, Poll(TextCopy(b, fs, t4)), window), Poll(TextCopy(b, fs, t5)), window),
                            Poll(TextCopy(c, fs, t6)), window);
            r'.events == r.events + [TextEvent(c)] && r'.state.lastContentHash == HashContent(c)
  {
    var ha, hb := HashContent(a), HashContent(b);
    HashIdentifiesContent(a, c);
    HashIdentifiesContent(b, c);
    SessionEcho(r, ha, b, fs, t4, t5, window);
    var r5 := Apply(Apply(r, Poll(TextCopy(b, fs, t4)), window), Poll(TextCopy(b, fs, t5)), window);
    var o6 := TextCopy(c, fs, t6);
    TextCopyIsObserved(c, fs, t6);
    NewTextIsReported(r5, c, o6, window, {ha, hb});
  }

  /**
   * A typical session. Text `a` is copied and reported; the unchanged clipboard
   * is not reported again; the widget arms for `b` and writes it, and the echo is
   * not reported; an external copy of the same `b` is not reported either; text
   * `c` is copied and reported. Exactly two events, for `a` and for `c`.
   */
  lemma Session(a: string, b: string, c: string, fs: FileSystem, t1: real, t2: real, t4: real, t5: real, t6: real,
                window: real)
    requires a != "" && b != "" && c != ""
    requires Text.Strip(a) == a && Text.Strip(b) == b && Text.Strip(c) == c
    requires a != b && b != c && a != c
    ensures var ops := [Poll(TextCopy(a, fs, t1)), Poll(TextCopy(a, fs, t2)), ArmCopy(HashContent(b)),
                        Poll(TextCopy(b, fs, t4)), Poll(TextCopy(b, fs, t5)), Poll(TextCopy(c, fs, t6))];
            var r := Replay(MonitorState("", []), Arm(false, None), ops, window);
            r.events == [TextEvent(a), TextEvent(c)] && r.state.lastContentHash == HashContent(c)
  {
    var s0, a0 := MonitorState("", []), Arm(false, None);
    var p1, p2, p3 := Poll(TextCopy(a, fs, t1)), Poll(TextCopy(a, fs, t2)), ArmCopy(HashContent(b));
    var p4, p5, p6 := Poll(TextCopy(b, fs, t4)), Poll(TextCopy(b, fs, t5)), Poll(TextCopy(c, fs, t6));
    var r3 := Replay(s0, a0, [p1, p2, p3], window);
    SessionOpening(a, HashContent(b), fs, t1, t2, window);
    SessionClosing(r3, a, b, c, fs, t4, t5, t6, window);
    ReplaySix(s0, a0, p1, p2, p3, p4, p5, p6, window);
    AppendToSingleton(r3.events, TextEvent(a), TextEvent(c));
  }
}
