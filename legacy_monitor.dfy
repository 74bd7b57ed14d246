/**
 * The older `ClipboardMonitor` inside `clipboard_history_app.py`: it polls the
 * clipboard text and reports it whenever it is non-empty and differs from the
 * text it reported last. There is no hash, no recent window and no self-copy
 * suppression.
 */
module LegacyMonitor {
  import opened Wrappers

  /**
   * One poll: the clipboard text, or `None` when `clipboard.text()` raises (the
   * loop then only sleeps).
   */
  type Poll = Option<string>

  datatype Step = Step(lastContent: string, event: Option<string>)

  /** The change test of one pass of the legacy `run` loop. */
  function LegacyStep(lastContent: string, poll: Poll): (s: Step)
    ensures s.event.Some? <==> poll.Some? && poll.value != "" && poll.value != lastContent
    ensures s.event.Some? ==> s.event.value == poll.value && s.lastContent == poll.value
    ensures s.event.None? ==> s.lastContent == lastContent
  {
    match poll
    case Some(current) =>
      if current != "" && current != lastContent then Step(current, Some(current)) else Step(lastContent, None)
    case None => Step(lastContent, None)
  }

  datatype Trace = Trace(lastContent: string, events: seq<string>)

  /** The state and the signals after a sequence of polls. */
  function LegacyRun(lastContent: string, polls: seq<Poll>): (t: Trace)
    ensures |t.events| <= |polls|
  {
    if polls == [] then Trace(lastContent, [])
    else
      var before := LegacyRun(lastContent, polls[..|polls| - 1]);
      var s := LegacyStep(before.lastContent, polls[|polls| - 1]);
      Trace(s.lastContent, before.events + if s.event.Some? then [s.event.value] else [])
  }

  /**
   * Every reported text is non-empty, differs from the one reported before it
   * (or from the starting text), and the last one reported is the remembered text.
   */
  lemma {:induction false} ReportsAreChanges(lastContent: string, polls: seq<Poll>)
    ensures var t := LegacyRun(lastContent, polls);
            && (forall i :: 0 <= i < |t.events| ==> t.events[i] != "")
            && (forall i :: 0 < i < |t.events| ==> t.events[i] != t.events[i - 1])
            && (|t.events| > 0 ==> t.events[0] != lastContent && t.lastContent == t.events[|t.events| - 1])
            && (|t.events| == 0 ==> t.lastContent == lastContent)
  {
    if polls != [] {
      var prefix := polls[..|polls| - 1];
      ReportsAreChanges(lastContent, prefix);
      var before := LegacyRun(lastContent, prefix);
      var step := LegacyStep(before.lastContent, polls[|polls| - 1]);
      if step.event.Some? {
        var events := before.events + [step.event.value];
        assert LegacyRun(lastContent, polls) == Trace(step.lastContent, events);
        assert forall i :: 0 <= i < |before.events| ==> events[i] == before.events[i];
        assert events[|events| - 1] != before.lastContent;
      } else {
        assert LegacyRun(lastContent, polls) == Trace(before.lastContent, before.events);
      }
    }
  }

  /**
   * Polling the same text `n` times reports it exactly once when it is
   * non-empty and new, and never otherwise.
   */
  lemma {:induction false} RepeatReportsOnce(lastContent: string, text: string, n: nat)
    ensures var t := LegacyRun(lastContent, seq(n, _ => Some(text)));
            && (text != "" && text != lastContent && n > 0 ==> t.events == [text])
            && (text == "" || text == lastContent || n == 0 ==> t.events == [])
  {
    if n > 0 {
      var polls := seq(n, _ => Some(text));
      assert polls[..n - 1] == seq(n - 1, _ => Some(text));
      RepeatReportsOnce(lastContent, text, n - 1);
      if n > 1 {
        ReportsAreChanges(lastContent, polls[..n - 1]);
      }
    }
  }

  /** `ClipboardMonitor` of `clipboard_history_app.py`. */
  class ClipboardMonitor {
    var lastContent: string

    constructor ()
      ensures lastContent == ""
    {
      lastContent := "";
    }

    /** One pass of the `run` loop: emits the text when it is non-empty and new. */
    method Tick(poll: Poll) returns (event: Option<string>)
      modifies this
      ensures Step(lastContent, event) == LegacyStep(old(lastContent), poll)
    {
      event := None;
      if poll.Some? {
        var current := poll.value;
        if current != "" && current != lastContent {
          event := Some(current);
          lastContent := current;
        }
      }
    }

    /** The `run` loop over a finite sequence of polls, collecting the signals. */
    method Run(polls: seq<Poll>) returns (events: seq<string>)
      modifies this
      ensures Trace(lastContent, events) == LegacyRun(old(lastContent), polls)
    {
      ghost var start := lastContent;
      events := [];
      var i := 0;
      while i < |polls|
        invariant 0 <= i <= |polls|
        invariant Trace(lastContent, events) == LegacyRun(start, polls[..i])
      {
        assert polls[..i + 1][..i] == polls[..i];
        var event := Tick(polls[i]);
        if event.Some? {
          events := events + [event.value];
        }
        i := i + 1;
      }
      assert polls[..i] == polls;
    }
  }
}
