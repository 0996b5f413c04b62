/**
  The main loop as a whole: a run of the tracker over a sequence of readings,
  and the properties that relate several iterations.
 */
module BarkTrace {
  import opened Wrappers
  import opened BarkSessions
  import opened Time

  /** One pass of the loop's input: the loudness measured and the clock reading. */
  datatype Reading = Reading(loudness: real, at: int)

  /** The state after a run and what each iteration did, in order. */
  datatype Trace = Trace(final: State, steps: seq<Transition>)

  predicate AllPlausible(rs: seq<Reading>)
  {
    forall k :: 0 <= k < |rs| ==> Plausible(rs[k].at)
  }

  /** The clock never runs backwards across the readings. */
  predicate Ordered(rs: seq<Reading>)
  {
    forall i, j :: 0 <= i < j < |rs| ==> rs[i].at <= rs[j].at
  }

  /** No step from index `k` on is a reward (a session close). */
  predicate NoRewardFrom(steps: seq<Transition>, k: nat)
  {
    forall j :: k <= j < |steps| ==> steps[j].action != Reward
  }

  /**
    A warning mail has gone out since the last close: either in the run itself,
    or before it (`sent`) with no close during the run.
   */
  predicate WarnedSinceReward(sent: bool, steps: seq<Transition>)
  {
    || (exists i :: 0 <= i < |steps| && Warning(steps[i]) && NoRewardFrom(steps, i + 1))
    || (sent && NoRewardFrom(steps, 0))
  }

  /** The `while True` loop fed with `rs`, one reading per iteration; every state it passes through is valid. */
  function Run(s: State, rs: seq<Reading>): (tr: Trace)
    requires Valid(s) && AllPlausible(rs)
    ensures Valid(tr.final)
    ensures |tr.steps| == |rs|
    decreases |rs|
  {
    if rs == [] then Trace(s, [])
    else
      var prev := Run(s, rs[..|rs| - 1]);
      var r := rs[|rs| - 1];
      var t := Next(prev.final, r.loudness, r.at);
      Trace(t.next, prev.steps + [t])
  }

  /** Over readings whose clock never runs backwards, the recorded state stays in time order. */
  lemma {:induction false} RunKeepsChronology(s: State, rs: seq<Reading>)
    requires Valid(s) && AllPlausible(rs) && Chronological(s)
    requires Ordered(rs) && (rs != [] ==> s.lastBark <= rs[0].at)
    ensures Chronological(Run(s, rs).final)
    ensures rs != [] ==> Run(s, rs).final.lastBark <= rs[|rs| - 1].at
    decreases |rs|
  {
    if rs != [] {
      var init := rs[..|rs| - 1];
      var r := rs[|rs| - 1];
      RunKeepsChronology(s, init);
      var prev := Run(s, init);
      if init != [] {
        assert prev.final.lastBark <= init[|init| - 1].at == rs[|rs| - 2].at <= r.at;
      }
      StepKeepsChronology(prev.final, r.loudness, r.at);
    }
  }

  /** `last_email` is the time of the most recent warning mail of the run. */
  lemma {:induction false} LastMailTime(s: State, rs: seq<Reading>, i: int)
    requires Valid(s) && AllPlausible(rs)
    requires 0 <= i < |rs| && Warning(Run(s, rs).steps[i])
    requires forall j :: i < j < |rs| ==> !Warning(Run(s, rs).steps[j])
    ensures Run(s, rs).final.lastEmail == rs[i].at
    decreases |rs|
  {
    var init := rs[..|rs| - 1];
    var prev := Run(s, init);
    if i < |rs| - 1 {
      forall j | i < j < |init|
        ensures !Warning(prev.steps[j])
      {
        assert prev.steps[j] == Run(s, rs).steps[j];
      }
      assert prev.steps[i] == Run(s, rs).steps[i];
      LastMailTime(s, init, i);
      var r := rs[|rs| - 1];
      var t := Next(prev.final, r.loudness, r.at);
      assert Run(s, rs).steps[|rs| - 1] == t;
      assert init[i] == rs[i];
    }
  }

  /**
    `session_email_sent` holds after a run exactly when a warning mail was
    sent since the last close.
   */
  lemma {:induction false} MailFlag(s: State, rs: seq<Reading>)
    requires Valid(s) && AllPlausible(rs)
    ensures Run(s, rs).final.sessionEmailSent <==> WarnedSinceReward(s.sessionEmailSent, Run(s, rs).steps)
    decreases |rs|
  {
    if rs != [] {
      var init := rs[..|rs| - 1];
      var r := rs[|rs| - 1];
      MailFlag(s, init);
      var prev := Run(s, init);
      var t := Next(prev.final, r.loudness, r.at);
      var steps := prev.steps + [t];
      var n := |prev.steps|;
      assert Run(s, rs).steps == steps;
      assert steps[n] == t;
      if t.action == Reward {
        assert !NoRewardFrom(steps, 0);
        forall i | 0 <= i < |steps| && Warning(steps[i])
          ensures !NoRewardFrom(steps, i + 1)
        {
          assert i < n;
        }
      } else if Warning(t) {
        assert NoRewardFrom(steps, n + 1);
      } else {
        forall k: nat | k <= n
          ensures NoRewardFrom(steps, k) <==> NoRewardFrom(prev.steps, k)
        {
          if NoRewardFrom(prev.steps, k) {
            forall j | k <= j < |steps|
              ensures steps[j].action != Reward
            {
              if j < n { assert steps[j] == prev.steps[j]; }
            }
          }
          if NoRewardFrom(steps, k) {
            forall j | k <= j < n
              ensures prev.steps[j].action != Reward
            {
              assert steps[j] == prev.steps[j];
            }
          }
        }
        if WarnedSinceReward(s.sessionEmailSent, prev.steps) {
          if i :| 0 <= i < n && Warning(prev.steps[i]) && NoRewardFrom(prev.steps, i + 1) {
            assert Warning(steps[i]) && NoRewardFrom(steps, i + 1);
          }
        }
        if i :| 0 <= i < |steps| && Warning(steps[i]) && NoRewardFrom(steps, i + 1) {
          assert i < n && steps[i] == prev.steps[i];
          assert Warning(prev.steps[i]) && NoRewardFrom(prev.steps, i + 1);
        }
      }
    }
  }

  /**
    Lifted-notification pairing: the reading after a run sends "Bark alert
    lifted" exactly when it closes the session and a warning mail went out
    since the previous close.
   */
  lemma LiftedIffWarned(s: State, rs: seq<Reading>, r: Reading)
    requires Valid(s) && AllPlausible(rs) && Plausible(r.at)
    ensures var tr := Run(s, rs);
            var t := Next(tr.final, r.loudness, r.at);
            t.notice == Some(Lifted) <==> t.action == Reward && WarnedSinceReward(s.sessionEmailSent, tr.steps)
  {
    MailFlag(s, rs);
  }

  /**
    Mail throttling across iterations: once a warning mail has gone out, the
    next one before a close is a repeat, sent more than `MailDelay` later.
   */
  lemma MailSpacing(s: State, rs: seq<Reading>, i: int, r: Reading)
    requires Valid(s) && AllPlausible(rs) && Plausible(r.at)
    requires 0 <= i < |rs| && Warning(Run(s, rs).steps[i])
    requires forall j :: i < j < |rs| ==> !Warning(Run(s, rs).steps[j]) && Run(s, rs).steps[j].action != Reward
    requires Warning(Next(Run(s, rs).final, r.loudness, r.at))
    ensures Next(Run(s, rs).final, r.loudness, r.at).notice == Some(RepeatWarning)
    ensures r.at - rs[i].at > MailDelay
  {
    LastMailTime(s, rs, i);
    MailFlag(s, rs);
    assert NoRewardFrom(Run(s, rs).steps, i + 1);
  }

  /** Quiet readings on the initial state change nothing and command nothing. */
  lemma {:induction false} QuietKeepsInit(rs: seq<Reading>)
    requires AllPlausible(rs)
    requires forall k :: 0 <= k < |rs| ==> Quiet(rs[k].loudness)
    ensures Run(Init(), rs).final == Init()
    ensures forall k :: 0 <= k < |rs| ==> Run(Init(), rs).steps[k].action == NoAction
    decreases |rs|
  {
    if rs != [] {
      QuietKeepsInit(rs[..|rs| - 1]);
    }
  }

  /**
    Because `last_bark` starts at `datetime.min`, the first noisy reading of a
    run opens the first session, with the short warning and no mail.
   */
  lemma FirstBarkOpensSession(rs: seq<Reading>, r: Reading)
    requires AllPlausible(rs) && Plausible(r.at)
    requires forall k :: 0 <= k < |rs| ==> Quiet(rs[k].loudness)
    requires !Quiet(r.loudness)
    ensures var t := Next(Run(Init(), rs).final, r.loudness, r.at);
            t.action == WarnShort && t.notice == None && t.next.sessions == [Session(r.at, Open)]
  {
    QuietKeepsInit(rs);
  }

  /**
    A bark within the strictness window of the previous one, but after the
    session was closed, appends nothing: it is treated as persistent and gets
    the long warning. The mail flag having been reset on close, it also sends
    a first-warning mail at once when the reused session started more than
    `MailDelay` earlier. The next close overwrites the end of the session that
    was already closed.
   */
  lemma RebarkAfterCloseReusesSession()
    ensures var s0 := Next(Init(), 0.0, 100 * Second);
            var s1 := Next(s0.next, -10.0, 120 * Second);
            var s2 := Next(s1.next, 0.0, 130 * Second);
            var s3 := Next(s2.next, -10.0, 150 * Second);
            && s0.action == WarnShort && s0.next.sessions == [Session(100 * Second, Open)]
            && s1.action == Reward && s1.next.sessions == [Session(100 * Second, ClosedAt(105 * Second))]
            && s2.action == WarnLong && s2.notice == Some(FirstWarning) && s2.next.sessions == s1.next.sessions
            && s3.action == Reward && s3.notice == Some(Lifted)
            && s3.next.sessions == [Session(100 * Second, ClosedAt(135 * Second))]
  {
    var s0 := Next(Init(), 0.0, 100 * Second);
    var s1 := Next(s0.next, -10.0, 120 * Second);
    var s2 := Next(s1.next, 0.0, 130 * Second);
    assert s2.next.sessions == [Session(100 * Second, ClosedAt(105 * Second))];
  }

  /**
    The same re-bark within `MailDelay` of the reused session's start: the long
    warning, but no mail.
   */
  lemma RebarkSoonAfterStartSendsNoMail()
    ensures var s0 := Next(Init(), 0.0, 100 * Second);
            var s1 := Next(s0.next, -10.0, 116 * Second);
            var s2 := Next(s1.next, 0.0, 117 * Second);
            && s1.action == Reward && s1.next.sessions == [Session(100 * Second, ClosedAt(101 * Second))]
            && s2.action == WarnLong && s2.notice == None && s2.next.sessions == s1.next.sessions
  {
  }

  /**
    The spacing of warning mails holds only within a session: a close resets
    the mail flag, so a re-bark right after it sends a new first warning,
    here 17 s after the previous warning.
   */
  lemma MailsAcrossCloseUnderDelay()
    ensures var s0 := Next(Init(), 0.0, 100 * Second);
            var s1 := Next(s0.next, 0.0, 110 * Second);
            var s2 := Next(s1.next, 0.0, 125 * Second);
            var s3 := Next(s2.next, -10.0, 141 * Second);
            var s4 := Next(s3.next, 0.0, 142 * Second);
            && s1.notice == None
            && s2.notice == Some(FirstWarning)
            && s3.action == Reward && s3.notice == Some(Lifted)
            && s4.notice == Some(FirstWarning) && s4.next.lastEmail == 142 * Second
            && 142 * Second - 125 * Second < MailDelay
  {
  }

  /**
    Sessions are closed only by a quiet reading: two noisy readings more than
    the strictness window apart, with no reading in between, leave two
    sessions open.
   */
  lemma SparseReadingsLeaveTwoOpen()
    ensures var s0 := Next(Init(), 0.0, 100 * Second);
            var s1 := Next(s0.next, 0.0, 200 * Second);
            s1.next.sessions == [Session(100 * Second, Open), Session(200 * Second, Open)]
  {
  }
}
