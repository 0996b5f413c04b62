/**
  The bark-session state machine: one iteration of BarkTracker's main polling
  loop, lifted out of the audio, hardware and mail calls around it.

  Times are integer microseconds counted from `datetime.min` (00:00 on
  1 January of year 1), the resolution of Python's `datetime`. Loudness is a
  real number of decibels and is only ever compared with the ambient level.
 */
module BarkSessions {
  import opened Wrappers
  import opened Time

  /** Readings at or below this loudness (dB) are quiet. */
  const AmbientDb: real := -4.0
  /** A bark more than this long after the previous one starts a new session. */
  const StricterTimer: int := 40 * Second
  /** Quiet lasting longer than this after the last bark closes the session. */
  const RewardTimer: int := 15 * Second
  /** Delay after the session start before the first warning mail, and between repeat mails. */
  const MailDelay: int := 20 * Second

  /** The end of a session: `-1` in the source while the session is open. */
  datatype End = Open | ClosedAt(time: int)

  /** One `[start, end]` entry of `bark_sessions`. */
  datatype Session = Session(start: int, end: End)

  /** The command sent to the feedback device (none on an ordinary quiet reading). */
  datatype Action = NoAction | Reward | WarnShort | WarnLong

  /** The kind of mail the loop decides to send. */
  datatype Notice = Lifted | FirstWarning | RepeatWarning

  /** The module-level globals the loop reads and writes. */
  datatype State = State(
    barkAlert: bool,
    lastBark: int,
    lastEmail: int,
    sessionEmailSent: bool,
    sessions: seq<Session>)

  /** What one reading does: the new state, the device command and the mail decided. */
  datatype Transition = Transition(next: State, action: Action, notice: Option<Notice>)

  /** The globals as the script initialises them, before the loop starts. */
  function Init(): (s: State)
    ensures Valid(s)
  {
    State(false, DateTimeMin, DateTimeMin, false, [])
  }

  /** A wall-clock reading more than `StricterTimer` after `datetime.min`: every real `datetime.now()`. */
  predicate Plausible(now: int)
  {
    now - DateTimeMin > StricterTimer
  }

  /**
    The tracker's invariant: `last_bark` keeps its initial value exactly while no
    session has been recorded, an alert implies a recorded session, and a mail is
    only ever marked as sent while alerting. It is what makes `bark_sessions[-1]`
    defined wherever the loop uses it.
   */
  predicate Valid(s: State)
  {
    && (s.sessions == [] <==> s.lastBark == DateTimeMin)
    && (s.barkAlert ==> s.sessions != [])
    && (s.sessionEmailSent ==> s.barkAlert)
  }

  function Last(sessions: seq<Session>): Session
    requires sessions != []
  {
    sessions[|sessions| - 1]
  }

  predicate Quiet(loudness: real)
  {
    loudness <= AmbientDb
  }

  /** The guard of the close branch: alerting, and quiet for longer than the reward window. */
  predicate Closes(s: State, now: int)
  {
    s.barkAlert && now - s.lastBark > RewardTimer
  }

  /** The guard of the new-incident branch: the previous bark is older than the strictness window. */
  predicate NewIncident(s: State, now: int)
  {
    now - s.lastBark > StricterTimer
  }

  predicate Warning(t: Transition)
  {
    t.notice == Some(FirstWarning) || t.notice == Some(RepeatWarning)
  }

  /**
    A quiet reading. It closes the last session, back-dating its end by the
    reward window, only when the tracker is alerting and the last bark is older
    than the reward window; otherwise nothing happens.
   */
  function OnQuiet(s: State, now: int): (t: Transition)
    requires Valid(s)
    ensures Valid(t.next)
    ensures t.next.lastBark == s.lastBark && t.next.lastEmail == s.lastEmail
    ensures |t.next.sessions| == |s.sessions|
    ensures !Closes(s, now) ==> t == Transition(s, NoAction, None)
    ensures Closes(s, now) ==>
      && t.action == Reward
      && !t.next.barkAlert
      && !t.next.sessionEmailSent
      && t.next.sessions[..|s.sessions| - 1] == s.sessions[..|s.sessions| - 1]
      && Last(t.next.sessions) == Session(Last(s.sessions).start, ClosedAt(now - RewardTimer))
    ensures t.notice == Some(Lifted) <==> Closes(s, now) && s.sessionEmailSent
    ensures t.notice == None || t.notice == Some(Lifted)
  {
    if Closes(s, now) then
      var n := |s.sessions|;
      var closed := Session(s.sessions[n - 1].start, ClosedAt(now - RewardTimer));
      var next := s.(barkAlert := false, sessionEmailSent := false, sessions := s.sessions[..n - 1] + [closed]);
      Transition(next, Reward, if s.sessionEmailSent then Some(Lifted) else None)
    else
      Transition(s, NoAction, None)
  }

  /**
    A noisy reading more than the strictness window after the previous bark: a
    new open session starting now is appended, the device gives the short
    warning, and no mail is sent whatever the session's age.
   */
  function OnNewIncident(s: State, now: int): (t: Transition)
    requires Valid(s) && Plausible(now)
    requires NewIncident(s, now)
    ensures Valid(t.next)
    ensures t.next.sessions == s.sessions + [Session(now, Open)]
    ensures t.action == WarnShort && t.notice == None
    ensures t.next.barkAlert && t.next.lastBark == now
    ensures t.next.lastEmail == s.lastEmail && t.next.sessionEmailSent == s.sessionEmailSent
  {
    var next := s.(barkAlert := true, sessions := s.sessions + [Session(now, Open)], lastBark := now);
    Transition(next, WarnShort, None)
  }

  /**
    A noisy reading within the strictness window of the previous bark: the long
    warning, and at most one mail. The first warning goes out only if none was
    sent for this session and the last session started more than `MailDelay`
    ago; a repeat only if one was sent and the last mail is more than
    `MailDelay` old. `last_email` moves only when a mail is sent.
   */
  function OnPersistent(s: State, now: int): (t: Transition)
    requires Valid(s) && Plausible(now)
    requires !NewIncident(s, now)
    ensures s.sessions != []
    ensures Valid(t.next)
    ensures t.action == WarnLong
    ensures t.next.sessions == s.sessions
    ensures t.next.barkAlert && t.next.lastBark == now
    ensures t.notice == Some(FirstWarning) <==> !s.sessionEmailSent && now - Last(s.sessions).start > MailDelay
    ensures t.notice == Some(RepeatWarning) <==> s.sessionEmailSent && now - s.lastEmail > MailDelay
    ensures t.notice != Some(Lifted)
    ensures t.notice != None ==> t.next.lastEmail == now && t.next.sessionEmailSent
    ensures t.notice == None ==> t.next.lastEmail == s.lastEmail && t.next.sessionEmailSent == s.sessionEmailSent
  {
    var alerting := s.(barkAlert := true, lastBark := now);
    var start := s.sessions[|s.sessions| - 1].start;
    if !s.sessionEmailSent && now - start > MailDelay then
      Transition(alerting.(lastEmail := now, sessionEmailSent := true), WarnLong, Some(FirstWarning))
    else if s.sessionEmailSent && now - s.lastEmail > MailDelay then
      Transition(alerting.(lastEmail := now, sessionEmailSent := true), WarnLong, Some(RepeatWarning))
    else
      Transition(alerting, WarnLong, None)
  }

  /**
    One iteration of the loop for a reading of `loudness` taken at `now`.
    A session is appended exactly when the reading is noisy and the previous
    bark is older than the strictness window; a noisy reading always leaves the
    tracker alerting with `last_bark` at the reading time; a quiet one never
    moves `last_bark` or `last_email`. Sessions other than the last never
    change, and no start time ever changes.
   */
  function Next(s: State, loudness: real, now: int): (t: Transition)
    requires Valid(s) && Plausible(now)
    ensures Valid(t.next)
    ensures |t.next.sessions| == |s.sessions| + (if !Quiet(loudness) && NewIncident(s, now) then 1 else 0)
    ensures forall k :: 0 <= k < |s.sessions| - 1 ==> t.next.sessions[k] == s.sessions[k]
    ensures forall k :: 0 <= k < |s.sessions| ==> t.next.sessions[k].start == s.sessions[k].start
    ensures !Quiet(loudness) ==> t.next.barkAlert && t.next.lastBark == now
    ensures Quiet(loudness) ==> t.next.lastBark == s.lastBark && t.next.lastEmail == s.lastEmail
    ensures t.action == NoAction <==> Quiet(loudness) && !Closes(s, now)
    ensures t.action == NoAction ==> t.next == s && t.notice == None
    ensures t.notice == Some(Lifted) <==> t.action == Reward && s.sessionEmailSent
    ensures t.action == Reward ==> !t.next.sessionEmailSent
    ensures Warning(t) ==> t.action == WarnLong && t.next.lastEmail == now && t.next.sessionEmailSent
    ensures Warning(t) && s.sessionEmailSent ==> t.notice == Some(RepeatWarning) && now - s.lastEmail > MailDelay
    ensures !Warning(t) ==> t.next.lastEmail == s.lastEmail
    ensures t.action != Reward && !Warning(t) ==> t.next.sessionEmailSent == s.sessionEmailSent
  {
    if Quiet(loudness) then OnQuiet(s, now)
    else if NewIncident(s, now) then OnNewIncident(s, now)
    else OnPersistent(s, now)
  }

  /**
    Time order of the recorded state, which holds as long as the clock never
    reads earlier than the last bark: session starts lie more than the
    strictness window apart and no later than the last bark, a closed session
    ends after it starts, and the last mail is no later than the last bark.
   */
  predicate Chronological(s: State)
  {
    && (forall i, j :: 0 <= i < j < |s.sessions| ==> s.sessions[j].start - s.sessions[i].start > StricterTimer)
    && (forall i :: 0 <= i < |s.sessions| ==> s.sessions[i].start <= s.lastBark)
    && (forall i :: 0 <= i < |s.sessions| && s.sessions[i].end.ClosedAt? ==> s.sessions[i].start < s.sessions[i].end.time)
    && s.lastEmail <= s.lastBark
  }

  lemma StepKeepsChronology(s: State, loudness: real, now: int)
    requires Valid(s) && Plausible(now) && Chronological(s)
    requires s.lastBark <= now
    ensures Chronological(Next(s, loudness, now).next)
  {
    var t := Next(s, loudness, now);
    if Quiet(loudness) && Closes(s, now) {
      var n := |s.sessions|;
      assert t.next.sessions == s.sessions[..n - 1] + [Session(s.sessions[n - 1].start, ClosedAt(now - RewardTimer))];
    }
  }

  /**
    The tracker as the script keeps it: the module-level globals become fields,
    and one iteration of the `while True` loop becomes `Step`.
   */
  class BarkTracker {
    var barkAlert: bool
    var lastBark: int
    var lastEmail: int
    var sessionEmailSent: bool
    var sessions: seq<Session>

    function Snapshot(): State
      reads this
    {
      State(barkAlert, lastBark, lastEmail, sessionEmailSent, sessions)
    }

    constructor ()
      ensures Snapshot() == Init()
    {
      barkAlert := false;
      lastBark := DateTimeMin;
      lastEmail := DateTimeMin;
      sessionEmailSent := false;
      sessions := [];
    }

    method Step(loudness: real, now: int) returns (action: Action, notice: Option<Notice>)
      requires Valid(Snapshot()) && Plausible(now)
      modifies this
      ensures Valid(Snapshot())
      ensures Transition(Snapshot(), action, notice) == Next(old(Snapshot()), loudness, now)
    {
      var timeDifference := now - lastBark;
      notice := None;
      action := NoAction;
      if loudness <= AmbientDb {
        if barkAlert && timeDifference > RewardTimer {
          if sessionEmailSent {
            notice := Some(Lifted);
          }
          var n := |sessions|;
          sessions := sessions[..n - 1] + [sessions[n - 1].(end := ClosedAt(now - RewardTimer))];
          sessionEmailSent := false;
          action := Reward;
          barkAlert := false;
        }
        return;
      }

      barkAlert := true;
      if timeDifference > StricterTimer {
        sessions := sessions + [Session(now, Open)];
        action := WarnShort;
      } else {
        var timeSinceLastEmail := now - lastEmail;
        var timeSinceStartSession := now - sessions[|sessions| - 1].start;
        if !sessionEmailSent && timeSinceStartSession > MailDelay {
          notice := Some(FirstWarning);
          lastEmail := now;
          sessionEmailSent := true;
        } else if sessionEmailSent && timeSinceLastEmail > MailDelay {
          notice := Some(RepeatWarning);
          lastEmail := now;
          sessionEmailSent := true;
        }
        action := WarnLong;
      }
      lastBark := now;
    }
  }
}
