/** The "is typing" indicator of a chat page (`useChatTyping`): a flag set
    by each received typing whisper and cleared by a timer two seconds
    after the latest one, plus the stored time of the page's own last
    keystroke. The timer is a deadline; the clock is a parameter. */
module ChatTyping {
  import opened Basics

  /** How long the indicator stays on after a whisper, in milliseconds. */
  const TypingTimeout := 2000

  /** The indicator as a value: the flag, the deadline of the pending timer
      (none once it fired or before any whisper), and the stored keystroke
      time. */
  datatype Typing = Typing(isOtherUserTyping: bool, deadline: Option<Time>, lastTypedAt: int)

  /** Before any event: not typing, no timer, keystroke time 0. */
  const Initial := Typing(false, None, 0)

  /** `handleTypingEvent`: the flag goes on, and the pending timer, if any,
      is replaced by one that fires two seconds from now. */
  function OnTypingEvent(t: Typing, now: Time): (r: Typing)
    ensures r.isOtherUserTyping && r.deadline == Some(now + TypingTimeout)
    ensures r.lastTypedAt == t.lastTypedAt
  {
    t.(isOtherUserTyping := true, deadline := Some(now + TypingTimeout))
  }

  /** Time passing to `now`: a timer whose deadline has come fires and
      clears the flag; otherwise nothing changes. */
  function Elapse(t: Typing, now: Time): (r: Typing)
    ensures t.deadline.Some? && t.deadline.value <= now ==> !r.isOtherUserTyping && r.deadline.None?
    ensures !(t.deadline.Some? && t.deadline.value <= now) ==> r == t
    ensures r.lastTypedAt == t.lastTypedAt
  {
    if t.deadline.Some? && t.deadline.value <= now then t.(isOtherUserTyping := false, deadline := None) else t
  }

  /** What happens to the indicator: a whisper arrives, the clock reaches
      a time, or the page stores its keystroke time. */
  datatype Step = Whispered(at: Time) | Clock(at: Time) | Stamp(timestamp: int)

  function Apply(t: Typing, s: Step): (r: Typing)
    ensures r.lastTypedAt == if s.Stamp? then s.timestamp else t.lastTypedAt
    ensures s.Whispered? ==> r.isOtherUserTyping
    ensures s.Clock? && !t.isOtherUserTyping ==> !r.isOtherUserTyping
  {
    match s
    case Whispered(at) => OnTypingEvent(t, at)
    case Clock(at) => Elapse(t, at)
    case Stamp(ts) => t.(lastTypedAt := ts)
  }

  /** The state after the steps, from the initial one. */
  function Run(steps: seq<Step>): Typing {
    if steps == [] then Initial else Apply(Run(steps[..|steps| - 1]), steps[|steps| - 1])
  }

  /** The time of the latest whisper. */
  function LastWhisper(steps: seq<Step>): (r: Option<Time>)
    ensures r.Some? ==> exists i :: 0 <= i < |steps| && steps[i] == Whispered(r.value)
  {
    if steps == [] then None
    else if steps[|steps| - 1].Whispered? then Some(steps[|steps| - 1].at)
    else LastWhisper(steps[..|steps| - 1])
  }

  /** The time of the latest whisper or clock step. */
  function LastTime(steps: seq<Step>): Option<Time> {
    if steps == [] then None
    else if !steps[|steps| - 1].Stamp? then Some(steps[|steps| - 1].at)
    else LastTime(steps[..|steps| - 1])
  }

  /** The last stored keystroke time, 0 when none was stored. */
  function LastStamp(steps: seq<Step>): int {
    if steps == [] then 0
    else if steps[|steps| - 1].Stamp? then steps[|steps| - 1].timestamp
    else LastStamp(steps[..|steps| - 1])
  }

  /** Timed steps come in order. */
  predicate Monotone(steps: seq<Step>) {
    forall i, j :: 0 <= i < j < |steps| && !steps[i].Stamp? && !steps[j].Stamp? ==> steps[i].at <= steps[j].at
  }

  /** What every reachable state satisfies: the flag is on exactly while a
      timer is pending, that timer is due two seconds after the latest
      whisper, and a flag that went off did so at a time at least two
      seconds after it. */
  ghost predicate Consistent(t: Typing, steps: seq<Step>) {
    (t.isOtherUserTyping <==> t.deadline.Some?) &&
    (t.deadline.Some? ==> LastWhisper(steps) == Some(t.deadline.value - TypingTimeout)) &&
    (LastWhisper(steps).Some? && !t.isOtherUserTyping ==>
      LastTime(steps).Some? && LastTime(steps).value >= LastWhisper(steps).value + TypingTimeout)
  }

  lemma {:induction false} RunConsistent(steps: seq<Step>)
    requires Monotone(steps)
    ensures Consistent(Run(steps), steps)
    ensures Run(steps).lastTypedAt == LastStamp(steps)
    ensures LastWhisper(steps).Some? ==> LastTime(steps).Some? && LastWhisper(steps).value <= LastTime(steps).value
  {
    if steps != [] {
      var init := steps[..|steps| - 1];
      var last := steps[|steps| - 1];
      assert Monotone(init);
      RunConsistent(init);
      if !last.Stamp? && LastTime(init).Some? {
        LastTimeIsTimed(init);
        var k :| 0 <= k < |init| && !init[k].Stamp? && init[k].at == LastTime(init).value;
        assert steps[k] == init[k];
      }
    }
  }

  lemma {:induction false} LastTimeIsTimed(steps: seq<Step>)
    requires LastTime(steps).Some?
    ensures exists k :: 0 <= k < |steps| && !steps[k].Stamp? && steps[k].at == LastTime(steps).value
  {
    var last := steps[|steps| - 1];
    if last.Stamp? {
      var init := steps[..|steps| - 1];
      LastTimeIsTimed(init);
      var k :| 0 <= k < |init| && !init[k].Stamp? && init[k].at == LastTime(init).value;
      assert steps[k] == init[k];
    }
  }

  /** At any moment, the indicator is on exactly when the latest whisper
      came less than two seconds ago: every whisper restarts the timer. */
  lemma TypingIffRecentWhisper(steps: seq<Step>, now: Time)
    requires Monotone(steps + [Clock(now)])
    ensures Run(steps + [Clock(now)]).isOtherUserTyping <==>
      LastWhisper(steps).Some? && now < LastWhisper(steps).value + TypingTimeout
  {
    var all := steps + [Clock(now)];
    assert all[..|all| - 1] == steps;
    assert Monotone(steps) by {
      forall i, j | 0 <= i < j < |steps| && !steps[i].Stamp? && !steps[j].Stamp?
        ensures steps[i].at <= steps[j].at
      {
        assert all[i] == steps[i] && all[j] == steps[j];
      }
    }
    RunConsistent(steps);
    if LastTime(steps).Some? {
      LastTimeIsTimed(steps);
      var k :| 0 <= k < |steps| && !steps[k].Stamp? && steps[k].at == LastTime(steps).value;
      assert all[k] == steps[k] && all[|steps|] == Clock(now);
    }
  }

  /** The stored keystroke time is the last one stored, or 0. */
  lemma LastTypedAtIsLastStamp(steps: seq<Step>)
    requires Monotone(steps)
    ensures Run(steps).lastTypedAt == LastStamp(steps)
  {
    RunConsistent(steps);
  }

  /** The composable's closure variables. */
  class TypingIndicator {
    var isOtherUserTyping: bool
    var deadline: Option<Time>
    var lastTypedAt: int

    function State(): Typing
      reads this
    {
      Typing(isOtherUserTyping, deadline, lastTypedAt)
    }

    constructor ()
      ensures State() == Initial
    {
      isOtherUserTyping := false;
      deadline := None;
      lastTypedAt := 0;
    }

    method HandleTypingEvent(now: Time)
      modifies this
      ensures State() == OnTypingEvent(old(State()), now)
    {
      isOtherUserTyping := true;
      deadline := Some(now + TypingTimeout);
    }

    /** The clock reaches `now`; a due timer runs its callback. */
    method Tick(now: Time)
      modifies this
      ensures State() == Elapse(old(State()), now)
    {
      if deadline.Some? && deadline.value <= now {
        isOtherUserTyping := false;
        deadline := None;
      }
    }

    method UpdateLastTypedAt(timestamp: int)
      modifies this
      ensures State() == old(State()).(lastTypedAt := timestamp)
    {
      lastTypedAt := timestamp;
    }

    method GetLastTypedAt() returns (r: int)
      ensures r == State().lastTypedAt
    {
      r := lastTypedAt;
    }
  }
}
