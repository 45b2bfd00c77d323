/** The public app's timer hook (public/src/hooks/usePomodoro.ts): four
    pieces of React state, three commands, and two effects that run after
    every render in which the remaining time or the mode changed. */
module PublicTimer {

  datatype PomodoroMode = Focus | Break

  const FOCUS_TIME := 25 * 60
  const BREAK_TIME := 5 * 60

  /** The hook's state, and how many session records it has posted (the
      service always posts a 1500 s focus session). */
  datatype PublicState = PublicState(mode: PomodoroMode, timeLeft: int, isRunning: bool,
                                     cyclesCompleted: int, sessionPosts: nat)

  const INITIAL := PublicState(Focus, FOCUS_TIME, false, 0, 0)

  function StartSpec(s: PublicState): (r: PublicState)
    ensures r.isRunning && r == s.(isRunning := true)
  {
    s.(isRunning := true)
  }

  function PauseSpec(s: PublicState): (r: PublicState)
    ensures !r.isRunning && r == s.(isRunning := false)
  {
    s.(isRunning := false)
  }

  /** Reset restores the initial state, except for the posts already sent. */
  function ResetSpec(s: PublicState): (r: PublicState)
    ensures r == INITIAL.(sessionPosts := s.sessionPosts)
  {
    PublicState(Focus, FOCUS_TIME, false, 0, s.sessionPosts)
  }

  /** One exhaustion effect run against the render's snapshot: with time
      left it does nothing; otherwise it flips the mode and sets the next
      duration, counting a cycle when focus ended. The first copy also
      posts the session. */
  function ExhaustionSpec(s: PublicState, snapMode: PomodoroMode, snapTime: int, posts: bool): (r: PublicState)
    ensures snapTime > 0 ==> r == s
    ensures snapTime <= 0 && snapMode == Focus ==>
              r == s.(mode := Break, timeLeft := BREAK_TIME, cyclesCompleted := s.cyclesCompleted + 1,
                      sessionPosts := if posts then s.sessionPosts + 1 else s.sessionPosts)
    ensures snapTime <= 0 && snapMode == Break ==> r == s.(mode := Focus, timeLeft := FOCUS_TIME)
  {
    if snapTime > 0 then s
    else if snapMode == Focus then
      s.(cyclesCompleted := s.cyclesCompleted + 1,
         sessionPosts := if posts then s.sessionPosts + 1 else s.sessionPosts,
         mode := Break, timeLeft := BREAK_TIME)
    else s.(mode := Focus, timeLeft := FOCUS_TIME)
  }

  /** Both effects after one render: each reads the same snapshot, and the
      counter updates are applied one after the other. */
  function CommitSpec(s: PublicState): (r: PublicState)
    ensures s.timeLeft > 0 ==> r == s
    ensures s.timeLeft <= 0 && s.mode == Focus ==>
              r == s.(mode := Break, timeLeft := BREAK_TIME, cyclesCompleted := s.cyclesCompleted + 2,
                      sessionPosts := s.sessionPosts + 1)
    ensures s.timeLeft <= 0 && s.mode == Break ==> r == s.(mode := Focus, timeLeft := FOCUS_TIME)
    ensures r.timeLeft > 0
  {
    var afterFirst := ExhaustionSpec(s, s.mode, s.timeLeft, true);
    ExhaustionSpec(afterFirst, s.mode, s.timeLeft, false)
  }

  /** After the effects, the next render has time left again, so its effects
      change nothing. */
  lemma CommitSettles(s: PublicState)
    ensures CommitSpec(CommitSpec(s)) == CommitSpec(s)
  {
  }

  /** A focus exhaustion counts two cycles, because both copies of the rule
      count one, yet posts one session. */
  lemma FocusExhaustionCountsTwice()
    ensures var r := CommitSpec(PublicState(Focus, 0, true, 0, 0));
            r.cyclesCompleted == 2 && r.sessionPosts == 1 && r.mode == Break && r.timeLeft == BREAK_TIME
  {
  }

  datatype Command = StartCmd | PauseCmd | ResetCmd

  /** A command followed by the effects of the render it causes. */
  function Step(s: PublicState, c: Command): PublicState {
    var next := match c
      case StartCmd => StartSpec(s)
      case PauseCmd => PauseSpec(s)
      case ResetCmd => ResetSpec(s);
    CommitSpec(next)
  }

  function Run(s: PublicState, cmds: seq<Command>): PublicState
    decreases |cmds|
  {
    if cmds == [] then s else Run(Step(s, cmds[0]), cmds[1..])
  }

  /** The hook as shown never lowers the remaining time, so from the initial
      state no command sequence reaches an exhaustion: the time stays at
      the full focus duration, and no cycle or session is ever counted. */
  lemma {:induction false} NeverExhausts(s: PublicState, cmds: seq<Command>)
    requires s.mode == Focus && s.timeLeft == FOCUS_TIME && s.cyclesCompleted == 0 && s.sessionPosts == 0
    ensures var r := Run(s, cmds);
            r.mode == Focus && r.timeLeft == FOCUS_TIME && r.cyclesCompleted == 0 && r.sessionPosts == 0
    decreases |cmds|
  {
    if cmds != [] {
      NeverExhausts(Step(s, cmds[0]), cmds[1..]);
    }
  }

  /** The hook as an object whose setters update its fields. */
  class PublicPomodoro {
    var mode: PomodoroMode
    var timeLeft: int
    var isRunning: bool
    var cyclesCompleted: int
    ghost var sessionPosts: nat

    ghost function Abs(): PublicState
      reads this
    {
      PublicState(mode, timeLeft, isRunning, cyclesCompleted, sessionPosts)
    }

    constructor ()
      ensures Abs() == INITIAL
    {
      mode := Focus;
      timeLeft := FOCUS_TIME;
      isRunning := false;
      cyclesCompleted := 0;
      sessionPosts := 0;
    }

    method Start()
      modifies this
      ensures Abs() == StartSpec(old(Abs()))
    {
      isRunning := true;
    }

    method Pause()
      modifies this
      ensures Abs() == PauseSpec(old(Abs()))
    {
      isRunning := false;
    }

    method Reset()
      modifies this
      ensures Abs() == ResetSpec(old(Abs()))
    {
      isRunning := false;
      mode := Focus;
      timeLeft := FOCUS_TIME;
      cyclesCompleted := 0;
    }

    /** One effect body, given the mode and remaining time of the render it
        belongs to. */
    method RunExhaustionEffect(snapMode: PomodoroMode, snapTime: int, posts: bool)
      modifies this
      ensures Abs() == ExhaustionSpec(old(Abs()), snapMode, snapTime, posts)
    {
      if snapTime > 0 {
        return;
      }
      if snapMode == Focus {
        cyclesCompleted := cyclesCompleted + 1;
        if posts {
          sessionPosts := sessionPosts + 1;
        }
        mode := Break;
        timeLeft := BREAK_TIME;
      } else {
        mode := Focus;
        timeLeft := FOCUS_TIME;
      }
    }

    /** The effects after a render, in declaration order, both against that
        render's snapshot. */
    method CommitEffects()
      modifies this
      ensures Abs() == CommitSpec(old(Abs()))
    {
      var snapMode, snapTime := mode, timeLeft;
      RunExhaustionEffect(snapMode, snapTime, true);
      RunExhaustionEffect(snapMode, snapTime, false);
    }
  }

  /** The two effects on an exhausted focus render leave two counted cycles. */
  method DoubleCountWitness() returns (cycles: int)
    ensures cycles == 2
  {
    var p := new PublicPomodoro();
    p.mode, p.timeLeft := Focus, 0;
    p.CommitEffects();
    cycles := p.cyclesCompleted;
  }
}
