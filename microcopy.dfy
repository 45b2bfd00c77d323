/** The encouragement line under the countdown (public/src/utils/microcopy.ts). */
module Microcopy {

  datatype Mode = Focus | Break
  datatype TimerState = Idle | Running | Paused

  const FOCUS_RUNNING := "Você está fazendo um ótimo trabalho. Continue focado."
  const FOCUS_PAUSED := "Quando estiver pronto, retome seu foco."
  const FOCUS_IDLE := "Pronto para começar uma sessão de foco profundo?"
  const BREAK_RUNNING := "Respire. Relaxe. Você merece esse momento."
  const BREAK_PAUSED := "Sem pressa. Continue descansando quando quiser."
  const BREAK_IDLE := "Hora de uma pausa bem merecida."

  /** The three lines shown during focus. */
  function FocusLines(): set<string> {
    {FOCUS_RUNNING, FOCUS_PAUSED, FOCUS_IDLE}
  }

  /** The three lines shown during a break. */
  function BreakLines(): set<string> {
    {BREAK_RUNNING, BREAK_PAUSED, BREAK_IDLE}
  }

  /** `getMicrocopy(mode, timerState)`; idle is the fall-through case of each mode. */
  function GetMicrocopy(mode: Mode, state: TimerState): (line: string)
    ensures mode == Focus ==> line in FocusLines() && line !in BreakLines()
    ensures mode == Break ==> line in BreakLines() && line !in FocusLines()
    ensures state != Running && state != Paused ==> line == (if mode == Focus then FOCUS_IDLE else BREAK_IDLE)
  {
    LineLengths();
    if mode == Focus then
      if state == Running then FOCUS_RUNNING
      else if state == Paused then FOCUS_PAUSED
      else FOCUS_IDLE
    else
      if state == Running then BREAK_RUNNING
      else if state == Paused then BREAK_PAUSED
      else BREAK_IDLE
  }

  /** The six lines already differ in length. */
  lemma LineLengths()
    ensures |FOCUS_RUNNING| == 53 && |FOCUS_PAUSED| == 39 && |FOCUS_IDLE| == 48
    ensures |BREAK_RUNNING| == 42 && |BREAK_PAUSED| == 47 && |BREAK_IDLE| == 31
  {
  }

  /** Six situations, six different lines. */
  lemma GetMicrocopyInjective(m1: Mode, s1: TimerState, m2: Mode, s2: TimerState)
    requires GetMicrocopy(m1, s1) == GetMicrocopy(m2, s2)
    ensures m1 == m2 && s1 == s2
  {
    LineLengths();
  }
}
