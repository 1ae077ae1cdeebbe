/** A text made step by step, and the part of it that fits a bounded buffer. */
module TextPieces {
  import opened NumberFormat

  /** One step: its text, what so much room takes of it, where scanning goes on, and
      the next argument. */
  datatype Step = Step(text: string, emit: nat -> string, next: nat, arg: nat)

  type Steps = (nat, nat) -> Step

  /** Every step before n moves on, not beyond n, and keeps to its room. */
  ghost predicate Proper(steps: Steps, n: nat) {
    forall i: nat, a: nat :: i < n ==>
      i < steps(i, a).next <= n && forall room: nat :: |steps(i, a).emit(room)| <= room
  }

  /** The whole text from position i and argument a on. */
  ghost function Text(steps: Steps, n: nat, i: nat, a: nat): string
    requires Proper(steps, n)
    decreases n - i
  {
    if i >= n then "" else steps(i, a).text + Text(steps, n, steps(i, a).next, steps(i, a).arg)
  }

  /** What is written with so much room. */
  ghost function Output(steps: Steps, n: nat, i: nat, a: nat, room: nat): (s: string)
    requires Proper(steps, n)
    ensures |s| <= room
    decreases n - i
  {
    if i >= n || room == 0 then ""
    else
      var out := steps(i, a).emit(room);
      out + Output(steps, n, steps(i, a).next, steps(i, a).arg, room - |out|)
  }

  /** A step that small room only cuts off. */
  ghost predicate CutsOff(step: Step) { forall room: nat :: step.emit(room) == Take(step.text, room) }

  ghost predicate AllCutOff(steps: Steps, n: nat, i: nat, a: nat)
    requires Proper(steps, n)
    decreases n - i
  {
    i >= n || (CutsOff(steps(i, a)) && AllCutOff(steps, n, steps(i, a).next, steps(i, a).arg))
  }

  /** If less room only cuts every step off, it only cuts the whole text off. */
  lemma {:induction false} OutputIsPrefix(steps: Steps, n: nat, i: nat, a: nat, room: nat)
    requires Proper(steps, n) && AllCutOff(steps, n, i, a)
    ensures Output(steps, n, i, a, room) == Take(Text(steps, n, i, a), room)
    decreases n - i
  {
    if i < n && room > 0 {
      var p := steps(i, a);
      var out := p.emit(room);
      OutputIsPrefix(steps, n, p.next, p.arg, room - |out|);
      TakeTwice(p.text, Text(steps, n, p.next, p.arg), room);
    }
  }
}
