/** The escape sequences of dnlogin's terminal input: a parser that says when a sequence
    is over, and the buffer the sequence is kept in. */
module TtyEscape {
  import opened Bits

  const ESC: byte := 27
  const BRACKET: byte := 91
  const RIGHT_ARROW: byte := 67   // the last byte of a right arrow
  const LEFT_ARROW: byte := 68

  /** The sequence so far, what stands in the third place of its buffer, which may be from
      a sequence before, and the state of the parser. */
  datatype Escape = Escape(bytes: seq<byte>, third: byte, state: nat)

  const NO_ESCAPE := Escape([], 0, 0)

  /** Whether the sequence goes on behind a byte, and the next state. The rules of a state
      fall through to those of the higher ones; a byte that no rule takes ends the sequence
      and leaves the state as it is. */
  function Rule(state: nat, c: byte): (r: (bool, nat)) {
    if state == 0 && (c == 63 || c == 59) then (true, 10)
    else if state == 0 && c == 79 then (true, 20)
    else if state == 0 && c == 89 then (true, 30)
    else if state == 0 && c == BRACKET then (true, 15)
    else if state <= 10 && 32 <= c <= 47 then (true, 10)
    else if state <= 10 && 48 <= c <= 126 then (false, 0)
    else if state <= 15 && 48 <= c <= 63 then (true, 15)
    else if state <= 20 && 32 <= c <= 47 then (true, 20)
    else if state <= 20 && 64 <= c <= 126 then (false, 0)
    else if state <= 30 && 32 <= c <= 126 then (true, 40)
    else if state <= 40 && 32 <= c <= 126 then (false, 0)
    else (false, state)
  }

  /** The buffer with one more byte in it. */
  function Longer(e: Escape, c: byte): Escape {
    Escape(e.bytes + [c], if |e.bytes| == 2 then c else e.third, Rule(e.state, c).1)
  }

  /** The first three places of the buffer hold an arrow sequence. */
  predicate IsArrow(e: Escape, letter: byte) {
    |e.bytes| >= 2 && e.bytes[0] == ESC && e.bytes[1] == BRACKET && e.third == letter
  }

  predicate AnyArrow(e: Escape) {
    IsArrow(e, RIGHT_ARROW) || IsArrow(e, LEFT_ARROW)
  }

  predicate State(n: nat) {
    n in {0, 10, 15, 20, 30, 40}
  }

  lemma RuleState(state: nat, c: byte)
    requires State(state)
    ensures State(Rule(state, c).1)
  {
  }
}
