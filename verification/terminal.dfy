/** `terminal_top_with_text`: a full-width banner line ending in a message.
    The terminal width, which the source reads from the terminal, is a
    parameter here. */
module Terminal {
  import opened Exceptions

  /** Python's `c * n` for a one-character string: empty when `n <= 0`. */
  function Repeat(c: char, n: int): (s: string)
    ensures |s| == if n <= 0 then 0 else n
    ensures forall i :: 0 <= i < |s| ==> s[i] == c
  {
    seq(if n <= 0 then 0 else n, _ => c)
  }

  /** The `TypeError` Python raises for `str // int`; it is an ordinary
      `Exception`, so the retry governor would treat it as transient. */
  const StrFloorDivError: Exc := OtherException("unsupported operand type(s) for //: 'str' and 'int'")

  /** True when the message does not fit on one banner line with its padding. */
  predicate IsLong(msg: string, width: nat) {
    |msg| > width - 5
  }

  /** The function as written. On a long message the last line parses as
      `("=" * width) // 2`, so the call raises before returning. */
  function TerminalTopWithTextAsWritten(msg: string := "", width: nat): (r: Outcome<string>)
    ensures r.Raised? <==> IsLong(msg, width)
    ensures r.Raised? ==> r.exc == StrFloorDivError
    ensures r.Returned? ==> |r.value| == width && r.value[width - |msg|..] == msg
  {
    if IsLong(msg, width) then
      Raised(StrFloorDivError)
    else
      Returned(Repeat('=', width - |msg| - 1) + " " + msg)
  }

  /** The function as evidently intended: on a long message, a full rule, the
      message on its own line, and a half-width rule. */
  function TerminalTopWithText(msg: string := "", width: nat): (r: string)
    ensures !IsLong(msg, width) ==>
      && |r| == width
      && (forall i :: 0 <= i < width - |msg| - 1 ==> r[i] == '=')
      && r[width - |msg| - 1] == ' '
      && r[width - |msg|..] == msg
    ensures IsLong(msg, width) ==>
      && |r| == width + 1 + |msg| + 1 + width / 2
      && (forall i :: 0 <= i < width ==> r[i] == '=')
      && r[width] == '\n'
      && r[width + 1..width + 1 + |msg|] == msg
      && r[width + 1 + |msg|] == '\n'
      && (forall i :: width + 2 + |msg| <= i < |r| ==> r[i] == '=')
  {
    if IsLong(msg, width) then
      Repeat('=', width) + "\n" + msg + "\n" + Repeat('=', width / 2)
    else
      Repeat('=', width - |msg| - 1) + " " + msg
  }

  /** Where the source returns at all, it returns the intended banner. */
  lemma AsWrittenAgreesOnShortMessages(msg: string, width: nat)
    requires !IsLong(msg, width)
    ensures TerminalTopWithTextAsWritten(msg, width) == Returned(TerminalTopWithText(msg, width))
  {
  }

  /** An 11-character message on a 10-column terminal raises `TypeError`, and
      so does the empty message on a 4-column one. */
  lemma LongMessageRaises()
    ensures TerminalTopWithTextAsWritten("hello world", 10) == Raised(StrFloorDivError)
    ensures TerminalTopWithTextAsWritten("", 4) == Raised(StrFloorDivError)
  {
  }

  /** With the default empty message, a terminal at least five columns wide
      gets a rule of `width - 1` signs `=` and a trailing space; a narrower
      one raises `TypeError`. */
  lemma DefaultMessage(width: nat)
    ensures 5 <= width ==> TerminalTopWithTextAsWritten(width := width) == Returned(Repeat('=', width - 1) + " ")
    ensures width < 5 ==> TerminalTopWithTextAsWritten(width := width) == Raised(StrFloorDivError)
  {
    if 5 <= width {
      assert Repeat('=', width - 1) + " " + "" == Repeat('=', width - 1) + " ";
    }
  }
}
