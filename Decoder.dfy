/** The input decoder of the REPL: `getEvent`, `handleEscape`, `handleGenericEvent`
    and `handleHomeAndEnd` turn raw terminal bytes into one editing action.
    The bytes the handlers fetch with `getChar` are taken from the input here,
    and the decoder reports how many it took. */
module Decoder {
  import opened Text

  const LF: Byte := 0x0A   // Enter: ends the read loop
  const FF: Byte := 0x0C   // ^L: clear screen
  const ESC: Byte := 0x1B  // starts an escape sequence
  const DEL: Byte := 0x7F  // what the terminal sends for backspace
  const SS3: Byte := 0x4F  // 'O' after ESC: Home and End
  const CSI: Byte := 0x5B  // '[' after ESC: arrows and delete

  datatype Action =
    | Insert(b: Byte)
    | Backspace
    | ForwardDelete
    | MoveLeft
    | MoveRight
    | HistoryOlder
    | HistoryNewer
    | Home
    | End
    | ClearScreen
    | Enter
    | Ignore

  /** One decoded event and the number of bytes it took, or `Truncated` when the
      input stops before the fixed grammar of the event is complete. */
  datatype Decoded = Decoded(action: Action, size: nat) | Truncated

  /** The byte read by `handleHomeAndEnd` after `ESC O`. */
  function DecodeHomeAndEnd(rest: Bytes): (d: Decoded)
    ensures d.Decoded? ==> d.size == 1 && |rest| >= 1
    ensures d.Truncated? <==> rest == []
    ensures rest != [] && rest[0] == 0x46 ==> d == Decoded(End, 1)
    ensures rest != [] && rest[0] == 0x48 ==> d == Decoded(Home, 1)
    ensures rest != [] && rest[0] != 0x46 && rest[0] != 0x48 ==> d == Decoded(Ignore, 1)
  {
    if rest == [] then Truncated
    else if rest[0] == 0x46 then Decoded(End, 1)
    else if rest[0] == 0x48 then Decoded(Home, 1)
    else Decoded(Ignore, 1)
  }

  /** The byte read by `handleGenericEvent` after `ESC [`, and for delete the
      terminator byte it reads and discards. */
  function DecodeGeneric(rest: Bytes): (d: Decoded)
    ensures d.Decoded? ==> 1 <= d.size <= |rest|
    ensures d.Decoded? && d.action == ForwardDelete ==> d.size == 2 && rest[0] == 0x33
    ensures d.Decoded? && d.action != ForwardDelete ==> d.size == 1
    ensures d.Truncated? <==> rest == [] || (rest[0] == 0x33 && |rest| < 2)
    ensures rest != [] && rest[0] == 0x43 ==> d == Decoded(MoveRight, 1)
    ensures rest != [] && rest[0] == 0x44 ==> d == Decoded(MoveLeft, 1)
    ensures rest != [] && rest[0] == 0x41 ==> d == Decoded(HistoryOlder, 1)
    ensures rest != [] && rest[0] == 0x42 ==> d == Decoded(HistoryNewer, 1)
    ensures |rest| >= 2 && rest[0] == 0x33 ==> d == Decoded(ForwardDelete, 2)
    ensures rest != [] && rest[0] !in {0x41, 0x42, 0x43, 0x44, 0x33} ==> d == Decoded(Ignore, 1)
  {
    if rest == [] then Truncated
    else if rest[0] == 0x43 then Decoded(MoveRight, 1)
    else if rest[0] == 0x44 then Decoded(MoveLeft, 1)
    else if rest[0] == 0x41 then Decoded(HistoryOlder, 1)
    else if rest[0] == 0x42 then Decoded(HistoryNewer, 1)
    else if rest[0] == 0x33 then (if |rest| < 2 then Truncated else Decoded(ForwardDelete, 2))
    else Decoded(Ignore, 1)
  }

  /** The byte read by `handleEscape` after ESC. */
  function DecodeEscape(rest: Bytes): (d: Decoded)
    ensures d.Decoded? ==> 1 <= d.size <= |rest|
    ensures d.Decoded? && d.action == ForwardDelete ==> d.size == 3
    ensures d.Decoded? ==> d.size <= 3
    ensures rest == [] ==> d.Truncated?
    ensures rest != [] && rest[0] == SS3 ==> d == Shift(DecodeHomeAndEnd(rest[1..]), 1)
    ensures rest != [] && rest[0] == CSI ==> d == Shift(DecodeGeneric(rest[1..]), 1)
    ensures rest != [] && rest[0] != SS3 && rest[0] != CSI ==> d == Decoded(Ignore, 1)
  {
    if rest == [] then Truncated
    else if rest[0] == SS3 then Shift(DecodeHomeAndEnd(rest[1..]), 1)
    else if rest[0] == CSI then Shift(DecodeGeneric(rest[1..]), 1)
    else Decoded(Ignore, 1)
  }

  /** `d` with `k` more bytes consumed in front of it. */
  function Shift(d: Decoded, k: nat): (r: Decoded)
    ensures r.Truncated? <==> d.Truncated?
    ensures r.Decoded? ==> r.action == d.action && r.size == d.size + k
  {
    match d
    case Truncated => Truncated
    case Decoded(a, n) => Decoded(a, n + k)
  }

  /** `getEvent` together with the control-character filter of `handleKeyPress`:
      the leading byte picks the handler; every other byte is a key press, which
      inserts only when it is not a control character. */
  function Decode(input: Bytes): (d: Decoded)
    ensures d.Decoded? ==> 1 <= d.size <= |input|
    ensures d.Decoded? && d.size > 1 ==> input[0] == ESC
    ensures |input| > 0 && input[0] != ESC ==> d.Decoded? && d.size == 1
    ensures d.Truncated? ==> |input| < 4
    ensures (d.Decoded? && d.action.Insert?) <==> |input| > 0 && !IsControl(input[0])
    ensures d.Decoded? && d.action.Insert? ==> d.action.b == input[0]
    ensures (d.Decoded? && d.action == Enter) <==> |input| > 0 && input[0] == LF
    ensures d.Decoded? && d.action == ForwardDelete ==> d.size == 4
    ensures d.Decoded? ==> d.size <= 4
    ensures input == [] ==> d.Truncated?
    ensures |input| > 0 && input[0] == DEL ==> d == Decoded(Backspace, 1)
    ensures |input| > 0 && input[0] == FF ==> d == Decoded(ClearScreen, 1)
    ensures |input| > 0 && input[0] == ESC ==> d == Shift(DecodeEscape(input[1..]), 1)
    ensures |input| > 0 && IsControl(input[0]) && input[0] !in {DEL, FF, ESC, LF} ==> d == Decoded(Ignore, 1)
  {
    if input == [] then Truncated
    else if input[0] == DEL then Decoded(Backspace, 1)
    else if input[0] == FF then Decoded(ClearScreen, 1)
    else if input[0] == ESC then Shift(DecodeEscape(input[1..]), 1)
    else if input[0] == LF then Decoded(Enter, 1)
    else if IsControl(input[0]) then Decoded(Ignore, 1)
    else Decoded(Insert(input[0]), 1)
  }

  /** The byte sequence a terminal sends for each action; `Ignore` is represented by NUL. */
  function KeySequence(a: Action): (bs: Bytes)
    ensures 1 <= |bs| <= 4
  {
    match a
    case Insert(b) => [b]
    case Backspace => [DEL]
    case ForwardDelete => [ESC, CSI, 0x33, 0x7E]
    case MoveLeft => [ESC, CSI, 0x44]
    case MoveRight => [ESC, CSI, 0x43]
    case HistoryOlder => [ESC, CSI, 0x41]
    case HistoryNewer => [ESC, CSI, 0x42]
    case Home => [ESC, SS3, 0x48]
    case End => [ESC, SS3, 0x46]
    case ClearScreen => [FF]
    case Enter => [LF]
    case Ignore => [0x00]
  }

  /** Every action is decoded from its key sequence, whatever follows it,
      and exactly the key sequence is consumed. */
  lemma {:induction false} DecodeKeySequence(a: Action, rest: Bytes)
    requires a.Insert? ==> !IsControl(a.b)
    ensures Decode(KeySequence(a) + rest) == Decoded(a, |KeySequence(a)|)
  {
    var input := KeySequence(a) + rest;
    assert input[0] == KeySequence(a)[0];
    if |KeySequence(a)| > 1 {
      assert input[1..] == KeySequence(a)[1..] + rest;
      assert input[1..][1..] == KeySequence(a)[2..] + rest;
    }
  }

  /** The decoder never looks past the bytes it consumes. */
  lemma {:induction false} DecodeNoLookahead(input: Bytes, rest: Bytes)
    requires Decode(input).Decoded?
    ensures Decode(input[..Decode(input).size] + rest) == Decode(input)
  {
    var n := Decode(input).size;
    var other := input[..n] + rest;
    assert other[0] == input[0];
    if n > 1 {
      assert other[1] == input[1];
      if n > 2 { assert other[2] == input[2]; }
      if n > 3 { assert other[3] == input[3]; }
    }
  }

  /** Unrecognised escape sequences are absorbed: the decoder takes only the bytes
      its fixed grammar reads and yields no action. */
  lemma UnknownEscapeAbsorbed(input: Bytes)
    requires |input| >= 2 && input[0] == ESC
    ensures input[1] != SS3 && input[1] != CSI ==> Decode(input) == Decoded(Ignore, 2)
    ensures |input| >= 3 && input[1] == SS3 && input[2] != 0x46 && input[2] != 0x48
      ==> Decode(input) == Decoded(Ignore, 3)
    ensures |input| >= 3 && input[1] == CSI && input[2] !in {0x41, 0x42, 0x43, 0x44, 0x33}
      ==> Decode(input) == Decoded(Ignore, 3)
  {
  }

  /** An Enter byte inside an escape sequence is taken by the escape handler and
      does not end the line. */
  lemma EnterInsideEscape(input: Bytes)
    requires |input| >= 2 && input[0] == ESC
    requires input[1] == LF || (|input| >= 3 && (input[1] == SS3 || input[1] == CSI) && input[2] == LF)
    ensures Decode(input).Decoded? && Decode(input).action == Ignore
    ensures input[1] == LF ==> Decode(input).size == 2
    ensures input[1] != LF ==> Decode(input).size == 3
  {
  }
}
