/** The `Repl` component: the per-line state lives in fields that the handlers
    update in place, the read loop consumes decoded events until Enter, and the
    session loop intercepts sigil commands and resets the per-line state.
    Every method is proved to do what the functions of modules Editing and
    Session say. Terminal output (prompt, colours, redraws) is left out. */
module Cli {
  import opened Text
  import opened Decoder
  import opened Editing
  import opened Session

  class Repl {
    var line: Bytes
    var column: int
    var history: seq<Bytes>
    var historyIndex: int

    /** The fields as a value. */
    function State(): EditorState
      reads this
    {
      EditorState(line, column, history, historyIndex)
    }

    ghost predicate Valid()
      reads this
    {
      Editing.Valid(State())
    }

    constructor ()
      ensures Valid() && State() == Initial()
    {
      line, column, history, historyIndex := [], 0, [], 0;
    }

    method ResetState()
      requires Valid()
      modifies this
      ensures Valid() && State() == Reset(old(State()))
    {
      line, column, historyIndex := [], 0, 0;
    }

    method HandleKeyPress(input: Byte)
      requires Valid()
      modifies this
      ensures Valid() && State() == KeyPress(old(State()), input)
    {
      if IsControl(input) {
        return;
      }
      line := line[..column] + [input] + line[column..];
      column := column + 1;  // strlen of a one-byte string
    }

    method HandleBackspace()
      requires Valid()
      modifies this
      ensures Valid() && State() == DeleteBeforeCursor(old(State()))
    {
      if column == 0 {
        return;
      }
      line := line[..column - 1] + line[column..];
      column := column - 1;
    }

    /** The delete branch of `handleGenericEvent`; its terminator byte was taken by the decoder. */
    method HandleDelete()
      requires Valid()
      modifies this
      ensures Valid() && State() == DeleteAtCursor(old(State()))
    {
      if column == |line| {
        return;
      }
      line := line[..column] + line[column + 1..];
    }

    /** The arrow branch of `handleGenericEvent`. */
    method HandleArrow(right: bool)
      requires Valid()
      modifies this
      ensures Valid() && State() == Arrow(old(State()), right)
    {
      if right {
        column := if |line| < column + 1 then |line| else column + 1;
      } else {
        column := if column - 1 < 0 then 0 else column - 1;
      }
    }

    /** The up/down branch of `handleGenericEvent`. */
    method HandleHistory(older: bool)
      requires Valid()
      modifies this
      ensures Valid() && State() == Navigate(old(State()), older)
    {
      var size := |history|;
      var nav := if older then 1 else -1;
      var target := size - (historyIndex + nav);
      if 0 <= target < size {
        var entry := history[target];
        line, historyIndex, column := entry, historyIndex + nav, |entry|;
      } else if !older && historyIndex <= 1 {
        ResetState();
      }
    }

    method HandleHomeAndEnd(end: bool)
      requires Valid()
      modifies this
      ensures Valid() && State() == HomeAndEnd(old(State()), end)
    {
      if end {
        column := |line|;
      } else {
        column := 0;
      }
    }

    /** The history part of `handleEnter`. */
    method HandleEnter()
      requires Valid()
      modifies this
      ensures Valid() && State() == Submit(old(State()))
    {
      var entry := Trim(line);
      if entry != [] {
        history := history + [entry];
      }
    }

    /** The handler `getEvent` picks, or `handleKeyPress`, for one decoded action. */
    method Dispatch(a: Action)
      requires Valid()
      modifies this
      ensures Valid() && State() == Step(old(State()), a)
    {
      match a
      case Insert(b) => HandleKeyPress(b);
      case Backspace => HandleBackspace();
      case ForwardDelete => HandleDelete();
      case MoveLeft => HandleArrow(false);
      case MoveRight => HandleArrow(true);
      case HistoryOlder => HandleHistory(true);
      case HistoryNewer => HandleHistory(false);
      case Home => HandleHomeAndEnd(false);
      case End => HandleHomeAndEnd(true);
      case ClearScreen =>
      case Enter => HandleKeyPress(LF);
      case Ignore =>
    }

    /** `handleRead`: decode and dispatch events from `input` until one whose
        leading byte is Enter, then `handleEnter`. Returns how many bytes were
        taken and whether an Enter was seen before the input ran out. */
    method HandleRead(input: Bytes) returns (consumed: nat, complete: bool)
      requires Valid()
      modifies this
      ensures Valid()
      ensures ReadLine(old(State()), input) == LineResult(State(), consumed, complete)
    {
      ghost var total := ReadLine(State(), input);
      var pos, rest := 0, input;
      while true
        invariant Valid() && pos + |rest| == |input|
        invariant total == Advance(ReadLine(State(), rest), pos)
        decreases |rest|
      {
        var d := Decode(rest);
        if d.Truncated? {
          ReadTruncated(total, State(), rest, pos);
          return |input|, false;
        }
        if d.action == Enter {
          ReadEnd(total, State(), rest, pos);
          HandleKeyPress(LF);
          HandleEnter();
          return pos + d.size, true;
        }
        ghost var before := State();
        Dispatch(d.action);
        ReadStep(total, before, rest, pos, d.action, d.size, State(), rest[d.size..]);
        pos, rest := pos + d.size, rest[d.size..];
      }
    }

    /** `start`: read lines for ever, intercepting the ones that start with the
        sigil and resetting the per-line state after each. Here it stops when
        `:quit` is read, before the reset, or when the input runs out. */
    method Start(input: Bytes) returns (done: seq<Completed>, quit: bool)
      requires Valid()
      modifies this
      ensures Valid()
      ensures RunSession(old(State()), input) == SessionResult(State(), done, quit)
    {
      ghost var s0 := State();
      var pos := 0;
      done := [];
      assert input[pos..] == input;
      assert After(done, RunSession(s0, input)) == RunSession(s0, input);
      while true
        invariant Valid() && pos <= |input|
        invariant RunSession(s0, input) == After(done, RunSession(State(), input[pos..]))
        decreases |input| - pos
      {
        ghost var before := State();
        ghost var l := ReadLine(before, input[pos..]);
        var consumed, complete := HandleRead(input[pos..]);
        if !complete {
          assert RunSession(before, input[pos..]) == SessionResult(l.state, [], false);
          assert done + [] == done;
          return done, false;
        }
        var text := Trim(line);
        var command := Intercept(text);
        if command == Quit {
          assert RunSession(before, input[pos..]) == SessionResult(l.state, [Completed(text, command)], true);
          done := done + [Completed(text, command)];
          return done, true;
        }
        assert l == LineResult(State(), consumed, complete);
        SessionStep(RunSession(s0, input), done, before, input[pos..]);
        DropDrop(input, pos, consumed);
        ghost var later := RunSession(Reset(l.state), input[pos + consumed..]);
        done := done + [Completed(text, command)];
        ResetState();
        pos := pos + consumed;
        assert RunSession(State(), input[pos..]) == later;
      }
    }
  }
}
