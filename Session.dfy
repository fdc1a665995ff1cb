/** The read loop of `handleRead` and the endless loop of `start`, as functions of
    the editing state and the bytes the terminal delivers. */
module Session {
  import opened Text
  import opened Decoder
  import opened Editing

  /** The state after reading, the bytes taken, and whether an Enter ended the line
      (otherwise the input ran out first). */
  datatype LineResult = LineResult(state: EditorState, consumed: nat, complete: bool)

  /** `handleRead`: decode and apply events until one whose leading byte is Enter,
      then `handleEnter`. */
  function ReadLine(s: EditorState, input: Bytes): (r: LineResult)
    requires Valid(s)
    ensures Valid(r.state)
    ensures r.consumed <= |input|
    ensures r.complete ==> 0 < r.consumed && input[r.consumed - 1] == LF
    ensures !r.complete ==> r.consumed == |input| && r.state.history == s.history
    ensures r.complete ==> r.state.history == s.history + (if Trim(r.state.line) == [] then [] else [Trim(r.state.line)])
    decreases |input|
  {
    match Decode(input)
    case Truncated => LineResult(s, |input|, false)
    case Decoded(a, n) =>
      if a == Enter then LineResult(Submit(Step(s, a)), n, true)
      else
        var r := ReadLine(Step(s, a), input[n..]);
        LineResult(r.state, n + r.consumed, r.complete)
  }

  /** `r` with `k` more bytes consumed in front of it. */
  function Advance(r: LineResult, k: nat): LineResult {
    r.(consumed := r.consumed + k)
  }

  /** One event of the read loop that is not Enter, unfolded. */
  lemma ReadLineNext(s: EditorState, input: Bytes, a: Action, n: nat)
    requires Valid(s) && Decode(input) == Decoded(a, n) && a != Enter
    ensures ReadLine(s, input) == Advance(ReadLine(Step(s, a), input[n..]), n)
  {
  }

  /** The read loop after one more event that is not Enter, with `k` bytes
      already taken before `rest`. */
  lemma ReadStep(total: LineResult, s: EditorState, rest: Bytes, k: nat, a: Action, n: nat, t: EditorState, next: Bytes)
    requires Valid(s)
    requires total == Advance(ReadLine(s, rest), k)
    requires Decode(rest) == Decoded(a, n) && a != Enter
    requires t == Step(s, a) && next == rest[n..]
    ensures total == Advance(ReadLine(t, next), k + n)
  {
    ReadLineNext(s, rest, a, n);
  }

  /** The read loop ends at an event whose leading byte is Enter: the key press
      is discarded and the line is submitted. */
  lemma ReadEnd(total: LineResult, s: EditorState, rest: Bytes, k: nat)
    requires Valid(s)
    requires total == Advance(ReadLine(s, rest), k)
    requires Decode(rest).Decoded? && Decode(rest).action == Enter
    ensures total == LineResult(Submit(KeyPress(s, LF)), k + Decode(rest).size, true)
  {
  }

  /** The read loop stops incomplete when the input ends inside an event. */
  lemma ReadTruncated(total: LineResult, s: EditorState, rest: Bytes, k: nat)
    requires Valid(s)
    requires total == Advance(ReadLine(s, rest), k)
    requires Decode(rest).Truncated?
    ensures total == LineResult(s, k + |rest|, false)
  {
  }

  /** What the interceptor makes of a completed, trimmed line. */
  datatype Command = NotCommand | Clear | Quit | Unknown

  const Sigil: Byte := 0x3A                                        // ':'
  const ClearText: Bytes := [Sigil, 0x63, 0x6C, 0x65, 0x61, 0x72]  // ":clear"
  const QuitText: Bytes := [Sigil, 0x71, 0x75, 0x69, 0x74]         // ":quit"

  /** The sigil test of `start` and the table of `intercept`. */
  function Intercept(line: Bytes): (c: Command)
    ensures c == NotCommand <==> line == [] || line[0] != Sigil
    ensures c == Clear <==> line == ClearText
    ensures c == Quit <==> line == QuitText
  {
    if line == [] || line[0] != Sigil then NotCommand
    else if line == ClearText then Clear
    else if line == QuitText then Quit
    else Unknown
  }

  /** A completed line, trimmed, and what the interceptor made of it. */
  datatype Completed = Completed(line: Bytes, command: Command)

  /** The completed lines that `handleEnter` put into the history. */
  function Entries(done: seq<Completed>): seq<Bytes>
    decreases |done|
  {
    if done == [] then []
    else (if done[0].line != [] then [done[0].line] else []) + Entries(done[1..])
  }

  lemma EntriesCons(d: Completed, rest: seq<Completed>)
    ensures Entries([d] + rest) == (if d.line != [] then [d.line] else []) + Entries(rest)
  {
    assert ([d] + rest)[1..] == rest;
  }

  /** The state at the end, the lines completed, and whether `:quit` ended the
      session (otherwise the input ran out). */
  datatype SessionResult = SessionResult(state: EditorState, done: seq<Completed>, quit: bool)

  /** `start`: read a line, intercept it when it starts with the sigil, reset the
      per-line state, and go round again. `:quit` ends the process at once, before
      the reset. */
  function RunSession(s: EditorState, input: Bytes): (r: SessionResult)
    requires Valid(s)
    ensures Valid(r.state)
    decreases |input|
  {
    var l := ReadLine(s, input);
    if !l.complete then SessionResult(l.state, [], false)
    else
      var line := Trim(l.state.line);
      var done := Completed(line, Intercept(line));
      if done.command == Quit then SessionResult(l.state, [done], true)
      else
        var rest := RunSession(Reset(l.state), input[l.consumed..]);
        SessionResult(rest.state, [done] + rest.done, rest.quit)
  }

  /** `r` with the lines `done` completed before it. */
  function After(done: seq<Completed>, r: SessionResult): SessionResult {
    r.(done := done + r.done)
  }

  lemma AfterAfter(a: seq<Completed>, b: seq<Completed>, r: SessionResult)
    ensures After(a, After(b, r)) == After(a + b, r)
  {
    assert a + (b + r.done) == (a + b) + r.done;
  }

  /** One line of the session loop that is not `:quit`, unfolded. */
  lemma RunSessionNext(s: EditorState, input: Bytes)
    requires Valid(s)
    requires ReadLine(s, input).complete
    requires Intercept(Trim(ReadLine(s, input).state.line)) != Quit
    ensures var l := ReadLine(s, input); var line := Trim(l.state.line);
      RunSession(s, input) ==
        After([Completed(line, Intercept(line))], RunSession(Reset(l.state), input[l.consumed..]))
  {
  }

  /** The session loop after one more line that is not `:quit`. */
  lemma SessionStep(total: SessionResult, done: seq<Completed>, s: EditorState, rest: Bytes)
    requires Valid(s)
    requires total == After(done, RunSession(s, rest))
    requires ReadLine(s, rest).complete
    requires Intercept(Trim(ReadLine(s, rest).state.line)) != Quit
    ensures var l := ReadLine(s, rest); var line := Trim(l.state.line);
      total == After(done + [Completed(line, Intercept(line))], RunSession(Reset(l.state), rest[l.consumed..]))
  {
    var l := ReadLine(s, rest);
    var line := Trim(l.state.line);
    RunSessionNext(s, rest);
    AfterAfter(done, [Completed(line, Intercept(line))], RunSession(Reset(l.state), rest[l.consumed..]));
  }

  /** The history only grows, by the completed non-empty lines in the order they
      were completed. */
  lemma {:induction false} SessionHistory(s: EditorState, input: Bytes)
    requires Valid(s)
    ensures RunSession(s, input).state.history == s.history + Entries(RunSession(s, input).done)
    decreases |input|
  {
    var l := ReadLine(s, input);
    if l.complete {
      var line := Trim(l.state.line);
      var done := Completed(line, Intercept(line));
      if done.command == Quit {
        EntriesCons(done, []);
      } else {
        var rest := RunSession(Reset(l.state), input[l.consumed..]);
        SessionHistory(Reset(l.state), input[l.consumed..]);
        HistoryStep(s.history, l.state.history, done, rest.done, rest.state.history);
      }
    }
  }

  lemma HistoryStep(h0: seq<Bytes>, h1: seq<Bytes>, done: Completed, later: seq<Completed>, h2: seq<Bytes>)
    requires h1 == h0 + (if done.line == [] then [] else [done.line])
    requires h2 == h1 + Entries(later)
    ensures h2 == h0 + Entries([done] + later)
  {
    EntriesCons(done, later);
  }

  /** The session stops at the first `:quit`, and only `:quit` stops it before the
      input runs out. */
  lemma {:induction false} SessionStopsAtQuit(s: EditorState, input: Bytes)
    requires Valid(s)
    ensures var r := RunSession(s, input);
      && (r.quit <==> r.done != [] && r.done[|r.done| - 1].command == Quit)
      && forall i :: 0 <= i < |r.done| - 1 ==> r.done[i].command != Quit
    decreases |input|
  {
    var l := ReadLine(s, input);
    if l.complete {
      var line := Trim(l.state.line);
      var done := Completed(line, Intercept(line));
      if done.command != Quit {
        var rest := RunSession(Reset(l.state), input[l.consumed..]);
        assert RunSession(s, input) == After([done], rest);
        SessionStopsAtQuit(Reset(l.state), input[l.consumed..]);
        QuitAfterLine(done, rest);
      }
    }
  }

  /** A line that is not `:quit` in front of a session that stops at its first
      `:quit` gives a session that still does. */
  lemma QuitAfterLine(d: Completed, r: SessionResult)
    requires d.command != Quit
    requires r.quit <==> r.done != [] && r.done[|r.done| - 1].command == Quit
    requires forall i :: 0 <= i < |r.done| - 1 ==> r.done[i].command != Quit
    ensures var t := After([d], r);
      && (t.quit <==> t.done != [] && t.done[|t.done| - 1].command == Quit)
      && forall i :: 0 <= i < |t.done| - 1 ==> t.done[i].command != Quit
  {
    var t := After([d], r);
    forall i | 0 <= i < |t.done| - 1 ensures t.done[i].command != Quit {
      if i > 0 { assert t.done[i] == r.done[i - 1]; }
    }
  }

  /** Every completed line is trimmed: trimming it again changes nothing. */
  lemma {:induction false} SessionLinesTrimmed(s: EditorState, input: Bytes)
    requires Valid(s)
    ensures forall d :: d in RunSession(s, input).done ==> Trim(d.line) == d.line
    decreases |input|
  {
    var l := ReadLine(s, input);
    if l.complete {
      var line := Trim(l.state.line);
      TrimIdempotent(l.state.line);
      var done := Completed(line, Intercept(line));
      if done.command != Quit {
        var rest := RunSession(Reset(l.state), input[l.consumed..]);
        var r := RunSession(s, input);
        assert r.done == [done] + rest.done;
        SessionLinesTrimmed(Reset(l.state), input[l.consumed..]);
        assert forall d :: d in r.done ==> d == done || d in rest.done;
      }
    }
  }

  /** A line of bytes none of which is a control byte, ended by Enter, is read into
      the line behind whatever was there and submitted; the bytes after the
      Enter are left unread. */
  lemma {:induction false} ReadTypedLine(s: EditorState, text: Bytes, rest: Bytes)
    requires Valid(s)
    requires forall i :: 0 <= i < |text| ==> !IsControl(text[i])
    ensures ReadLine(s, text + [LF] + rest) ==
      LineResult(Submit(Run(s, Inserts(text))), |text| + 1, true)
    decreases |text|
  {
    var input := text + [LF] + rest;
    if text == [] {
      assert input == [LF] + rest;
      DecodeKeySequence(Enter, rest);
    } else {
      assert input == [text[0]] + (text[1..] + [LF] + rest);
      DecodeKeySequence(Insert(text[0]), text[1..] + [LF] + rest);
      assert input[1..] == text[1..] + [LF] + rest;
      assert Inserts(text)[0] == Insert(text[0]) && Inserts(text)[1..] == Inserts(text[1..]);
      ReadTypedLine(KeyPress(s, text[0]), text[1..], rest);
    }
  }

  /** Lines that are empty or all trim-space leave the history as it was. */
  lemma BlankLineNotRecorded(s: EditorState, input: Bytes)
    requires Valid(s)
    requires ReadLine(s, input).complete && Trim(ReadLine(s, input).state.line) == []
    ensures ReadLine(s, input).state.history == s.history
  {
  }

  /** Typing `let x = 1` and Enter at a fresh prompt records the line in the
      history and leaves a fresh prompt. */
  lemma ScenarioLetX()
    ensures var text: Bytes := [0x6C, 0x65, 0x74, 0x20, 0x78, 0x20, 0x3D, 0x20, 0x31];  // "let x = 1"
      var r := RunSession(Initial(), text + [LF]);
      && r.state == Initial().(history := [text])
      && r.done == [Completed(text, NotCommand)]
      && !r.quit
  {
    var text: Bytes := [0x6C, 0x65, 0x74, 0x20, 0x78, 0x20, 0x3D, 0x20, 0x31];
    assert text + [LF] == text + [LF] + [];
    ReadTypedLine(Initial(), text, []);
    TypeIntoEmptyLine(Initial(), text);
    TrimOfTrimmed(text);
    var l := ReadLine(Initial(), text + [LF]);
    assert l.consumed == |text + [LF]|;
    assert (text + [LF])[l.consumed..] == [];
  }

  /** `:quit` ends the session without forwarding anything; the line was recorded
      in the history before it was intercepted. */
  lemma ScenarioQuit(rest: Bytes)
    ensures var r := RunSession(Initial(), QuitText + [LF] + rest);
      && r.quit
      && r.done == [Completed(QuitText, Quit)]
      && r.state.history == [QuitText]
  {
    ReadTypedLine(Initial(), QuitText, rest);
    TypeIntoEmptyLine(Initial(), QuitText);
    TrimOfTrimmed(QuitText);
  }

  /** An unknown command is swallowed: nothing is forwarded, the session goes on to a
      fresh prompt, and the line is in the history. */
  lemma ScenarioUnknownCommand()
    ensures var text: Bytes := [Sigil, 0x62, 0x61, 0x6E, 0x61, 0x6E, 0x61];  // ":banana"
      var r := RunSession(Initial(), text + [LF]);
      && !r.quit
      && r.done == [Completed(text, Unknown)]
      && r.state == Initial().(history := [text])
  {
    var text: Bytes := [Sigil, 0x62, 0x61, 0x6E, 0x61, 0x6E, 0x61];
    assert text + [LF] == text + [LF] + [];
    ReadTypedLine(Initial(), text, []);
    TypeIntoEmptyLine(Initial(), text);
    TrimOfTrimmed(text);
    var l := ReadLine(Initial(), text + [LF]);
    assert (text + [LF])[l.consumed..] == [];
  }
}
