/** The per-line editing state of the REPL (`line`, `column`, `history`,
    `history_index`) and what each handler does to it, as functions on values.
    The class in module Cli updates its fields in place and is proved against
    these functions. */
module Editing {
  import opened Text
  import opened Decoder

  datatype EditorState = EditorState(line: Bytes, column: int, history: seq<Bytes>, historyIndex: int)

  /** The invariant every handler keeps: the cursor lies within the line and the
      history index counts at most all the entries back. */
  predicate Valid(s: EditorState) {
    && 0 <= s.column <= |s.line|
    && 0 <= s.historyIndex <= |s.history|
  }

  /** The state the constructor sets up. */
  function Initial(): (s: EditorState)
    ensures Valid(s) && s.history == []
    ensures s.line == [] && s.column == 0 && s.historyIndex == 0
  {
    EditorState([], 0, [], 0)
  }

  /** `resetState`: an empty line, the cursor at 0, not browsing; the history is kept. */
  function Reset(s: EditorState): (r: EditorState)
    requires Valid(s)
    ensures Valid(r)
    ensures r.line == [] && r.column == 0 && r.historyIndex == 0
    ensures r.history == s.history
  {
    s.(line := [], column := 0, historyIndex := 0)
  }

  /** `handleKeyPress`: a control byte is discarded; any other byte is spliced into
      the line at the cursor, which advances by its length (one byte). */
  function KeyPress(s: EditorState, b: Byte): (r: EditorState)
    requires Valid(s)
    ensures Valid(r)
    ensures r.history == s.history && r.historyIndex == s.historyIndex
    ensures IsControl(b) ==> r == s
    ensures !IsControl(b) ==>
      && |r.line| == |s.line| + 1
      && r.column == s.column + 1
      && r.line[s.column] == b
      && r.line[..s.column] == s.line[..s.column]
      && r.line[s.column + 1..] == s.line[s.column..]
  {
    if IsControl(b) then s
    else s.(line := s.line[..s.column] + [b] + s.line[s.column..], column := s.column + 1)
  }

  /** `handleBackspace`: nothing at column 0; otherwise the byte left of the cursor
      goes and the cursor follows it. */
  function DeleteBeforeCursor(s: EditorState): (r: EditorState)
    requires Valid(s)
    ensures Valid(r)
    ensures r.history == s.history && r.historyIndex == s.historyIndex
    ensures s.column == 0 ==> r == s
    ensures s.column > 0 ==>
      && |r.line| == |s.line| - 1
      && r.column == s.column - 1
      && r.line[..s.column - 1] == s.line[..s.column - 1]
      && r.line[s.column - 1..] == s.line[s.column..]
  {
    if s.column == 0 then s
    else s.(line := s.line[..s.column - 1] + s.line[s.column..], column := s.column - 1)
  }

  /** The delete branch of `handleGenericEvent`: nothing at the end of the line;
      otherwise the byte under the cursor goes and the cursor stays. */
  function DeleteAtCursor(s: EditorState): (r: EditorState)
    requires Valid(s)
    ensures Valid(r)
    ensures r.history == s.history && r.historyIndex == s.historyIndex
    ensures s.column == |s.line| ==> r == s
    ensures s.column < |s.line| ==>
      && |r.line| == |s.line| - 1
      && r.column == s.column
      && r.line[..s.column] == s.line[..s.column]
      && r.line[s.column..] == s.line[s.column + 1..]
  {
    if s.column == |s.line| then s
    else s.(line := s.line[..s.column] + s.line[s.column + 1..])
  }

  /** The arrow branch of `handleGenericEvent`: the cursor moves one byte right
      or left, clamped to the line; the line is unchanged. */
  function Arrow(s: EditorState, right: bool): (r: EditorState)
    requires Valid(s)
    ensures Valid(r)
    ensures r.line == s.line && r.history == s.history && r.historyIndex == s.historyIndex
    ensures right && s.column < |s.line| ==> r.column == s.column + 1
    ensures right && s.column == |s.line| ==> r == s
    ensures !right && s.column > 0 ==> r.column == s.column - 1
    ensures !right && s.column == 0 ==> r == s
  {
    if right then s.(column := if |s.line| < s.column + 1 then |s.line| else s.column + 1)
    else s.(column := if s.column - 1 < 0 then 0 else s.column - 1)
  }

  /** `handleHomeAndEnd`: End puts the cursor after the last byte, Home before the first. */
  function HomeAndEnd(s: EditorState, end: bool): (r: EditorState)
    requires Valid(s)
    ensures Valid(r)
    ensures r.line == s.line && r.history == s.history && r.historyIndex == s.historyIndex
    ensures r.column == if end then |s.line| else 0
  {
    s.(column := if end then |s.line| else 0)
  }

  /** The history entry that a step of `nav` (+1 older, -1 newer) would show,
      when there is one. */
  predicate HasEntry(s: EditorState, nav: int) {
    0 <= |s.history| - (s.historyIndex + nav) < |s.history|
  }

  /** The up/down branch of `handleGenericEvent`: step to the entry at
      `|history| - (index + nav)` when there is one, showing it with the cursor at
      its end; stepping newer with no entry while at most one step back leaves
      browsing and clears the line; anything else changes nothing. */
  function Navigate(s: EditorState, older: bool): (r: EditorState)
    requires Valid(s)
    ensures Valid(r)
    ensures r.history == s.history
    ensures var nav := if older then 1 else -1;
      HasEntry(s, nav) ==>
        && r.line == s.history[|s.history| - (s.historyIndex + nav)]
        && r.column == |r.line|
        && r.historyIndex == s.historyIndex + nav
    ensures !HasEntry(s, if older then 1 else -1) ==>
      r == if !older && s.historyIndex <= 1 then Reset(s) else s
  {
    var nav := if older then 1 else -1;
    if HasEntry(s, nav) then
      var entry := s.history[|s.history| - (s.historyIndex + nav)];
      s.(line := entry, historyIndex := s.historyIndex + nav, column := |entry|)
    else if !older && s.historyIndex <= 1 then Reset(s)
    else s
  }

  /** One decoded action applied by the read loop. Enter reaches `handleKeyPress`
      as a control byte and is discarded there; clear screen only talks to the
      terminal. */
  function Step(s: EditorState, a: Action): (r: EditorState)
    requires Valid(s)
    ensures Valid(r)
    ensures r.history == s.history
    ensures a == Ignore || a == ClearScreen || a == Enter ==> r == s
  {
    match a
    case Insert(b) => KeyPress(s, b)
    case Backspace => DeleteBeforeCursor(s)
    case ForwardDelete => DeleteAtCursor(s)
    case MoveLeft => Arrow(s, false)
    case MoveRight => Arrow(s, true)
    case HistoryOlder => Navigate(s, true)
    case HistoryNewer => Navigate(s, false)
    case Home => HomeAndEnd(s, false)
    case End => HomeAndEnd(s, true)
    case ClearScreen => s
    case Enter => KeyPress(s, LF)
    case Ignore => s
  }

  /** Which handler each action reaches: key presses and the two deletes go to
      their handlers, the arrows move the cursor one byte within the line, Home
      and End jump to its ends, and up/down browse the history. */
  lemma StepDispatch(s: EditorState, a: Action)
    requires Valid(s)
    ensures a.Insert? ==> Step(s, a) == KeyPress(s, a.b)
    ensures a == Backspace ==> Step(s, a) == DeleteBeforeCursor(s)
    ensures a == ForwardDelete ==> Step(s, a) == DeleteAtCursor(s)
    ensures a == MoveLeft ==> Step(s, a) == s.(column := if s.column == 0 then 0 else s.column - 1)
    ensures a == MoveRight ==> Step(s, a) == s.(column := if s.column == |s.line| then s.column else s.column + 1)
    ensures a == Home ==> Step(s, a) == s.(column := 0)
    ensures a == End ==> Step(s, a) == s.(column := |s.line|)
    ensures a == HistoryOlder ==> Step(s, a) == Navigate(s, true)
    ensures a == HistoryNewer ==> Step(s, a) == Navigate(s, false)
  {
  }

  /** `handleEnter`: the trimmed line joins the end of the history unless it is
      empty; the line, cursor and index are left for `resetState`. */
  function Submit(s: EditorState): (r: EditorState)
    requires Valid(s)
    ensures Valid(r)
    ensures r.line == s.line && r.column == s.column && r.historyIndex == s.historyIndex
    ensures |r.history| == |s.history| + (if Trim(s.line) == [] then 0 else 1)
    ensures r.history[..|s.history|] == s.history
    ensures Trim(s.line) != [] ==> r.history[|s.history|] == Trim(s.line)
  {
    var entry := Trim(s.line);
    if entry != [] then
      s.(history := s.history + [entry])
    else s
  }

  /** A run of actions applied in order. */
  function Run(s: EditorState, actions: seq<Action>): (r: EditorState)
    requires Valid(s)
    ensures Valid(r)
    ensures r.history == s.history
    decreases |actions|
  {
    if actions == [] then s else Run(Step(s, actions[0]), actions[1..])
  }

  /** The same action `k` times. */
  function Repeat(a: Action, k: nat): (r: seq<Action>)
    ensures |r| == k
    ensures forall i :: 0 <= i < k ==> r[i] == a
  {
    if k == 0 then [] else [a] + Repeat(a, k - 1)
  }

  /** A key press for each byte of `text`. */
  function Inserts(text: Bytes): (r: seq<Action>)
    ensures |r| == |text|
    ensures forall i :: 0 <= i < |text| ==> r[i] == Insert(text[i])
  {
    seq(|text|, i requires 0 <= i < |text| => Insert(text[i]))
  }

  lemma {:induction false} RunAppend(s: EditorState, xs: seq<Action>, ys: seq<Action>)
    requires Valid(s)
    ensures Run(s, xs + ys) == Run(Run(s, xs), ys)
    decreases |xs|
  {
    if xs == [] {
      assert xs + ys == ys;
    } else {
      assert (xs + ys)[0] == xs[0];
      assert (xs + ys)[1..] == xs[1..] + ys;
      RunAppend(Step(s, xs[0]), xs[1..], ys);
    }
  }

  /** The terminal's key sequences, decoded and applied: End and Home move the
      cursor to the end of the line and to 0, the arrows move it one byte within
      the line, DEL deletes before the cursor and `ESC [ 3 ~` at it, and up/down
      browse the history. */
  lemma KeyEffects(s: EditorState, rest: Bytes)
    requires Valid(s)
    ensures Step(s, Decode([ESC, SS3, 0x46] + rest).action) == s.(column := |s.line|)
    ensures Step(s, Decode([ESC, SS3, 0x48] + rest).action) == s.(column := 0)
    ensures Step(s, Decode([ESC, CSI, 0x43] + rest).action)
      == s.(column := if s.column == |s.line| then s.column else s.column + 1)
    ensures Step(s, Decode([ESC, CSI, 0x44] + rest).action)
      == s.(column := if s.column == 0 then 0 else s.column - 1)
    ensures Step(s, Decode([DEL] + rest).action) == DeleteBeforeCursor(s)
    ensures Step(s, Decode([ESC, CSI, 0x33, 0x7E] + rest).action) == DeleteAtCursor(s)
    ensures Step(s, Decode([ESC, CSI, 0x41] + rest).action) == Navigate(s, true)
    ensures Step(s, Decode([ESC, CSI, 0x42] + rest).action) == Navigate(s, false)
  {
    DecodeKeySequence(End, rest);
    StepDispatch(s, End);
    DecodeKeySequence(Home, rest);
    StepDispatch(s, Home);
    DecodeKeySequence(MoveRight, rest);
    StepDispatch(s, MoveRight);
    DecodeKeySequence(MoveLeft, rest);
    StepDispatch(s, MoveLeft);
    DecodeKeySequence(Backspace, rest);
    StepDispatch(s, Backspace);
    DecodeKeySequence(ForwardDelete, rest);
    StepDispatch(s, ForwardDelete);
    DecodeKeySequence(HistoryOlder, rest);
    StepDispatch(s, HistoryOlder);
    DecodeKeySequence(HistoryNewer, rest);
    StepDispatch(s, HistoryNewer);
  }

  /** Backspace undoes a key press that inserted. */
  lemma BackspaceUndoesKeyPress(s: EditorState, b: Byte)
    requires Valid(s) && !IsControl(b)
    ensures DeleteBeforeCursor(KeyPress(s, b)) == s
  {
    var t := KeyPress(s, b);
    assert t.line[..s.column] + t.line[s.column + 1..] == s.line;
  }

  /** Moving left and deleting forward removes what backspace removes. */
  lemma DeleteAfterLeftIsBackspace(s: EditorState)
    requires Valid(s) && s.column > 0
    ensures DeleteAtCursor(Arrow(s, false)) == DeleteBeforeCursor(s)
  {
  }

  /** Left undoes right and right undoes left away from the line's ends. */
  lemma ArrowsInverse(s: EditorState)
    requires Valid(s)
    ensures s.column < |s.line| ==> Arrow(Arrow(s, true), false) == s
    ensures s.column > 0 ==> Arrow(Arrow(s, false), true) == s
  {
  }

  /** Typing bytes none of which is a control byte splices them, in order, into the
      line at the cursor, and leaves the cursor after the last of them. */
  lemma {:induction false} TypeText(s: EditorState, text: Bytes)
    requires Valid(s)
    requires forall i :: 0 <= i < |text| ==> !IsControl(text[i])
    ensures Run(s, Inserts(text)) ==
      s.(line := s.line[..s.column] + text + s.line[s.column..], column := s.column + |text|)
    decreases |text|
  {
    if text == [] {
      assert s.line[..s.column] + text + s.line[s.column..] == s.line;
    } else {
      var t := KeyPress(s, text[0]);
      RunInsertsCons(s, text);
      TypeText(t, text[1..]);
      InsertSplice(s.line, s.column, text);
    }
  }

  /** Running the insertions of a non-empty text is one key press followed by the rest. */
  lemma RunInsertsCons(s: EditorState, text: Bytes)
    requires Valid(s) && text != []
    ensures Run(s, Inserts(text)) == Run(KeyPress(s, text[0]), Inserts(text[1..]))
  {
    assert Inserts(text)[0] == Insert(text[0]);
    assert Inserts(text)[1..] == Inserts(text[1..]);
  }

  /** Splicing the first byte and then the rest at the next position splices the whole text. */
  lemma InsertSplice(line: Bytes, c: nat, text: Bytes)
    requires c <= |line| && text != []
    ensures var l := line[..c] + [text[0]] + line[c..];
      l[..c + 1] + text[1..] + l[c + 1..] == line[..c] + text + line[c..]
  {
    var l := line[..c] + [text[0]] + line[c..];
    assert l[..c + 1] == line[..c] + [text[0]];
    assert l[c + 1..] == line[c..];
    assert [text[0]] + text[1..] == text;
  }

  /** Typing into an empty line: the line is exactly the typed bytes and the
      cursor is at its end. */
  lemma TypeIntoEmptyLine(s: EditorState, text: Bytes)
    requires Valid(s) && s.line == [] && s.column == 0
    requires forall i :: 0 <= i < |text| ==> !IsControl(text[i])
    ensures Run(s, Inserts(text)).line == text
    ensures Run(s, Inserts(text)).column == |text|
  {
    TypeText(s, text);
    assert [] + text + [] == text;
  }

  /** The state showing the entry `i` steps back from the newest, as navigation
      leaves it. */
  function Showing(s: EditorState, i: nat): (r: EditorState)
    requires Valid(s) && 0 < i <= |s.history|
    ensures Valid(r) && r.history == s.history && r.historyIndex == i
    ensures r.line == s.history[|s.history| - i] && r.column == |r.line|
  {
    var e := s.history[|s.history| - i];
    s.(line := e, column := |e|, historyIndex := i)
  }

  /** Running the same action `k > 0` times is one step followed by `k - 1` more. */
  lemma RunRepeatCons(s: EditorState, a: Action, k: nat)
    requires Valid(s) && 0 < k
    ensures Run(s, Repeat(a, k)) == Run(Step(s, a), Repeat(a, k - 1))
  {
    assert Repeat(a, k) == [a] + Repeat(a, k - 1);
    assert Repeat(a, k)[1..] == Repeat(a, k - 1);
  }

  /** `k > 0` steps older are one step to the next entry back, then `k - 1` more. */
  lemma OlderFirst(s: EditorState, k: nat)
    requires Valid(s) && 0 < k && s.historyIndex < |s.history|
    ensures Run(s, Repeat(HistoryOlder, k)) ==
      Run(Showing(s, s.historyIndex + 1), Repeat(HistoryOlder, k - 1))
  {
    assert HasEntry(s, 1);
    RunRepeatCons(s, HistoryOlder, k);
  }

  /** `k > 0` steps newer are one step to the next entry forward, or out of
      browsing from index 1, then `k - 1` more. */
  lemma NewerFirst(s: EditorState, k: nat)
    requires Valid(s) && 0 < k && 0 < s.historyIndex
    ensures Run(s, Repeat(HistoryNewer, k)) ==
      Run(if s.historyIndex == 1 then Reset(s) else Showing(s, s.historyIndex - 1), Repeat(HistoryNewer, k - 1))
  {
    if s.historyIndex == 1 {
      assert !HasEntry(s, -1);
    } else {
      assert HasEntry(s, -1);
    }
    RunRepeatCons(s, HistoryNewer, k);
  }

  /** Which entry is shown depends only on the history. */
  lemma ShowingSameHistory(s: EditorState, t: EditorState, i: nat)
    requires Valid(s) && Valid(t) && s.history == t.history && 0 < i <= |s.history|
    ensures Showing(t, i) == Showing(s, i)
  {
  }

  /** `k` steps older from index `i` show the entry `i + k` back from the newest. */
  lemma {:induction false} OlderSteps(s: EditorState, k: nat)
    requires Valid(s) && 0 < k && s.historyIndex + k <= |s.history|
    ensures Run(s, Repeat(HistoryOlder, k)) == Showing(s, s.historyIndex + k)
    decreases k
  {
    var t := Showing(s, s.historyIndex + 1);
    OlderFirst(s, k);
    if k > 1 {
      OlderSteps(t, k - 1);
      ShowingSameHistory(s, t, s.historyIndex + k);
    }
  }

  /** `k` steps newer from index `i >= k` show the entry `i - k` back, or, when
      `k == i`, leave browsing with an empty line. */
  lemma {:induction false} NewerSteps(s: EditorState, k: nat)
    requires Valid(s) && 0 < k <= s.historyIndex
    ensures Run(s, Repeat(HistoryNewer, k)) ==
      if k == s.historyIndex then Reset(s) else Showing(s, s.historyIndex - k)
    decreases k
  {
    var i := s.historyIndex;
    NewerFirst(s, k);
    if i > 1 && k > 1 {
      var t := Showing(s, i - 1);
      NewerSteps(t, k - 1);
      if k < i {
        ShowingSameHistory(s, t, i - k);
      }
    }
  }

  /** From a fresh line, `k` steps older followed by `k` steps newer return to the
      fresh line, for every `k` up to the length of the history. */
  lemma HistoryRoundTrip(s: EditorState, k: nat)
    requires Valid(s) && s.line == [] && s.column == 0 && s.historyIndex == 0
    requires k <= |s.history|
    ensures Run(s, Repeat(HistoryOlder, k) + Repeat(HistoryNewer, k)) == s
  {
    RunAppend(s, Repeat(HistoryOlder, k), Repeat(HistoryNewer, k));
    if k > 0 {
      OlderSteps(s, k);
      NewerSteps(Run(s, Repeat(HistoryOlder, k)), k);
    }
  }

  /** Older steps past the oldest entry change nothing. */
  lemma {:induction false} OlderPastOldest(s: EditorState, k: nat)
    requires Valid(s) && s.historyIndex == |s.history|
    ensures Run(s, Repeat(HistoryOlder, k)) == s
    decreases k
  {
    if k > 0 {
      assert Repeat(HistoryOlder, k)[1..] == Repeat(HistoryOlder, k - 1);
      OlderPastOldest(s, k - 1);
    }
  }

  /** From a fresh line, any number of older steps at least the length of a
      non-empty history ends on the oldest entry. */
  lemma OlderSaturates(s: EditorState, k: nat)
    requires Valid(s) && s.historyIndex == 0 && 0 < |s.history| <= k
    ensures Run(s, Repeat(HistoryOlder, k)) == Showing(s, |s.history|)
  {
    var n := |s.history|;
    assert Repeat(HistoryOlder, k) == Repeat(HistoryOlder, n) + Repeat(HistoryOlder, k - n);
    RunAppend(s, Repeat(HistoryOlder, n), Repeat(HistoryOlder, k - n));
    OlderSteps(s, n);
    OlderPastOldest(Run(s, Repeat(HistoryOlder, n)), k - n);
  }

  /** A newer step while not browsing has no entry to show and clears the line. */
  lemma NewerWhileNotBrowsing(s: EditorState)
    requires Valid(s) && s.historyIndex == 0
    ensures Navigate(s, false) == Reset(s)
  {
  }
}
