/** The arithmetic of `render`: which part of the line is drawn after the prompt,
    whether the left-scroll indicator is drawn, and the column the screen cursor
    is moved to. The drawing calls themselves are terminal output and are left out. */
module Viewport {
  import opened Text

  /** The prompt `Quack> ` is 7 columns wide. */
  const PromptWidth: int := 7
  /** The columns `render` sets aside for the left-scroll indicator. */
  const ScrollReserve: int := 9
  /** What `renderLeftScroll` writes: ` < ` then ` ... `, 8 columns. */
  const ScrollIndicator: Bytes := [0x20, 0x3C, 0x20, 0x20, 0x2E, 0x2E, 0x2E, 0x20]

  datatype View = View(showScroll: bool, from: int, text: Bytes, cursor: int)

  /** PHP 8's `substr` for a non-negative offset: nothing from an offset at or past
      the end; a negative length leaves that many bytes off the end. */
  function Substr(s: Bytes, offset: nat, length: int): (r: Bytes)
    ensures offset <= |s| ==> offset + |r| <= |s| && r == s[offset..offset + |r|]
    ensures offset >= |s| ==> r == []
    ensures length >= 0 && offset <= |s| ==>
      |r| == if offset + length <= |s| then length else |s| - offset
    ensures length < 0 && offset <= |s| ==>
      |r| == if |s| + length <= offset then 0 else |s| + length - offset
  {
    if offset >= |s| then []
    else
      var end := if length < 0 then |s| + length else offset + length;
      if end <= offset then []
      else if end > |s| then s[offset..]
      else s[offset..end]
  }

  /** `render` for a terminal `width` columns wide. The indicator is drawn exactly
      when the cursor is at or past the workspace edge; the indicator's reserve
      then moves both the window start and the screen cursor right by 9. */
  function Render(line: Bytes, column: int, width: int): (v: View)
    ensures var workspace := width - PromptWidth;
      && (v.showScroll <==> column >= workspace)
      && v.from == column - workspace + (if v.showScroll then ScrollReserve else 0)
      && v.cursor == PromptWidth + column + (if v.showScroll then ScrollReserve else 0)
  {
    var workspace := width - PromptWidth;
    var showScroll := column >= workspace;
    var textSize := if showScroll then workspace - ScrollReserve else workspace;
    var from := column - textSize;
    var cursor := PromptWidth + (workspace - (textSize - column));
    var limit := if from <= 0 then 1 else 0;
    View(showScroll, from, Substr(line, if from < 0 then 0 else from, textSize - limit), cursor)
  }

  /** While the cursor is left of the workspace edge: no indicator, the window
      starts at the first byte and shows up to one byte less than the workspace,
      and the screen cursor sits over the cursor's byte, inside the terminal. */
  lemma RenderUnscrolled(line: Bytes, column: int, width: int)
    requires 0 <= column <= |line|
    requires column < width - PromptWidth
    ensures var v := Render(line, column, width);
      && !v.showScroll
      && v.text == line[..if |line| < width - PromptWidth - 1 then |line| else width - PromptWidth - 1]
      && v.cursor == PromptWidth + column
      && PromptWidth <= v.cursor < width
      && PromptWidth + |v.text| < width
  {
  }

  /** With the cursor at or past the workspace edge (and a terminal at least 16
      columns wide): the indicator is drawn and the window is the bytes just left
      of the cursor, so prompt, indicator and text fill all but the last column.
      The screen cursor is computed as 16 + column, to the right of the last column. */
  lemma RenderScrolled(line: Bytes, column: int, width: int)
    requires 0 <= column <= |line|
    requires width >= PromptWidth + ScrollReserve
    requires column >= width - PromptWidth
    ensures var v := Render(line, column, width);
      && v.showScroll
      && 0 < v.from <= column
      && v.text == line[v.from..column]
      && PromptWidth + |ScrollIndicator| + |v.text| == width - 1
      && v.cursor == PromptWidth + ScrollReserve + column
      && v.cursor >= width + ScrollReserve
  {
  }

  /** On an 80-column terminal the window stays at the first byte for every cursor
      position left of 73. */
  lemma RenderEighty(line: Bytes, column: int)
    requires 0 <= column <= |line| && column < 73
    ensures !Render(line, column, 80).showScroll
    ensures Render(line, column, 80).text == line[..if |line| < 72 then |line| else 72]
  {
    RenderUnscrolled(line, column, 80);
  }

  /** A cursor one byte further right never moves the window left. */
  lemma RenderWindowMonotone(line: Bytes, column: int, width: int)
    requires 0 <= column < |line|
    ensures var a, b := Render(line, column, width), Render(line, column + 1, width);
      (if a.from < 0 then 0 else a.from) <= (if b.from < 0 then 0 else b.from)
  {
  }
}
