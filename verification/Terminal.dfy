/** The terminal at the other end of the serial line.

    Rows are unbounded in width and number. Printable characters overwrite, LF moves down without
    moving sideways, and the two CSI sequences the kernel uses are understood. This is the reader of
    the output of boot/kernel.c, so that "what is on the screen" has a meaning of its own. */
module Terminal {
  import opened Texts

  datatype Mode = Ground | Escape | Csi(params: string)

  datatype Screen = Screen(rows: seq<string>, row: nat, col: nat, mode: Mode)

  function Blanks(n: nat): (s: string)
    ensures |s| == n && forall i :: 0 <= i < n ==> s[i] == ' '
  {
    seq(n, i => ' ')
  }

  /** `c` written into column `col`; the line grows with blanks as needed. */
  function Written(line: string, col: nat, c: char): (r: string)
    ensures |r| == if col < |line| then |line| else col + 1
    ensures forall i :: 0 <= i < |r| ==>
              r[i] == if i == col then c else if i < |line| then line[i] else ' '
  {
    if col < |line| then line[col := c] else line + Blanks(col - |line|) + [c]
  }

  function Feed(s: Screen, c: char): Screen
    requires s.row < |s.rows|
  {
    match s.mode
    case Ground =>
      if c == ESC then s.(mode := Escape)
      else if c == BS then s.(col := if s.col == 0 then 0 else s.col - 1)
      else if c == '\r' then s.(col := 0)
      else if c == '\n' then
        s.(row := s.row + 1, rows := if s.row + 1 < |s.rows| then s.rows else s.rows + [""])
      else if Printable(c) then
        s.(rows := s.rows[s.row := Written(s.rows[s.row], s.col, c)], col := s.col + 1)
      else s
    case Escape => s.(mode := if c == '[' then Csi("") else Ground)
    case Csi(params) =>
      if '0' <= c <= '9' || c == ';' then s.(mode := Csi(params + [c]))
      else if c == 'J' && params == "2" then s.(rows := seq(|s.rows|, i => ""), mode := Ground)
      else if c == 'H' && params == "" then s.(row := 0, col := 0, mode := Ground)
      else s.(mode := Ground)
  }

  /** The screen after receiving `out`. */
  function Render(s: Screen, out: string): (r: Screen)
    requires s.row < |s.rows|
    ensures r.row < |r.rows|
  {
    if out == "" then s else Feed(Render(s, out[..|out| - 1]), out[|out| - 1])
  }

  lemma {:induction false} RenderAppend(s: Screen, a: string, b: string)
    requires s.row < |s.rows|
    ensures Render(s, a + b) == Render(Render(s, a), b)
  {
    if b == "" {
      assert a + b == a;
    } else {
      assert (a + b)[..|a + b| - 1] == a + b[..|b| - 1];
      RenderAppend(s, a, b[..|b| - 1]);
    }
  }

  lemma RenderOne(s: Screen, c: char)
    requires s.row < |s.rows|
    ensures Render(s, [c]) == Feed(s, c)
  {
    assert [c][..0] == "";
  }

  /** What `serial_putc` sends for one character. */
  function Putc(c: char): string {
    if c == '\n' then "\n\r" else [c]
  }

  /** What `sys_write` sends for a text. */
  function Expand(text: string): string {
    if text == "" then "" else Expand(text[..|text| - 1]) + Putc(text[|text| - 1])
  }

  lemma {:induction false} ExpandAppend(a: string, b: string)
    ensures Expand(a + b) == Expand(a) + Expand(b)
  {
    if b == "" {
      assert a + b == a;
    } else {
      assert (a + b)[..|a + b| - 1] == a + b[..|b| - 1];
      ExpandAppend(a, b[..|b| - 1]);
    }
  }

  lemma ExpandOne(c: char)
    ensures Expand([c]) == Putc(c)
  {
    assert [c][..0] == "";
  }

  lemma {:induction false} ExpandWithoutNewline(s: string)
    requires '\n' !in s
    ensures Expand(s) == s
  {
    if s != "" {
      assert s[|s| - 1] in s;
      ExpandWithoutNewline(s[..|s| - 1]);
    }
  }

  // ---------------------------------------------------------------- the line under the cursor

  ghost predicate BlankFrom(line: string, col: nat) {
    forall i :: col <= i < |line| ==> line[i] == ' '
  }

  ghost predicate BlankBelow(s: Screen) {
    s.row < |s.rows| && forall r :: s.row < r < |s.rows| ==> BlankFrom(s.rows[r], 0)
  }

  /** The cursor's row reads `text` up to the cursor; the rest of it, and all below it, is blank. */
  ghost predicate Shows(s: Screen, text: string) {
    && s.mode == Ground && BlankBelow(s)
    && s.col == |text| <= |s.rows[s.row]|
    && s.rows[s.row][..s.col] == text
    && BlankFrom(s.rows[s.row], s.col)
  }

  lemma FeedPrintable(s: Screen, text: string, c: char)
    requires Shows(s, text) && Printable(c)
    ensures Shows(Feed(s, c), text + [c])
  {
    var line := Written(s.rows[s.row], s.col, c);
    assert line[..s.col + 1] == text + [c];
  }

  /** A newline, as the console sends it, from any column and whatever the row reads. */
  lemma FeedNewline(s: Screen)
    requires s.mode == Ground && BlankBelow(s)
    ensures Shows(Render(s, "\n\r"), "")
  {
    assert "\n\r"[..1] == "\n";
    RenderOne(s, '\n');
    var below := Feed(s, '\n');
    assert BlankFrom(below.rows[below.row], 0);
  }

  /** Rubbing out the last character leaves no trace of it. */
  lemma FeedRubout(s: Screen, text: string)
    requires Shows(s, text) && text != ""
    ensures Shows(Render(s, RUBOUT), text[..|text| - 1])
  {
    var back := Feed(s, BS);
    var wiped := Feed(back, ' ');
    RenderOne(s, BS);
    assert RUBOUT[..2] == [BS, ' '] && [BS, ' '][..1] == [BS];
    assert Render(s, [BS, ' ']) == wiped;
    assert Render(s, RUBOUT) == Feed(wiped, BS);
    assert wiped.rows[wiped.row][..|text| - 1] == text[..|text| - 1];
  }

  /** Erasing and homing the screen, from any position. */
  lemma FeedClear(s: Screen)
    requires s.mode == Ground && s.row < |s.rows|
    ensures Shows(Render(s, CLEAR), "")
  {
    var erase := [ESC, '[', '2', 'J'];
    assert CLEAR == erase + [ESC, '[', 'H'];
    RenderAppend(s, erase, [ESC, '[', 'H']);
    RenderErase(s);
    RenderHome(Render(s, erase));
  }

  lemma RenderErase(s: Screen)
    requires s.mode == Ground && s.row < |s.rows|
    ensures Render(s, [ESC, '[', '2', 'J']) == s.(rows := seq(|s.rows|, i => ""))
  {
    var out := [ESC, '[', '2', 'J'];
    assert out[..3] == [ESC, '[', '2'] && [ESC, '[', '2'][..2] == [ESC, '['] && [ESC, '['][..1] == [ESC];
    RenderOne(s, ESC);
    assert Render(s, [ESC, '[']).mode == Csi("");
    assert "" + ['2'] == "2";
    assert Render(s, [ESC, '[', '2']).mode == Csi("2");
  }

  lemma RenderHome(s: Screen)
    requires s.mode == Ground && s.row < |s.rows|
    ensures Render(s, [ESC, '[', 'H']) == s.(row := 0, col := 0)
  {
    var out := [ESC, '[', 'H'];
    assert out[..2] == [ESC, '['] && [ESC, '['][..1] == [ESC];
    RenderOne(s, ESC);
    assert Render(s, [ESC, '[']).mode == Csi("");
  }

  /** The line under the cursor after writing `text` behind `line`. */
  function LastLine(line: string, text: string): string {
    if text == "" then line
    else if text[|text| - 1] == '\n' then ""
    else LastLine(line, text[..|text| - 1]) + [text[|text| - 1]]
  }

  lemma {:induction false} RenderPlain(s: Screen, line: string, text: string)
    requires Shows(s, line) && Plain(text)
    ensures Shows(Render(s, Expand(text)), LastLine(line, text))
  {
    if text != "" {
      var front, c := text[..|text| - 1], text[|text| - 1];
      RenderPlain(s, line, front);
      var t := Render(s, Expand(front));
      RenderAppend(s, Expand(front), Putc(c));
      if c == '\n' { FeedNewline(t); } else { FeedPrintable(t, LastLine(line, front), c); RenderOne(t, c); }
    }
  }

  lemma {:induction false} LastLineOfPrintable(line: string, text: string)
    requires AllPrintable(text)
    ensures LastLine(line, text) == line + text
  {
    if text != "" { LastLineOfPrintable(line, text[..|text| - 1]); }
  }

  /** Whole lines bring the cursor back to the start of a blank row. */
  lemma RenderWholeLines(s: Screen, text: string)
    requires Shows(s, "") && WholeLines(text)
    ensures Shows(Render(s, Expand(text)), "")
  {
    RenderPlain(s, "", text);
  }
}
