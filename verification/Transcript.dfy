/** A terminal with endless paper: output only ever adds rows at the bottom, and
    the cursor keeps its absolute row; a clear or a repaint replaces the last 25.
    It is what the scrolling terminal of src/terminal/terminal.h must look like a
    window onto. */
module Transcript {

  const VGA_WIDTH := 80
  const VGA_HEIGHT := 25

  type Cell = c: int | 0 <= c < 0x1_0000
  type Color = c: int | 0 <= c < 0x100
  type Line = l: seq<Cell> | |l| == VGA_WIDTH ghost witness seq(VGA_WIDTH, _ => 0)

  /** A signed C char. */
  type CChar = c: int | -128 <= c < 128

  const NEWLINE: CChar := 10
  const RETURN: CChar := 13
  const TAB: CChar := 9
  const BACKSPACE: CChar := 8
  const SPACE: CChar := 32

  predicate Printable(c: CChar) {
    32 <= c < 127
  }

  /** A screen cell: the character in the low byte, the colour in the high byte. */
  function MakeEntry(c: CChar, color: Color): Cell
    requires 0 <= c
  {
    c + 256 * color
  }

  /** vga_make_color: the foreground in the low half of the byte. */
  function MakeColor(fg: nat, bg: nat): Color
    requires fg < 16 && bg < 16
  {
    fg + 16 * bg
  }

  lemma CellBytes(c: CChar, fg: nat, bg: nat)
    requires 0 <= c && fg < 16 && bg < 16
    ensures var w: nat := MakeEntry(c, MakeColor(fg, bg));
            w % 0x100 == c && w / 0x100 % 16 == fg && w / 0x1000 == bg
  {
    assert MakeEntry(c, MakeColor(fg, bg)) == (bg * 16 + fg) * 0x100 + c;
  }

  function Blank(color: Color): Line {
    seq(VGA_WIDTH, _ => MakeEntry(SPACE, color))
  }

  /** The paper so far, the cursor's column and absolute row, and the current colour. */
  datatype Paper = Paper(rows: seq<Line>, x: nat, row: nat, color: Color)

  /** The cursor is on one of the last 25 rows. */
  ghost predicate PaperOk(p: Paper) {
    p.x < VGA_WIDTH && |p.rows| - VGA_HEIGHT <= p.row < |p.rows| && VGA_HEIGHT <= |p.rows|
  }

  ghost function Ink(p: Paper, x: nat, v: Cell): seq<Line>
    requires p.row < |p.rows| && x < VGA_WIDTH
  {
    p.rows[p.row := p.rows[p.row][x := v]]
  }

  /** The character's own effect. */
  ghost function Strike(p: Paper, c: CChar): Paper
    requires PaperOk(p)
  {
    if c == NEWLINE then p.(x := 0, row := p.row + 1)
    else if c == RETURN then p.(x := 0)
    else if c == TAB then p.(x := (p.x + 8) / 8 * 8)
    else if c == BACKSPACE then
      if p.x > 0 then p.(x := p.x - 1, rows := Ink(p, p.x - 1, MakeEntry(SPACE, p.color))) else p
    else if Printable(c) then p.(x := p.x + 1, rows := Ink(p, p.x, MakeEntry(c, p.color)))
    else p
  }

  /** Then the cursor wraps at the right edge, and a row is added when it has run off the paper. */
  ghost function Advance(p: Paper): Paper {
    var q := if p.x >= VGA_WIDTH then p.(x := 0, row := p.row + 1) else p;
    if q.row >= |q.rows| then q.(rows := q.rows + [Blank(q.color)]) else q
  }

  ghost function Put(p: Paper, c: CChar): (q: Paper)
    requires PaperOk(p)
    ensures PaperOk(q)
  {
    Advance(Strike(p, c))
  }

  ghost function PutAll(p: Paper, s: seq<CChar>): (q: Paper)
    requires PaperOk(p)
    ensures PaperOk(q)
    decreases |s|
  {
    if s == [] then p else PutAll(Put(p, s[0]), s[1..])
  }

  lemma {:induction false} PutAllAppend(p: Paper, s: seq<CChar>, c: CChar)
    requires PaperOk(p)
    ensures PutAll(p, s + [c]) == Put(PutAll(p, s), c)
    decreases |s|
  {
    if s == [] {
      assert [c][1..] == [];
    } else {
      assert (s + [c])[1..] == s[1..] + [c];
      PutAllAppend(Put(p, s[0]), s[1..], c);
    }
  }

  /** The paper is a record: output never moves the cursor up, never removes a row and never changes a row
      above the cursor's. */
  lemma {:induction false} RecordKept(p: Paper, s: seq<CChar>)
    requires PaperOk(p)
    ensures var q := PutAll(p, s);
            && |p.rows| <= |q.rows| && p.row <= q.row && q.color == p.color
            && q.rows[..p.row] == p.rows[..p.row]
    decreases |s|
  {
    if s != [] {
      var q := Put(p, s[0]);
      assert q.rows[..p.row] == p.rows[..p.row];
      RecordKept(q, s[1..]);
      var r := PutAll(p, s);
      assert r.rows[..p.row] == r.rows[..q.row][..p.row] == q.rows[..q.row][..p.row];
    }
  }

  /** The cell at a position counted along the rows. */
  ghost function CellAt(rows: seq<Line>, pos: nat): Cell
    requires pos < VGA_WIDTH * |rows|
  {
    rows[pos / VGA_WIDTH][pos % VGA_WIDTH]
  }

  ghost function Position(p: Paper): nat {
    VGA_WIDTH * p.row + p.x
  }

  lemma PutGlyph(p: Paper, c: CChar)
    requires PaperOk(p) && Printable(c)
    ensures var q := Put(p, c);
            && Position(q) == Position(p) + 1
            && |p.rows| <= |q.rows|
            && CellAt(q.rows, Position(p)) == MakeEntry(c, p.color)
            && forall pos: nat :: pos < VGA_WIDTH * |p.rows| && pos != Position(p) ==>
                 CellAt(q.rows, pos) == CellAt(p.rows, pos)
  {
    var q := Put(p, c);
    assert Position(p) / VGA_WIDTH == p.row && Position(p) % VGA_WIDTH == p.x;
    forall pos: nat | pos < VGA_WIDTH * |p.rows| && pos != Position(p)
      ensures CellAt(q.rows, pos) == CellAt(p.rows, pos)
    {
      assert pos == VGA_WIDTH * (pos / VGA_WIDTH) + pos % VGA_WIDTH;
    }
  }

  ghost predicate PlainText(s: seq<CChar>) {
    forall i :: 0 <= i < |s| ==> Printable(s[i])
  }

  /** q is p with the text laid out from p's cursor on. */
  ghost predicate LaidOut(p: Paper, s: seq<CChar>, q: Paper)
    requires PlainText(s)
  {
    && Position(q) == Position(p) + |s| <= VGA_WIDTH * |q.rows|
    && |p.rows| <= |q.rows|
    && (forall n: nat :: n < |s| ==> CellAt(q.rows, Position(p) + n) == MakeEntry(s[n], p.color))
    && (forall pos: nat :: pos < VGA_WIDTH * |p.rows| && !(Position(p) <= pos < Position(p) + |s|) ==>
          CellAt(q.rows, pos) == CellAt(p.rows, pos))
  }

  /** Printable text of any length fills consecutive positions from the cursor on, across row ends, and
      changes no other cell that was on the paper. */
  lemma {:induction false} PutText(p: Paper, s: seq<CChar>)
    requires PaperOk(p) && PlainText(s)
    ensures LaidOut(p, s, PutAll(p, s))
    decreases |s|
  {
    if s != [] {
      hide Put;
      var m := |s| - 1;
      assert s == s[..m] + [s[m]];
      PutText(p, s[..m]);
      PutAllAppend(p, s[..m], s[m]);
      RecordKept(p, s[..m]);
      OneMore(p, s, PutAll(p, s[..m]), PutAll(p, s));
    }
  }

  lemma OneMore(p: Paper, s: seq<CChar>, r: Paper, q: Paper)
    requires PlainText(s) && s != [] && LaidOut(p, s[..|s| - 1], r) && PaperOk(r) && r.color == p.color
    requires q == Put(r, s[|s| - 1])
    ensures LaidOut(p, s, q)
  {
    hide Put, CellAt;
    var m := |s| - 1;
    PutGlyph(r, s[m]);
    forall n: nat | n < |s|
      ensures CellAt(q.rows, Position(p) + n) == MakeEntry(s[n], p.color)
    {
      if n < m {
        assert CellAt(r.rows, Position(p) + n) == MakeEntry(s[..m][n], p.color);
      }
    }
  }

  // ------------------------------------------------------ control characters

  /** The start of the next row, which is added, blank, if there is none. */
  ghost function NextRow(p: Paper): Paper {
    var blank: Line := seq(80, _ => 32 + 256 * p.color);
    Paper(if p.row + 1 < |p.rows| then p.rows else p.rows + [blank], 0, p.row + 1, p.color)
  }

  /** Line feed goes to the next row and return to the start of this one; a tab goes to the next multiple of 8, or
      to the next row beyond column 71, and changes no cell; a backspace steps back inside the row and leaves a
      space there; any other unprintable character does nothing. */
  lemma ControlChars(p: Paper, c: CChar)
    requires PaperOk(p) && !(32 <= c <= 126)
    ensures var q := Put(p, c);
            && (c == 10 ==> q == NextRow(p))
            && (c == 13 ==> q == p.(x := 0))
            && (c == 9 && p.x < 72 ==> q == p.(x := q.x) && q.x % 8 == 0 && p.x < q.x <= p.x + 8)
            && (c == 9 && p.x >= 72 ==> q == NextRow(p))
            && (c == 8 && p.x > 0 ==>
                  q == p.(x := p.x - 1, rows := p.rows[p.row := p.rows[p.row][p.x - 1 := 32 + 256 * p.color]]))
            && ((c == 8 && p.x == 0) || c !in {8, 9, 10, 13} ==> q == p)
  {
    assert p.x < 72 ==> (p.x + 8) / 8 * 8 <= 72;
    assert Blank(p.color) == seq(80, _ => 32 + 256 * p.color);
  }

  lemma PlainPut(p: Paper, c: CChar)
    requires PaperOk(p) && Printable(c) && p.x < 79
    ensures Put(p, c) == p.(x := p.x + 1, rows := Ink(p, p.x, MakeEntry(c, p.color)))
  {
    hide PutAll;
  }

  lemma BackspacePut(p: Paper)
    requires PaperOk(p) && p.x > 0
    ensures Put(p, 8) == p.(x := p.x - 1, rows := Ink(p, p.x - 1, MakeEntry(32, p.color)))
  {
    hide PutAll;
  }

  lemma InkTwice(p: Paper, v: Cell, w: Cell)
    requires PaperOk(p)
    ensures |Ink(p, p.x, v)| == |p.rows|
    ensures Ink(p.(x := p.x + 1, rows := Ink(p, p.x, v)), p.x, w) == Ink(p, p.x, w)
  {
    assert p.rows[p.row][p.x := v][p.x := w] == p.rows[p.row][p.x := w];
  }

  /** A backspace takes a character back: position as before, a space where the character was, all else the same. */
  lemma BackspaceUndoes(p: Paper, c: CChar)
    requires PaperOk(p) && 32 <= c <= 126 && p.x < 79
    ensures Put(Put(p, c), 8) == p.(rows := Ink(p, p.x, 32 + 256 * p.color))
  {
    hide Put, Ink;
    PlainPut(p, c);
    BackspacePut(Put(p, c));
    InkTwice(p, MakeEntry(c, p.color), MakeEntry(32, p.color));
  }

  lemma {:induction false} PutAllConcat(p: Paper, s: seq<CChar>, t: seq<CChar>)
    requires PaperOk(p)
    ensures PutAll(p, s + t) == PutAll(PutAll(p, s), t)
    decreases |t|
  {
    if t == [] {
      assert s + t == s;
    } else {
      var n := |t| - 1;
      assert t == t[..n] + [t[n]] && s + t == s + t[..n] + [t[n]];
      PutAllConcat(p, s, t[..n]);
      PutAllAppend(p, s + t[..n], t[n]);
      PutAllAppend(PutAll(p, s), t[..n], t[n]);
    }
  }

  /** Lines of text joined by line feeds. */
  ghost function Joined(lines: seq<seq<CChar>>): seq<CChar>
    requires lines != []
  {
    var n := |lines| - 1;
    if n == 0 then lines[0] else Joined(lines[..n]) + [10] + lines[n]
  }

  /** The text stands on row r from column x on. */
  ghost predicate Shown(rows: seq<Line>, r: nat, x: nat, text: seq<CChar>, color: Color) {
    && r < |rows| && x + |text| <= 80
    && forall j :: 0 <= j < |text| ==> 0 <= text[j] && rows[r][x + j] == text[j] + 256 * color
  }

  /** Printable lines that fit, the first one from the cursor's column on: line k ends up k rows below the cursor,
      all but the first from column 0 on. */
  ghost predicate LinesFit(p: Paper, lines: seq<seq<CChar>>) {
    && lines != []
    && forall k :: 0 <= k < |lines| ==> PlainText(lines[k]) && (if k == 0 then p.x else 0) + |lines[k]| < 80
  }

  lemma {:induction false} PutLines(p: Paper, lines: seq<seq<CChar>>)
    requires PaperOk(p) && LinesFit(p, lines)
    ensures var q, n := PutAll(p, Joined(lines)), |lines| - 1;
            && q.row == p.row + n && q.x == (if n == 0 then p.x else 0) + |lines[n]| && q.color == p.color
            && forall k :: 0 <= k <= n ==> Shown(q.rows, p.row + k, if k == 0 then p.x else 0, lines[k], p.color)
    decreases |lines|
  {
    hide Put, PutAll, Shown;
    var n := |lines| - 1;
    if n == 0 {
      PutRow(p, lines[0]);
    } else {
      var init := lines[..n];
      PutLines(p, init);
      var q1 := PutAll(p, Joined(init));
      var q2 := Put(q1, 10);
      var q := PutAll(q2, lines[n]);
      PutAllAppend(p, Joined(init), 10);
      PutAllConcat(p, Joined(init) + [10], lines[n]);
      ControlChars(q1, 10);
      PutRow(q2, lines[n]);
      forall k | 0 <= k < n
        ensures Shown(q.rows, p.row + k, if k == 0 then p.x else 0, lines[k], p.color)
      {
        assert Shown(q1.rows, p.row + k, if k == 0 then p.x else 0, init[k], p.color);
        ShownKept(q1.rows, q2.rows, q.rows, q2.row, p.row + k, if k == 0 then p.x else 0, lines[k], p.color);
      }
    }
  }

  lemma ShownKept(a: seq<Line>, b: seq<Line>, c: seq<Line>, kept: nat, r: nat, x: nat, text: seq<CChar>, color: Color)
    requires Shown(a, r, x, text, color) && r < kept <= |b| && kept <= |c|
    requires |a| <= |b| && b[..|a|] == a && c[..kept] == b[..kept]
    ensures Shown(c, r, x, text, color)
  {
    assert c[..kept][r] == b[..kept][r] && b[..|a|][r] == a[r];
  }

  /** One line that does not reach the right edge. */
  lemma PutRow(p: Paper, s: seq<CChar>)
    requires PaperOk(p) && PlainText(s) && p.x + |s| < 80
    ensures var q := PutAll(p, s);
            && PaperOk(q) && |p.rows| <= |q.rows| && q.rows[..p.row] == p.rows[..p.row]
            && q.row == p.row && q.x == p.x + |s| && q.color == p.color
            && Shown(q.rows, p.row, p.x, s, p.color)
  {
    hide PutAll;
    var q := PutAll(p, s);
    PutText(p, s);
    RecordKept(p, s);
    assert Position(q) == 80 * p.row + (p.x + |s|);
    forall j | 0 <= j < |s|
      ensures 0 <= s[j] && q.rows[p.row][p.x + j] == s[j] + 256 * p.color
    {
      var pos := Position(p) + j;
      assert CellAt(q.rows, pos) == MakeEntry(s[j], p.color);
      assert pos / 80 == p.row && pos % 80 == p.x + j;
    }
  }

  /** Clearing the screen blanks the last 25 rows and keeps what is above them. */
  ghost function Cleared(p: Paper): Paper
    requires PaperOk(p)
  {
    var top := |p.rows| - VGA_HEIGHT;
    Paper(p.rows[..top] + BlankScreen(p.color), 0, top, p.color)
  }

  /** A cleared screen is 25 rows of spaces in the current colour, with the cursor at its top left corner. */
  lemma ClearedExact(p: Paper, y: nat, x: nat)
    requires PaperOk(p) && y < |p.rows| && x < 80
    ensures var q, top := Cleared(p), |p.rows| - 25;
            && |q.rows| == |p.rows| && q.x == 0 && q.row == top && q.color == p.color
            && q.rows[y][x] == if y < top then p.rows[y][x] else 32 + 256 * p.color
  {
  }

  /** Painting over the screen replaces the last 25 rows and leaves the cursor. */
  ghost function Repainted(p: Paper, screen: seq<Line>): Paper
    requires PaperOk(p)
  {
    p.(rows := p.rows[..|p.rows| - VGA_HEIGHT] + screen)
  }

  ghost function BlankScreen(color: Color): seq<Line> {
    seq(VGA_HEIGHT, _ => Blank(color))
  }
}
