/** The scrolling terminal (src/terminal/terminal.h): a 25-row frame buffer and a
    circular store of the last 100 rows that left it. The ghost field paper is
    the endless transcript; Valid says that store and screen are a window onto
    it. */
module Terminal {
  import opened Bitmap
  import opened Transcript

  const SCROLLBACK_LINES := 100

  ghost function Row(cells: seq<Cell>, y: nat): Line
    requires VGA_WIDTH * y + VGA_WIDTH <= |cells|
  {
    cells[VGA_WIDTH * y..VGA_WIDTH * y + VGA_WIDTH]
  }

  /** A cell buffer as n rows. */
  ghost function Rows(cells: seq<Cell>, n: nat): seq<Line>
    requires |cells| == VGA_WIDTH * n
  {
    seq(n, y requires 0 <= y < n => Row(cells, y))
  }

  lemma StoreCell(cells: seq<Cell>, n: nat, y: nat, x: nat, v: Cell)
    requires |cells| == VGA_WIDTH * n && y < n && x < VGA_WIDTH
    ensures Rows(cells[VGA_WIDTH * y + x := v], n) == Rows(cells, n)[y := Rows(cells, n)[y][x := v]]
  {
    var after := cells[VGA_WIDTH * y + x := v];
    forall z | 0 <= z < n
      ensures Row(after, z) == if z == y then Row(cells, y)[x := v] else Row(cells, z)
    {
    }
  }

  lemma RowReplaced(before: seq<Cell>, after: seq<Cell>, n: nat, y: nat, line: Line)
    requires |before| == |after| == VGA_WIDTH * n && y < n
    requires forall i :: 0 <= i < |after| ==>
               after[i] == if VGA_WIDTH * y <= i < VGA_WIDTH * y + VGA_WIDTH then line[i - VGA_WIDTH * y] else before[i]
    ensures Rows(after, n) == Rows(before, n)[y := line]
  {
    forall z | 0 <= z < n
      ensures Row(after, z) == if z == y then line else Row(before, z)
    {
      forall x | 0 <= x < VGA_WIDTH
        ensures Row(after, z)[x] == (if z == y then line else Row(before, z))[x]
      {
        assert Row(after, z)[x] == after[VGA_WIDTH * z + x];
      }
    }
  }

  function RingIndex(head: nat, i: nat): nat {
    (head + i) % SCROLLBACK_LINES
  }

  /** The circular store read from its oldest row. */
  ghost function Ring(store: seq<Line>, head: nat, count: nat): seq<Line>
    requires |store| == SCROLLBACK_LINES
  {
    seq(count, i requires 0 <= i < count => store[RingIndex(head, i)])
  }

  ghost function ZeroRow(): Line {
    seq(VGA_WIDTH, _ => 0)
  }

  /** The ring grows from the start of the store, whose other rows are still as the kernel was loaded, until
      it is full. */
  ghost predicate RingOk(store: seq<Line>, head: nat, count: nat)
    requires |store| == SCROLLBACK_LINES
  {
    && head < SCROLLBACK_LINES && count <= SCROLLBACK_LINES
    && (count < SCROLLBACK_LINES ==> head == 0 && forall j :: count <= j < SCROLLBACK_LINES ==> store[j] == ZeroRow())
  }

  /** Storing at the end of the ring appends a row, or replaces the oldest one by the newest. */
  lemma RingPush(store: seq<Line>, head: nat, count: nat, l: Line)
    requires |store| == SCROLLBACK_LINES && head < SCROLLBACK_LINES && count <= SCROLLBACK_LINES
    ensures var after := store[RingIndex(head, count) := l];
            if count < SCROLLBACK_LINES then Ring(after, head, count + 1) == Ring(store, head, count) + [l]
            else Ring(after, RingIndex(head, 1), count) == Ring(store, head, count)[1..] + [l]
    ensures RingOk(store, head, count) ==>
            var after := store[RingIndex(head, count) := l];
            if count < SCROLLBACK_LINES then RingOk(after, head, count + 1)
            else RingOk(after, RingIndex(head, 1), count)
  {
    var after := store[RingIndex(head, count) := l];
    if count < SCROLLBACK_LINES {
      forall i | 0 <= i < count
        ensures RingIndex(head, i) != RingIndex(head, count)
      {
        RingApart(head, i, count);
      }
      assert Ring(after, head, count + 1) == Ring(store, head, count) + [l];
    } else {
      forall i | 0 <= i < count
        ensures after[RingIndex(RingIndex(head, 1), i)] == if i < count - 1 then Ring(store, head, count)[i + 1] else l
      {
        RingTurn(head, i);
        if i < count - 1 {
          RingApart(head, i + 1, count);
        }
      }
      assert Ring(after, RingIndex(head, 1), count) == Ring(store, head, count)[1..] + [l];
    }
  }

  /** Different offsets of less than one turn reach different places. */
  lemma RingApart(head: nat, i: nat, j: nat)
    requires head < SCROLLBACK_LINES && i < j <= SCROLLBACK_LINES && (j == SCROLLBACK_LINES ==> i > 0)
    ensures RingIndex(head, i) != RingIndex(head, j)
  {
  }

  lemma RingTurn(head: nat, i: nat)
    requires head < SCROLLBACK_LINES && i < SCROLLBACK_LINES
    ensures RingIndex(RingIndex(head, 1), i) == RingIndex(head, i + 1)
  {
  }

  /** A row whose first x cells are blank. */
  ghost function Wiped(l: Line, x: nat, color: Color): Line
    requires x <= VGA_WIDTH
  {
    Blank(color)[..x] + l[x..]
  }

  lemma WipeBounds(was: seq<Line>, color: Color)
    requires |was| == VGA_HEIGHT
    ensures was[24 := Wiped(was[24], 0, color)] == was
    ensures Wiped(was[24], VGA_WIDTH, color) == Blank(color)
  {
  }

  lemma WipeStep(was: seq<Line>, x: nat, color: Color)
    requires |was| == VGA_HEIGHT && x < VGA_WIDTH
    ensures var now := was[24 := Wiped(was[24], x, color)];
            now[24 := now[24][x := MakeEntry(SPACE, color)]] == was[24 := Wiped(was[24], x + 1, color)]
  {
    assert Wiped(was[24], x, color)[x := MakeEntry(SPACE, color)] == Wiped(was[24], x + 1, color);
  }

  lemma StoreHeight(cells: seq<Cell>)
    requires |cells| == 8000
    ensures |Rows(cells, SCROLLBACK_LINES)| == SCROLLBACK_LINES
  {
  }

  lemma ScreenHeight(cells: seq<Cell>)
    requires |cells| == 2000
    ensures |Rows(cells, VGA_HEIGHT)| == VGA_HEIGHT
  {
  }

  /** The rows when the first y of them have been overwritten by the one below. */
  ghost function Shifted(was: seq<Line>, y: nat): seq<Line>
    requires y < |was|
  {
    was[1..y + 1] + was[y..]
  }

  lemma ShiftStep(was: seq<Line>, y: nat)
    requires y + 1 < |was|
    ensures var now := Shifted(was, y);
            |now| == |was| && now[y + 1] == was[y + 1] && now[y := was[y + 1]] == Shifted(was, y + 1)
  {
  }

  lemma ShiftBounds(was: seq<Line>)
    requires |was| == VGA_HEIGHT
    ensures Shifted(was, 0) == was && Shifted(was, 24) == was[1..] + [was[24]]
  {
  }

  lemma NothingSaved(store: seq<Line>, rows: seq<Line>)
    requires |store| == SCROLLBACK_LINES && |rows| == VGA_HEIGHT
    ensures Ring(store, 0, 0) == Tail(rows[..0], 0) && Tail(rows, VGA_HEIGHT) == rows
  {
  }

  /** The last n rows of a list. */
  ghost function Tail(rows: seq<Line>, n: nat): seq<Line>
    requires n <= |rows|
  {
    rows[|rows| - n..]
  }

  /** The first row a refresh shows, counted back from the newest saved row (1 back). */
  function FirstShown(viewOffset: nat): nat {
    if viewOffset < VGA_HEIGHT then VGA_HEIGHT - viewOffset else viewOffset
  }

  function LinesToShow(viewOffset: nat): nat {
    if viewOffset < VGA_HEIGHT then VGA_HEIGHT - viewOffset else VGA_HEIGHT
  }

  /** The 25 rows a refresh paints. It starts FirstShown rows back; where fewer rows are saved it reads rows of
      the store that were never written, and what it does not reach is blank. */
  ghost function Painted(history: seq<Line>, offset: nat, color: Color): seq<Line> {
    seq(VGA_HEIGHT, i requires 0 <= i < VGA_HEIGHT => PaintedRow(history, offset, color, i))
  }

  ghost function PaintedRow(history: seq<Line>, offset: nat, color: Color, i: nat): Line
    requires i < VGA_HEIGHT
  {
    var first := FirstShown(offset);
    if i >= LinesToShow(offset) || i >= |history| then Blank(color)
    else if first <= |history| + i then history[|history| + i - first]
    else ZeroRow()
  }

  /** The rows that start offset rows above the last 25: what a view that far up should show. */
  ghost function Window(rows: seq<Line>, offset: nat): seq<Line>
    requires VGA_HEIGHT + offset <= |rows|
  {
    rows[|rows| - VGA_HEIGHT - offset..][..VGA_HEIGHT]
  }

  class Terminal {
    const framebuffer: array<Cell>
    const scrollbackBuffer: array<Cell>
    var cursorX: nat
    var cursorY: nat
    var color: Color
    var scrollbackHead: nat   // index of the oldest row
    var scrollbackCount: nat  // rows in the store
    var viewOffset: Word
    var inScrollbackMode: bool
    ghost var paper: Paper

    ghost predicate Shaped()
    {
      framebuffer.Length == 2000 && scrollbackBuffer.Length == 8000 && framebuffer != scrollbackBuffer
    }

    ghost function Screen(): seq<Line>
      requires Shaped()
      reads framebuffer
    {
      Rows(framebuffer[..], VGA_HEIGHT)
    }

    ghost function Store(): seq<Line>
      requires Shaped()
      reads scrollbackBuffer
    {
      Rows(scrollbackBuffer[..], SCROLLBACK_LINES)
    }

    /** The saved rows, oldest first. */
    ghost function History(): seq<Line>
      requires Shaped()
      reads this`scrollbackHead, this`scrollbackCount, scrollbackBuffer
    {
      Ring(Store(), scrollbackHead, scrollbackCount)
    }

    /** The rows of the transcript above the screen. */
    ghost function Above(): seq<Line>
      requires VGA_HEIGHT <= |paper.rows|
      reads this`paper
    {
      paper.rows[..|paper.rows| - VGA_HEIGHT]
    }

    /** The store holds the last rows above the screen: all of them until there are 100. */
    ghost predicate HistoryOk()
      requires Shaped() && VGA_HEIGHT <= |paper.rows|
      reads this, scrollbackBuffer
    {
      && RingOk(Store(), scrollbackHead, scrollbackCount)
      && scrollbackCount == (if |Above()| < SCROLLBACK_LINES then |Above()| else SCROLLBACK_LINES)
      && History() == Tail(Above(), scrollbackCount)
    }

    ghost predicate CursorOk()
      reads this
    {
      && PaperOk(paper)
      && cursorX == paper.x && cursorX < VGA_WIDTH
      && cursorY < VGA_HEIGHT && cursorY + |paper.rows| - VGA_HEIGHT == paper.row
      && color == paper.color
    }

    ghost predicate ModeOk()
      reads this
    {
      viewOffset <= scrollbackCount && (!inScrollbackMode ==> viewOffset == 0)
    }

    /** Outside scrollback mode saved rows and screen together are the last rows of the transcript. */
    ghost predicate Valid()
      reads this, framebuffer, scrollbackBuffer
    {
      && Shaped() && CursorOk() && HistoryOk() && ModeOk()
      && (!inScrollbackMode ==> Screen() == Tail(paper.rows, VGA_HEIGHT))
    }

    /** terminal_init, up to the greeting. */
    constructor ()
      ensures Valid() && !inScrollbackMode
      ensures paper == Paper(BlankScreen(7), 0, 0, 7)
      ensures fresh(framebuffer) && fresh(scrollbackBuffer)
    {
      framebuffer := new Cell[2000](_ => 0);
      scrollbackBuffer := new Cell[8000](_ => 0);
      cursorX, cursorY := 0, 0;
      color := 7; // light grey on black
      scrollbackHead, scrollbackCount, viewOffset := 0, 0, 0;
      inScrollbackMode := false;
      paper := Paper(BlankScreen(7), 0, 0, 7);
      new;
      hide Valid, Rows, RingOk, BlankScreen;
      ZeroStore(scrollbackBuffer[..]);
      FirstScreen();
    }

    /** The first clear of terminal_init. */
    method FirstScreen()
      requires Shaped() && RingOk(Store(), scrollbackHead, scrollbackCount)
      requires cursorX == cursorY == scrollbackHead == scrollbackCount == viewOffset == 0
      requires !inScrollbackMode && paper == Paper(BlankScreen(color), 0, 0, color)
      modifies framebuffer
      ensures Valid()
    {
      hide Rows, Ring, RingOk, BlankScreen, Tail;
      BlankRows(color);
      BlankFramebuffer();
      StoreHeight(scrollbackBuffer[..]);
      NothingSaved(Store(), paper.rows);
    }

    /** memcpy of one row. */
    static method CopyRow(dst: array<Cell>, ghost n: nat, dy: nat, src: array<Cell>, ghost m: nat, sy: nat)
      requires dst.Length == VGA_WIDTH * n && src.Length == VGA_WIDTH * m
      requires dy < n && sy < m && (dst != src || dy != sy)
      modifies dst
      ensures Rows(dst[..], n) == old(Rows(dst[..], n))[dy := old(Rows(src[..], m)[sy])]
    {
      ghost var line := Row(src[..], sy);
      var i := 0;
      while i < VGA_WIDTH
        invariant 0 <= i <= VGA_WIDTH
        invariant Row(src[..], sy) == line
        invariant forall j :: 0 <= j < dst.Length ==>
                    dst[j] == if VGA_WIDTH * dy <= j < VGA_WIDTH * dy + i then line[j - VGA_WIDTH * dy] else old(dst[j])
      {
        assert Row(src[..], sy)[i] == src[VGA_WIDTH * sy + i];
        dst[VGA_WIDTH * dy + i] := src[VGA_WIDTH * sy + i];
        assert dst == src ==> Row(src[..], sy) == line;
        i := i + 1;
      }
      RowReplaced(old(dst[..]), dst[..], n, dy, line);
    }

    /** The clearing loop. */
    method BlankFramebuffer()
      requires Shaped()
      modifies framebuffer
      ensures Screen() == BlankScreen(color)
    {
      var i := 0;
      while i < VGA_WIDTH * VGA_HEIGHT
        invariant 0 <= i <= 2000
        invariant forall j :: 0 <= j < i ==> framebuffer[j] == MakeEntry(SPACE, color)
      {
        framebuffer[i] := MakeEntry(SPACE, color);
        i := i + 1;
      }
      forall y | 0 <= y < VGA_HEIGHT
        ensures Row(framebuffer[..], y) == Blank(color)
      {
      }
    }

    /** terminal_clear. */
    method Clear()
      requires Shaped() && PaperOk(paper) && color == paper.color
      modifies this`cursorX, this`cursorY, this`paper, framebuffer
      ensures CursorOk() && paper == Cleared(old(paper))
      ensures Screen() == Tail(paper.rows, VGA_HEIGHT)
      ensures Above() == old(Above())
      ensures old(Valid()) ==> Valid()
    {
      hide Rows, Ring, BlankScreen, Tail, Cleared;
      ClearedParts(paper);
      BlankFramebuffer();
      cursorX, cursorY := 0, 0;
      paper := Cleared(paper);
    }

    /** save_line_to_scrollback. */
    method SaveLine(lineNum: nat)
      requires Shaped() && RingOk(Store(), scrollbackHead, scrollbackCount)
      modifies this`scrollbackHead, this`scrollbackCount, scrollbackBuffer
      ensures RingOk(Store(), scrollbackHead, scrollbackCount)
      ensures lineNum >= VGA_HEIGHT ==> scrollbackCount == old(scrollbackCount) && History() == old(History())
      ensures lineNum < VGA_HEIGHT ==>
                var room := old(scrollbackCount) < SCROLLBACK_LINES;
                && scrollbackCount == (if room then old(scrollbackCount) + 1 else old(scrollbackCount))
                && History() == (if room then old(History()) else old(History())[1..])
                                + [Screen()[lineNum]]
    {
      hide Rows;
      if lineNum >= VGA_HEIGHT {
        return;
      }
      ScreenHeight(framebuffer[..]);
      StoreHeight(scrollbackBuffer[..]);
      var bufferLine := RingIndex(scrollbackHead, scrollbackCount);
      ghost var store := Store();
      RingPush(store, scrollbackHead, scrollbackCount, Screen()[lineNum]);
      CopyRow(scrollbackBuffer, SCROLLBACK_LINES, bufferLine, framebuffer, VGA_HEIGHT, lineNum);
      if scrollbackCount < SCROLLBACK_LINES {
        scrollbackCount := scrollbackCount + 1;
      } else {
        scrollbackHead := RingIndex(scrollbackHead, 1);
      }
    }

    /** A store to the frame buffer. */
    method PutCell(y: nat, x: nat, v: Cell)
      requires Shaped() && y < VGA_HEIGHT && x < VGA_WIDTH
      modifies framebuffer
      ensures Screen() == old(Screen())[y := old(Screen())[y][x := v]]
    {
      ghost var cells := framebuffer[..];
      StoreCell(cells, VGA_HEIGHT, y, x, v);
      framebuffer[y * VGA_WIDTH + x] := v;
      assert framebuffer[..] == cells[VGA_WIDTH * y + x := v];
    }

    /** The moving loop of scroll_display. */
    method ShiftUp()
      requires Shaped()
      modifies framebuffer
      ensures Screen() == old(Screen())[1..] + [old(Screen())[24]]
    {
      hide Rows, Shifted;
      ghost var was := Screen();
      ScreenHeight(framebuffer[..]);
      ShiftBounds(was);
      var y := 0;
      while y < VGA_HEIGHT - 1
        invariant 0 <= y <= 24
        invariant Screen() == Shifted(was, y)
      {
        ShiftStep(was, y);
        CopyRow(framebuffer, VGA_HEIGHT, y, framebuffer, VGA_HEIGHT, y + 1);
        y := y + 1;
      }
    }

    /** Its clearing loop. */
    method BlankLastRow()
      requires Shaped()
      modifies framebuffer
      ensures Screen() == old(Screen())[24 := Blank(color)]
    {
      hide Rows;
      ghost var was := Screen();
      var x := 0;
      ScreenHeight(framebuffer[..]);
      WipeBounds(was, color);
      while x < VGA_WIDTH
        invariant 0 <= x <= VGA_WIDTH
        invariant Screen() == was[24 := Wiped(was[24], x, color)]
      {
        WipeStep(was, x, color);
        PutCell(24, x, MakeEntry(SPACE, color));
        x := x + 1;
      }
    }

    /** scroll_display: the top row goes to the store, and a blank row comes in at the bottom. */
    method ScrollDisplay()
      requires Tracking()
      modifies this`scrollbackHead, this`scrollbackCount, this`paper, framebuffer, scrollbackBuffer
      ensures paper == old(paper).(rows := old(paper).rows + [Blank(color)])
      ensures Shaped() && HistoryOk() && Screen() == Tail(paper.rows, VGA_HEIGHT)
      ensures old(scrollbackCount) <= scrollbackCount
    {
      hide Rows, Ring, Tail;
      ghost var p, history, count := paper, History(), scrollbackCount;
      PaperScrolls(p.rows, history, count, Blank(color));
      ScreenHeight(framebuffer[..]);
      SaveLine(0);
      ShiftUp();
      BlankLastRow();
      paper := paper.(rows := paper.rows + [Blank(color)]);
      assert Above() == (p.rows + [Blank(color)])[..|p.rows| + 1 - VGA_HEIGHT];
      assert History() == Tail(Above(), scrollbackCount);
    }

    /** What holds while a character is being put: the cursor may have run off the right or the bottom edge. */
    ghost predicate Tracking()
      reads this, framebuffer, scrollbackBuffer
    {
      && Shaped() && VGA_HEIGHT <= |paper.rows|
      && cursorX == paper.x && cursorY + |paper.rows| - VGA_HEIGHT == paper.row
      && color == paper.color
      && HistoryOk()
      && Screen() == Tail(paper.rows, VGA_HEIGHT)
    }

    /** The switch of terminal_putchar. */
    method StrikeChar(c: CChar)
      requires Tracking() && PaperOk(paper)
      modifies this`cursorX, this`cursorY, this`paper, framebuffer
      ensures Tracking()
      ensures paper == Strike(old(paper), c)
    {
      hide Rows, Ring, Tail, Ink;
      ghost var p := paper;
      if c == NEWLINE {
        cursorX := 0;
        cursorY := cursorY + 1;
      } else if c == RETURN {
        cursorX := 0;
      } else if c == TAB {
        cursorX := (cursorX + 8) / 8 * 8;
      } else if c == BACKSPACE {
        if cursorX > 0 {
          cursorX := cursorX - 1;
          InkOnScreen(p, cursorX, MakeEntry(SPACE, color));
          PutCell(cursorY, cursorX, MakeEntry(SPACE, color));
        }
      } else if c >= 32 && c < 127 {
        InkOnScreen(p, cursorX, MakeEntry(c, color));
        PutCell(cursorY, cursorX, MakeEntry(c, color));
        cursorX := cursorX + 1;
      }
      paper := Strike(paper, c);
    }

    /** The line wrap and the scroll at the end of terminal_putchar. */
    method Settle()
      requires Tracking() && cursorX <= VGA_WIDTH && cursorY <= VGA_HEIGHT
      requires cursorX == VGA_WIDTH ==> cursorY < VGA_HEIGHT
      requires !inScrollbackMode && viewOffset == 0
      modifies this`cursorX, this`cursorY, this`scrollbackHead, this`scrollbackCount, this`paper
      modifies framebuffer, scrollbackBuffer
      ensures Valid()
      ensures paper == Advance(old(paper))
    {
      hide Rows, Ring, Tail;
      if cursorX >= VGA_WIDTH {
        cursorX := 0;
        cursorY := cursorY + 1;
        paper := paper.(x := 0, row := paper.row + 1);
      }
      if cursorY >= VGA_HEIGHT {
        ScrollDisplay();
        cursorY := VGA_HEIGHT - 1;
      }
    }

    /** terminal_putchar. The transcript advances by the character, after a clear if the terminal was in
        scrollback mode. */
    method PutChar(c: CChar)
      requires Valid()
      modifies this, framebuffer, scrollbackBuffer
      ensures Valid() && !inScrollbackMode
      ensures paper == Put(if old(inScrollbackMode) then Cleared(old(paper)) else old(paper), c)
    {
      hide Rows, Ring, Tail, Strike, Advance, Cleared;
      if inScrollbackMode {
        ScrollBottom();
      }
      StrikeBounds(paper, c);
      StrikeChar(c);
      Settle();
    }

    /** terminal_write. */
    method Write(data: seq<CChar>)
      requires Valid()
      modifies this, framebuffer, scrollbackBuffer
      ensures Valid()
      ensures paper == PutAll(if old(inScrollbackMode) && data != [] then Cleared(old(paper)) else old(paper), data)
    {
      hide Put, PutAll, Cleared, HistoryOk;
      ghost var p := if inScrollbackMode && data != [] then Cleared(paper) else paper;
      ClearedOk(paper);
      PutAllNone(p);
      var i := 0;
      while i < |data|
        invariant 0 <= i <= |data|
        invariant Valid() && (i > 0 ==> !inScrollbackMode)
        invariant i == 0 ==> paper == old(paper) && inScrollbackMode == old(inScrollbackMode)
        invariant i > 0 || !inScrollbackMode ==> paper == PutAll(p, data[..i])
      {
        assert i == 0 ==> data[..i] == [];
        assert data[..i + 1] == data[..i] + [data[i]];
        PutAllAppend(p, data[..i], data[i]);
        PutChar(data[i]);
        i := i + 1;
      }
      assert data[..i] == data;
    }

    /** terminal_setcolor. */
    method SetColor(fg: nat, bg: nat)
      requires Valid() && fg < 16 && bg < 16
      modifies this`color, this`paper
      ensures Valid() && paper == old(paper).(color := MakeColor(fg, bg))
    {
      hide Rows, Ring, Tail;
      color := MakeColor(fg, bg);
      paper := paper.(color := color);
    }

    /** terminal_setcursor. */
    method SetCursor(x: Word, y: Word)
      requires Valid()
      modifies this`cursorX, this`cursorY, this`paper
      ensures Valid()
      ensures paper == if x < VGA_WIDTH && y < VGA_HEIGHT
                       then old(paper).(x := x, row := |old(paper).rows| - VGA_HEIGHT + y) else old(paper)
    {
      hide Rows, Ring, Tail;
      if x < VGA_WIDTH && y < VGA_HEIGHT {
        cursorX := x;
        cursorY := y;
        paper := paper.(x := x, row := |paper.rows| - VGA_HEIGHT + y);
      }
    }

    // ------------------------------------------------------- scrollback mode

    /** The screen shows what a refresh paints at the current offset. */
    ghost predicate ShowsHistory()
      requires Shaped()
      reads this`viewOffset, this`scrollbackHead, this`scrollbackCount, this`color, framebuffer, scrollbackBuffer
    {
      Screen() == Painted(History(), viewOffset, color)
    }

    /** refresh_from_scrollback. */
    method Refresh()
      requires Shaped() && RingOk(Store(), scrollbackHead, scrollbackCount) && viewOffset <= scrollbackCount
      modifies framebuffer
      ensures ShowsHistory()
    {
      hide Rows, Ring, BlankScreen, RowShown;
      BlankRows(color);
      StoreHeight(scrollbackBuffer[..]);
      RingLength(Store(), scrollbackHead, scrollbackCount);
      BlankFramebuffer();
      var linesToShow: nat := VGA_HEIGHT;
      var startLine: Word := 0;
      if scrollbackCount > 0 {
        if viewOffset < VGA_HEIGHT {
          linesToShow := VGA_HEIGHT - viewOffset;
          startLine := (scrollbackCount - linesToShow) % WORD_LIMIT;
        } else {
          startLine := (scrollbackCount - viewOffset) % WORD_LIMIT;
          linesToShow := VGA_HEIGHT;
        }
        CopyHistory(linesToShow, startLine);
      }
      ScreenHeight(framebuffer[..]);
      forall i | 0 <= i < VGA_HEIGHT
        ensures Screen()[i] == PaintedRow(History(), viewOffset, color, i)
      {
        if i < LinesToShow(viewOffset) && i < scrollbackCount {
          ShownRow(Store(), scrollbackHead, scrollbackCount, viewOffset, i);
        }
      }
    }

    /** Its copying loop. */
    method CopyHistory(linesToShow: nat, startLine: Word)
      requires Shaped() && linesToShow <= VGA_HEIGHT && scrollbackCount < WORD_LIMIT && scrollbackHead < WORD_LIMIT
      requires Screen() == BlankScreen(color)
      modifies framebuffer
      ensures forall i :: 0 <= i < VGA_HEIGHT ==>
                Screen()[i] == if i < linesToShow && i < scrollbackCount
                               then Store()[RowShown(scrollbackHead, startLine, i)] else Blank(color)
    {
      hide Rows, Ring, BlankScreen;
      BlankRows(color);
      StoreHeight(scrollbackBuffer[..]);
      ghost var store := Store();
      var i := 0;
      while i < linesToShow && i < scrollbackCount
        invariant 0 <= i <= linesToShow && i <= scrollbackCount
        invariant |Screen()| == VGA_HEIGHT && Store() == store
        invariant forall j :: i <= j < VGA_HEIGHT ==> Screen()[j] == Blank(color)
        invariant forall j :: 0 <= j < i ==> Screen()[j] == store[RowShown(scrollbackHead, startLine, j)]
      {
        var scrollbackLine := RowShown(scrollbackHead, startLine, i);
        CopyRow(framebuffer, VGA_HEIGHT, i, scrollbackBuffer, SCROLLBACK_LINES, scrollbackLine);
        i := i + 1;
      }
    }

    /** terminal_scrollup. Where it ends outside scrollback mode, what the refresh has painted overwrites the live
        rows of the transcript. */
    method ScrollUp(lines: Word)
      requires Valid()
      modifies this`viewOffset, this`inScrollbackMode, this`paper, framebuffer
      ensures Valid() && ShowsHistory()
      ensures viewOffset == ScrolledTo(old(viewOffset), lines, scrollbackCount)
      ensures inScrollbackMode <==> viewOffset > 0
      ensures paper == ScrolledUp(old(paper), History(), viewOffset)
      ensures scrollbackCount == 0 ==> paper.rows == Screen() == BlankScreen(color)
    {
      hide Rows, Ring, RingOk, Tail, Painted, Repainted, BlankScreen;
      var maxOffset := scrollbackCount;
      viewOffset := AddWord(viewOffset, lines);
      if viewOffset > maxOffset {
        viewOffset := maxOffset;
      }
      inScrollbackMode := viewOffset > 0;
      Refresh();
      ScreenHeight(framebuffer[..]);
      StoreHeight(scrollbackBuffer[..]);
      RingLength(Store(), scrollbackHead, scrollbackCount);
      RepaintedParts(paper, Screen());
      NothingPainted(color);
      paper := ScrolledUp(paper, History(), viewOffset);
    }

    /** terminal_scrolldown. */
    method ScrollDown(lines: Word)
      requires Valid()
      modifies this`viewOffset, this`inScrollbackMode, this`cursorX, this`cursorY, this`paper, framebuffer
      ensures Valid()
      ensures viewOffset == ScrolledBack(old(viewOffset), lines)
      ensures inScrollbackMode <==> viewOffset > 0
      ensures inScrollbackMode ==> ShowsHistory() && paper == old(paper)
      ensures !inScrollbackMode ==> paper == Cleared(old(paper))
    {
      hide Rows, Ring, Tail, ShowsHistory, Cleared;
      if viewOffset >= lines {
        viewOffset := viewOffset - lines;
      } else {
        viewOffset := 0;
      }
      inScrollbackMode := viewOffset > 0;
      if !inScrollbackMode {
        Clear();
      } else {
        Refresh();
      }
    }

    /** terminal_scrolltop. */
    method ScrollTop()
      requires Valid()
      modifies this`viewOffset, this`inScrollbackMode, framebuffer
      ensures Valid() && ShowsHistory()
      ensures viewOffset == scrollbackCount && inScrollbackMode
    {
      hide Rows, Ring, Tail, ShowsHistory;
      viewOffset := scrollbackCount;
      inScrollbackMode := true;
      Refresh();
    }

    /** terminal_scrollbottom. */
    method ScrollBottom()
      requires Valid()
      modifies this`viewOffset, this`inScrollbackMode, this`cursorX, this`cursorY, this`paper, framebuffer
      ensures Valid() && !inScrollbackMode
      ensures paper == Cleared(old(paper))
    {
      hide Rows, Ring, Tail, Cleared;
      viewOffset := 0;
      inScrollbackMode := false;
      Clear();
    }

    /** While scrolled back by 25 rows or more, the screen is exactly the window of the transcript that starts
        viewOffset rows above the live screen. */
    lemma ViewIsTranscript()
      requires Valid() && ShowsHistory() && viewOffset >= VGA_HEIGHT
      ensures VGA_HEIGHT + viewOffset <= |paper.rows|
      ensures Screen() == Window(paper.rows, viewOffset)
    {
      hide Rows, Ring, RingOk, Painted, Window;
      StoreHeight(scrollbackBuffer[..]);
      RingLength(Store(), scrollbackHead, scrollbackCount);
      PaintedWindow(paper.rows, History(), viewOffset, color);
    }

    /** And only then: whatever the offset, 0 included, a refresh at an offset below 25 paints a wrong first row,
        provided the saved rows differ from each other and from an unwritten row, and at offset 0 the live top row
        from all of these and from a blank one. */
    lemma ViewExact(offset: nat)
      requires Valid() && offset <= scrollbackCount
      requires Distinct(History()) && ZeroRow() !in History()
      requires offset == 0 ==> paper.rows[|paper.rows| - VGA_HEIGHT] !in History() + [ZeroRow(), Blank(color)]
      ensures VGA_HEIGHT + offset <= |paper.rows|
      ensures var painted, wanted := Painted(History(), offset, color), Window(paper.rows, offset);
              && |painted| == |wanted| == VGA_HEIGHT
              && (painted[0] == wanted[0] <==> offset >= VGA_HEIGHT)
              && (painted == wanted <==> offset >= VGA_HEIGHT)
    {
      hide Rows, Ring, RingOk, Painted, Window, Tail, Distinct, Blank, ZeroRow;
      StoreHeight(scrollbackBuffer[..]);
      RingLength(Store(), scrollbackHead, scrollbackCount);
      ViewAt(paper.rows, History(), offset, color);
    }

    /** Scrolling up keeps the transcript exactly when some row is saved and the 32-bit sum of the offsets is not
        0. Otherwise it paints over the live rows, with nothing saved by wiping the screen. */
    lemma ScrollUpExact(lines: Word)
      requires Valid() && Distinct(History()) && ZeroRow() !in History()
      requires paper.rows[|paper.rows| - VGA_HEIGHT] !in History() + [ZeroRow(), Blank(color)]
      ensures var offset := ScrolledTo(viewOffset, lines, scrollbackCount);
              ScrolledUp(paper, History(), offset) == paper
              <==> scrollbackCount > 0 && AddWord(viewOffset, lines) > 0
    {
      hide Rows, Ring, RingOk, Painted;
      ViewExact(0);
      var painted := Painted(History(), 0, color);
      RepaintedParts(paper, painted);
      assert Repainted(paper, painted).rows[|paper.rows| - VGA_HEIGHT] == painted[0];
    }

    /** Outside scrollback mode saved rows and screen are the last rows of the transcript, and nothing has been
        lost until more than 100 rows have left the screen. */
    lemma WindowIsTranscript()
      requires Valid() && !inScrollbackMode
      ensures |paper.rows| >= scrollbackCount + VGA_HEIGHT
      ensures History() + Screen() == Tail(paper.rows, scrollbackCount + VGA_HEIGHT)
      ensures scrollbackCount < SCROLLBACK_LINES ==> History() + Screen() == paper.rows
    {
      assert paper.rows == Above() + Tail(paper.rows, VGA_HEIGHT);
    }
  }

  ghost predicate Distinct(rows: seq<Line>) {
    forall i, j :: 0 <= i < j < |rows| ==> rows[i] != rows[j]
  }

  /** The offset terminal_scrollup ends at: a 32-bit sum, at most the number of saved rows. */
  function ScrolledTo(offset: Word, lines: Word, count: nat): nat {
    var wanted := AddWord(offset, lines);
    if wanted > count then count else wanted
  }

  /** What it does to the transcript. */
  ghost function ScrolledUp(p: Paper, history: seq<Line>, offset: nat): Paper
    requires PaperOk(p)
  {
    if offset > 0 then p else Repainted(p, Painted(history, 0, p.color))
  }

  lemma RepaintedParts(p: Paper, screen: seq<Line>)
    requires PaperOk(p) && |screen| == VGA_HEIGHT
    ensures var q := Repainted(p, screen);
            && PaperOk(q) && |q.rows| == |p.rows| && q == p.(rows := q.rows)
            && q.rows[..|p.rows| - VGA_HEIGHT] == p.rows[..|p.rows| - VGA_HEIGHT]
            && Tail(q.rows, VGA_HEIGHT) == screen
            && (|p.rows| == VGA_HEIGHT ==> q.rows == screen)
  {
  }

  lemma NothingPainted(color: Color)
    ensures Painted([], 0, color) == BlankScreen(color)
  {
    assert forall i :: 0 <= i < VGA_HEIGHT ==> PaintedRow([], 0, color, i) == Blank(color);
  }

  /** At offsets of 25 and more the painted rows are the window. */
  lemma PaintedWindow(rows: seq<Line>, history: seq<Line>, offset: nat, color: Color)
    requires |history| + VGA_HEIGHT <= |rows| && history == Tail(rows[..|rows| - VGA_HEIGHT], |history|)
    requires VGA_HEIGHT <= offset <= |history|
    ensures Painted(history, offset, color) == Window(rows, offset)
  {
    forall i | 0 <= i < VGA_HEIGHT
      ensures PaintedRow(history, offset, color, i) == Window(rows, offset)[i]
    {
      assert PaintedRow(history, offset, color, i) == history[|history| - offset + i];
    }
  }

  /** All painted rows: at an offset of 25 or more the 25 rows that many back; below 25 the last 25 - offset saved
      rows and then blank ones, and where fewer are saved, as many zero rows as are missing come first, and the
      saved ones are cut to the number of saved rows. */
  lemma PaintedRows(history: seq<Line>, offset: nat, color: Color)
    requires offset <= |history|
    ensures var painted, n, blank := Painted(history, offset, color), |history|, Blank(color);
            && |painted| == 25
            && (offset >= 25 ==> painted == history[n - offset..][..25])
            && (offset < 25 && n >= 25 - offset ==>
                  painted == history[n - (25 - offset)..] + seq(offset, _ => blank))
            && (offset < 25 && n < 25 - offset ==>
                  var missing := 25 - offset - n;
                  painted == (if missing >= n then seq(n, _ => ZeroRow())
                              else seq(missing, _ => ZeroRow()) + history[..n - missing])
                             + seq(25 - n, _ => blank))
  {
    forall i | 0 <= i < 25
      ensures Painted(history, offset, color)[i] == PaintedRow(history, offset, color, i)
    {
    }
  }

  /** Where terminal_scrolldown goes from an offset. */
  function ScrolledBack(offset: nat, lines: Word): nat {
    if offset >= lines then offset - lines else 0
  }

  /** Scrolling up and then down by as many lines returns to the same offset exactly when the way up was not cut
      short by the number of saved rows, or started at offset 0. */
  lemma ScrollUpDown(offset: Word, lines: Word, count: nat)
    requires offset <= count <= 100
    ensures ScrolledBack(ScrolledTo(offset, lines, count), lines) == offset
            <==> offset == 0 || offset + lines <= count
    ensures offset + lines <= count ==> ScrolledTo(offset, lines, count) == offset + lines
  {
    WordSum(offset, lines);
  }

  lemma WordSum(a: Word, b: Word)
    ensures AddWord(a, b) == if a + b < WORD_LIMIT then a + b else a + b - WORD_LIMIT
  {
  }

  /** The first painted row and the first row of the window. */
  lemma TopRows(rows: seq<Line>, history: seq<Line>, offset: nat, color: Color)
    requires |history| + VGA_HEIGHT <= |rows| && history == Tail(rows[..|rows| - VGA_HEIGHT], |history|)
    requires offset <= |history|
    ensures var first := FirstShown(offset);
            && |Painted(history, offset, color)| == |Window(rows, offset)| == VGA_HEIGHT
            && Painted(history, offset, color)[0] == (if |history| == 0 then Blank(color)
                                                      else if first <= |history| then history[|history| - first]
                                                      else ZeroRow())
            && Window(rows, offset)[0] == if offset == 0 then rows[|rows| - VGA_HEIGHT]
                                          else history[|history| - offset]
  {
    assert Painted(history, offset, color)[0] == PaintedRow(history, offset, color, 0);
    assert Window(rows, offset)[0] == rows[|rows| - VGA_HEIGHT - offset];
  }

  /** The first painted row is the wanted one, and all of them are, exactly at offsets of 25 and more. */
  lemma ViewAt(rows: seq<Line>, history: seq<Line>, offset: nat, color: Color)
    requires |history| + VGA_HEIGHT <= |rows| && history == Tail(rows[..|rows| - VGA_HEIGHT], |history|)
    requires offset <= |history| && Distinct(history) && ZeroRow() !in history
    requires offset == 0 ==> rows[|rows| - VGA_HEIGHT] !in history + [ZeroRow(), Blank(color)]
    ensures var painted, wanted := Painted(history, offset, color), Window(rows, offset);
            && |painted| == |wanted| == VGA_HEIGHT
            && (painted[0] == wanted[0] <==> offset >= VGA_HEIGHT)
            && (painted == wanted <==> offset >= VGA_HEIGHT)
  {
    hide Painted, Window, Tail, Blank, ZeroRow;
    TopRows(rows, history, offset, color);
    if offset >= VGA_HEIGHT {
      PaintedWindow(rows, history, offset, color);
    } else if offset == 0 {
      assert Painted(history, 0, color)[0] in history + [ZeroRow(), Blank(color)];
    }
  }

  /** What a new row at the bottom of the paper does to the saved rows and to the screen. */
  lemma PaperScrolls(rows: seq<Line>, history: seq<Line>, count: nat, blank: Line)
    requires |rows| >= VGA_HEIGHT
    requires var above := |rows| - VGA_HEIGHT;
             && count == (if above < SCROLLBACK_LINES then above else SCROLLBACK_LINES)
             && history == Tail(rows[..above], count)
    ensures var above, screen := |rows| + 1 - VGA_HEIGHT, Tail(rows, VGA_HEIGHT);
            var count' := if count < SCROLLBACK_LINES then count + 1 else count;
            && count' == (if above < SCROLLBACK_LINES then above else SCROLLBACK_LINES)
            && |screen| == VGA_HEIGHT
            && (if count < SCROLLBACK_LINES then history else history[1..]) + [screen[0]]
               == Tail((rows + [blank])[..above], count')
            && (screen[1..] + [screen[24]])[24 := blank] == Tail(rows + [blank], VGA_HEIGHT)
  {
    assert (rows + [blank])[..|rows| + 1 - VGA_HEIGHT] == rows[..|rows| - VGA_HEIGHT] + [rows[|rows| - VGA_HEIGHT]];
  }

  lemma StrikeBounds(p: Paper, c: CChar)
    requires PaperOk(p)
    ensures var q := Strike(p, c);
            && |q.rows| == |p.rows| && q.color == p.color
            && |q.rows| - VGA_HEIGHT <= q.row <= |q.rows| && q.x <= VGA_WIDTH
            && (q.x == VGA_WIDTH ==> q.row < |q.rows|)
  {
  }

  lemma BlankRows(color: Color)
    ensures |BlankScreen(color)| == VGA_HEIGHT
    ensures forall j :: 0 <= j < VGA_HEIGHT ==> BlankScreen(color)[j] == Blank(color)
  {
  }

  lemma ClearedParts(p: Paper)
    requires PaperOk(p)
    ensures var q, top := Cleared(p), |p.rows| - VGA_HEIGHT;
            && PaperOk(q) && |q.rows| == |p.rows| && q.x == 0 && q.row == top && q.color == p.color
            && q.rows[..top] == p.rows[..top]
            && Tail(q.rows, VGA_HEIGHT) == BlankScreen(p.color)
  {
  }

  /** A store of zero cells is a ring that nothing was written to. */
  lemma ZeroStore(cells: seq<Cell>)
    requires |cells| == 8000 && forall i :: 0 <= i < |cells| ==> cells[i] == 0
    ensures |Rows(cells, SCROLLBACK_LINES)| == SCROLLBACK_LINES && RingOk(Rows(cells, SCROLLBACK_LINES), 0, 0)
  {
    forall y | 0 <= y < SCROLLBACK_LINES
      ensures Row(cells, y) == ZeroRow()
    {
    }
  }

  lemma ClearedOk(p: Paper)
    requires PaperOk(p)
    ensures PaperOk(Cleared(p))
  {
  }

  lemma PutAllNone(p: Paper)
    requires PaperOk(p)
    ensures PutAll(p, []) == p
  {
  }

  /** The row of the store that a refresh copies to screen row i: a 32-bit sum. */
  function RowShown(head: Word, start: Word, i: Word): nat {
    AddWord(AddWord(head, start), i) % SCROLLBACK_LINES
  }

  /** Which saved row that is. The start line may wrap; the sum wraps back for the rows that are saved, and
      otherwise ends, 2^32 being 96 modulo 100, in the part of the store that was never written. */
  lemma ShownRow(store: seq<Line>, head: nat, count: nat, viewOffset: nat, i: nat)
    requires |store| == SCROLLBACK_LINES && RingOk(store, head, count) && viewOffset <= count
    requires i < LinesToShow(viewOffset) && i < count
    ensures var first := FirstShown(viewOffset);
            && i < first
            && |Ring(store, head, count)| == count
            && store[RowShown(head, (count - first) % WORD_LIMIT, i)]
               == if first <= count + i then Ring(store, head, count)[count + i - first] else ZeroRow()
  {
    var first := FirstShown(viewOffset);
    RowShownIndex(head, count, first, i);
    if first <= count + i {
      RingAt(store, head, count, count + i - first);
    }
  }

  lemma RowShownIndex(head: nat, count: nat, first: nat, i: nat)
    requires head < SCROLLBACK_LINES && i < first && i < count <= SCROLLBACK_LINES
    requires first <= count || (first <= VGA_HEIGHT && head == 0)
    ensures RowShown(head, (count - first) % WORD_LIMIT, i)
         == if first <= count + i then RingIndex(head, count + i - first) else 96 + count + i - first
  {
    if first <= count {
      PlainIndex(head, count - first, i);
      assert head + (count - first) + i == head + (count + i - first);
    } else {
      WrappedIndex(count, first, i);
    }
  }

  lemma PlainIndex(head: nat, start: nat, i: nat)
    requires head < SCROLLBACK_LINES && start <= SCROLLBACK_LINES && i <= SCROLLBACK_LINES
    ensures RowShown(head, start % WORD_LIMIT, i) == (head + start + i) % SCROLLBACK_LINES
  {
    assert start % WORD_LIMIT == start;
    assert AddWord(head, start) == head + start;
    assert AddWord(head + start, i) == head + start + i;
  }

  lemma WrappedIndex(count: nat, first: nat, i: nat)
    requires i < first && i < count < first <= VGA_HEIGHT
    ensures RowShown(0, (count - first) % WORD_LIMIT, i)
         == if first <= count + i then count + i - first else 96 + count + i - first
  {
    var t := count + i - first;
    assert (count - first) % WORD_LIMIT == WORD_LIMIT + count - first;
    if t >= 0 {
      assert AddWord(WORD_LIMIT + count - first, i) == t;
    } else {
      assert WORD_LIMIT + t == 100 * 42949672 + (96 + t);
      HundredTimes(42949672, 96 + t);
    }
  }

  lemma HundredTimes(q: nat, r: nat)
    requires r < 100
    ensures (100 * q + r) % 100 == r
  {
  }

  lemma RingLength(store: seq<Line>, head: nat, count: nat)
    requires |store| == SCROLLBACK_LINES
    ensures |Ring(store, head, count)| == count
  {
  }

  lemma RingAt(store: seq<Line>, head: nat, count: nat, i: nat)
    requires |store| == SCROLLBACK_LINES && i < count
    ensures |Ring(store, head, count)| == count && Ring(store, head, count)[i] == store[RingIndex(head, i)]
  {
  }

  lemma InkOnScreen(p: Paper, x: nat, v: Cell)
    requires PaperOk(p) && x < VGA_WIDTH
    ensures var y := p.row - (|p.rows| - VGA_HEIGHT);
            var screen := Tail(p.rows, VGA_HEIGHT);
            && |Ink(p, x, v)| == |p.rows| && |screen| == VGA_HEIGHT
            && Tail(Ink(p, x, v), VGA_HEIGHT) == screen[y := screen[y][x := v]]
            && Ink(p, x, v)[..|p.rows| - VGA_HEIGHT] == p.rows[..|p.rows| - VGA_HEIGHT]
  {
  }
}
