/** kernel/src/console.rs: the VGA text writer as a window over an unbounded log of lines. */
module Vga {
  import opened LittleEndian

  const HEIGHT := 25
  const WIDTH := 80
  const NEWLINE: Byte := 10

  /** A screen cell; also one byte written, with the colour in effect. */
  datatype Cell = Cell(ascii: Byte, color: Byte)

  function Blank(color: Byte): Cell {
    Cell(32, color)
  }

  // ---- what has been written, as lines ----

  /** A line, with the colour that was in effect when it was opened. */
  datatype Line = Line(opener: Byte, cells: seq<Cell>)

  /** The text cut at its newlines; the first piece is opened in colour c. */
  function Pieces(c: Byte, text: seq<Cell>): (r: seq<Line>)
    ensures r != [] && r[0].opener == c
    decreases |text|
  {
    if text == [] then [Line(c, [])]
    else if text[0].ascii == NEWLINE then [Line(c, [])] + Pieces(text[0].color, text[1..])
    else
      var rest := Pieces(c, text[1..]);
      [Line(c, [text[0]] + rest[0].cells)] + rest[1..]
  }

  /** A piece cut into lines of at most 80 cells; a full line is not followed by an empty one. */
  function Wrapped(p: Line): (r: seq<Line>)
    ensures r != []
    decreases |p.cells|
  {
    if |p.cells| <= WIDTH then [p]
    else [Line(p.opener, p.cells[..WIDTH])] + Wrapped(Line(p.cells[WIDTH].color, p.cells[WIDTH..]))
  }

  function WrapAll(ps: seq<Line>): (r: seq<Line>)
    ensures ps != [] ==> r != []
  {
    if ps == [] then [] else WrapAll(ps[..|ps| - 1]) + Wrapped(ps[|ps| - 1])
  }

  /** The unbounded log. */
  function Lines(c: Byte, text: seq<Cell>): (r: seq<Line>)
    ensures r != []
  {
    WrapAll(Pieces(c, text))
  }

  /** The log after one more byte. */
  function Extend(ls: seq<Line>, k: Cell): seq<Line>
    requires ls != []
  {
    var last := ls[|ls| - 1];
    if k.ascii == NEWLINE then ls + [Line(k.color, [])]
    else if |last.cells| >= WIDTH then ls + [Line(k.color, [k])]
    else ls[|ls| - 1 := Line(last.opener, last.cells + [k])]
  }

  function PutLast(ps: seq<Line>, k: Cell): seq<Line>
    requires ps != []
  {
    var last := ps[|ps| - 1];
    ps[|ps| - 1 := Line(last.opener, last.cells + [k])]
  }

  lemma {:induction false} PiecesSnoc(c: Byte, text: seq<Cell>, k: Cell)
    ensures Pieces(c, text + [k])
         == if k.ascii == NEWLINE then Pieces(c, text) + [Line(k.color, [])] else PutLast(Pieces(c, text), k)
    decreases |text|
  {
    if text == [] {
      assert text + [k] == [k] && [k][1..] == [];
      assert Pieces(k.color, []) == [Line(k.color, [])] && Pieces(c, []) == [Line(c, [])];
      assert [k] + [] == [k];
    } else {
      assert (text + [k])[1..] == text[1..] + [k];
      var c' := if text[0].ascii == NEWLINE then text[0].color else c;
      var rest := Pieces(c', text[1..]);
      PiecesSnoc(c', text[1..], k);
      if text[0].ascii != NEWLINE {
        ConsFirst(c, text[0], rest, k);
      }
    }
  }

  /** Putting a cell in front of the first piece commutes with adding at the end. */
  lemma ConsFirst(c: Byte, x: Cell, rest: seq<Line>, k: Cell)
    requires rest != [] && rest[0].opener == c
    ensures var front := [Line(c, [x] + rest[0].cells)] + rest[1..];
      var more := if k.ascii == NEWLINE then rest + [Line(k.color, [])] else PutLast(rest, k);
      [Line(c, [x] + more[0].cells)] + more[1..]
        == if k.ascii == NEWLINE then front + [Line(k.color, [])] else PutLast(front, k)
  {
    var front := [Line(c, [x] + rest[0].cells)] + rest[1..];
    if k.ascii == NEWLINE {
      assert (rest + [Line(k.color, [])])[1..] == rest[1..] + [Line(k.color, [])];
    } else if |rest| == 1 {
      assert [x] + (rest[0].cells + [k]) == ([x] + rest[0].cells) + [k];
    } else {
      assert PutLast(rest, k)[1..] == PutLast(front, k)[1..];
    }
  }

  lemma {:induction false} WrappedSnoc(p: Line, k: Cell)
    requires k.ascii != NEWLINE
    ensures Wrapped(Line(p.opener, p.cells + [k])) == Extend(Wrapped(p), k)
    ensures forall i | 0 <= i < |Wrapped(p)| :: |Wrapped(p)[i].cells| <= WIDTH
    decreases |p.cells|
  {
    var q := Line(p.opener, p.cells + [k]);
    if |p.cells| < WIDTH {
    } else if |p.cells| == WIDTH {
      assert q.cells[..WIDTH] == p.cells && q.cells[WIDTH..] == [k];
    } else {
      var rest := Line(p.cells[WIDTH].color, p.cells[WIDTH..]);
      assert q.cells[..WIDTH] == p.cells[..WIDTH] && q.cells[WIDTH..] == p.cells[WIDTH..] + [k];
      WrappedSnoc(rest, k);
      var first := Line(p.opener, p.cells[..WIDTH]);
      assert Wrapped(p) == [first] + Wrapped(rest);
      assert Wrapped(q) == [first] + Wrapped(Line(rest.opener, rest.cells + [k]));
      hide Wrapped;
      ExtendAfter([first], Wrapped(rest), k);
    }
  }

  /** The log can be computed byte by byte. */
  lemma LinesSnoc(c: Byte, text: seq<Cell>, k: Cell)
    ensures Lines(c, text + [k]) == Extend(Lines(c, text), k)
  {
    PiecesSnoc(c, text, k);
    var ps := Pieces(c, text);
    var n := |ps| - 1;
    if k.ascii == NEWLINE {
      var qs := ps + [Line(k.color, [])];
      assert qs[..n + 1] == ps && Wrapped(qs[n + 1]) == [Line(k.color, [])];
    } else {
      var qs := PutLast(ps, k);
      assert qs[..n] == ps[..n];
      WrappedSnoc(ps[n], k);
      ExtendAfter(WrapAll(ps[..n]), Wrapped(ps[n]), k);
    }
  }

  lemma ExtendAfter(a: seq<Line>, b: seq<Line>, k: Cell)
    requires b != []
    ensures Extend(a + b, k) == a + Extend(b, k)
  {
  }

  function AllCells(ls: seq<Line>): seq<Cell> {
    if ls == [] then [] else AllCells(ls[..|ls| - 1]) + ls[|ls| - 1].cells
  }

  function Visible(text: seq<Cell>): seq<Cell> {
    if text == [] then []
    else Visible(text[..|text| - 1]) + if text[|text| - 1].ascii == NEWLINE then [] else [text[|text| - 1]]
  }

  /** The log holds every byte but the newlines, in order, in lines of at most 80 cells. */
  lemma {:induction false} LinesHoldText(c: Byte, text: seq<Cell>)
    ensures AllCells(Lines(c, text)) == Visible(text)
    ensures forall i | 0 <= i < |Lines(c, text)| :: |Lines(c, text)[i].cells| <= WIDTH
    decreases |text|
  {
    if text == [] {
      EmptyLog(c);
      assert AllCells([Line(c, [])]) == AllCells([Line(c, [])][..0]) + [];
    } else {
      var init, k := text[..|text| - 1], text[|text| - 1];
      LinesHoldText(c, init);
      assert init + [k] == text;
      LinesSnoc(c, init, k);
      hide Lines, AllCells;
      ExtendHolds(Lines(c, init), k);
    }
  }

  lemma ExtendHolds(ls: seq<Line>, k: Cell)
    requires ls != [] && forall i | 0 <= i < |ls| :: |ls[i].cells| <= WIDTH
    ensures AllCells(Extend(ls, k)) == AllCells(ls) + if k.ascii == NEWLINE then [] else [k]
    ensures forall i | 0 <= i < |Extend(ls, k)| :: |Extend(ls, k)[i].cells| <= WIDTH
  {
    var ms := Extend(ls, k);
    var n := |ms| - 1;
    if k.ascii == NEWLINE || |ls[|ls| - 1].cells| >= WIDTH {
      assert ms[..n] == ls;
    } else {
      assert ms[..n] == ls[..n];
      assert AllCells(ls[..n]) + (ls[n].cells + [k]) == (AllCells(ls[..n]) + ls[n].cells) + [k];
    }
  }

  /** A newline ends a line: what follows it is laid out as on a new log, opened in its colour. */
  lemma {:induction false} NewlineSplits(c: Byte, a: seq<Cell>, color: Byte, b: seq<Cell>)
    ensures Lines(c, a + [Cell(10, color)] + b) == Lines(c, a) + Lines(color, b)
    decreases |b|
  {
    hide Lines;
    if b == [] {
      EmptyLog(color);
      LinesSnoc(c, a, Cell(10, color));
      assert a + [Cell(10, color)] + [] == a + [Cell(10, color)];
    } else {
      var less, k := b[..|b| - 1], b[|b| - 1];
      assert less + [k] == b && a + [Cell(10, color)] + b == a + [Cell(10, color)] + less + [k];
      NewlineSplits(c, a, color, less);
      LinesSnoc(color, less, k);
      LinesSnoc(c, a + [Cell(10, color)] + less, k);
      ExtendAfter(Lines(c, a), Lines(color, less), k);
    }
  }

  /** Line i of a text of n cells without newlines: cells 80 i to 80 i + 80, or to the end. */
  predicate IsWrapped(ls: seq<Line>, text: seq<Cell>) {
    && |ls| == (if text == [] then 1 else (|text| + 79) / 80)
    && forall i | 0 <= i < |ls| ::
         && 80 * i <= |text|
         && ls[i].cells == text[80 * i..if 80 * i + 80 <= |text| then 80 * i + 80 else |text|]
  }

  /** Text without newlines fills lines of exactly 80 cells, the last one excepted. */
  lemma {:induction false} LongTextWraps(c: Byte, text: seq<Cell>)
    requires forall i | 0 <= i < |text| :: text[i].ascii != 10
    ensures IsWrapped(Lines(c, text), text)
    decreases |text|
  {
    hide Lines;
    if text == [] {
      EmptyLog(c);
    } else {
      var less, k := text[..|text| - 1], text[|text| - 1];
      assert less + [k] == text;
      LongTextWraps(c, less);
      LinesSnoc(c, less, k);
      WrappedMore(Lines(c, less), less, k);
    }
  }

  lemma WrappedMore(ls: seq<Line>, text: seq<Cell>, k: Cell)
    requires ls != [] && IsWrapped(ls, text) && k.ascii != 10
    ensures IsWrapped(Extend(ls, k), text + [k])
  {
    var all, ms, n := text + [k], Extend(ls, k), |ls| - 1;
    assert |ls[n].cells| == |text| - 80 * n;
    forall i | 0 <= i < n ensures all[80 * i..80 * i + 80] == text[80 * i..80 * i + 80] && 80 * i + 80 <= |text| {
    }
  }

  // ---- the screen ----

  /** The first log row on the screen. */
  function Top(ls: seq<Line>): nat {
    if |ls| <= HEIGHT then 0 else |ls| - HEIGHT
  }

  /** Column c of log row i: the line, padded with blanks. */
  function LogCell(base: Byte, ls: seq<Line>, i: nat, c: nat): Cell {
    if i < |ls| && c < |ls[i].cells| then ls[i].cells[c]
    else Blank(if i < HEIGHT || i >= |ls| then base else ls[i].opener)
  }

  /** Characters that are not printable are shown as a block. */
  function Shown(b: Byte): Byte {
    if 0x20 <= b <= 0x7E || b == NEWLINE then b else 0xFE
  }

  function Colored(s: seq<Byte>, color: Byte): (r: seq<Cell>)
    ensures |r| == |s|
  {
    if s == [] then [] else Colored(s[..|s| - 1], color) + [Cell(Shown(s[|s| - 1]), color)]
  }

  /** Byte i of a string is shown as it is if it is printable or a newline, and as a block otherwise. */
  lemma {:induction false} ColoredAt(s: seq<Byte>, color: Byte, i: nat)
    requires i < |s|
    ensures Colored(s, color)[i] == Cell(if 0x20 <= s[i] <= 0x7E || s[i] == 0x0A then s[i] else 0xFE, color)
    ensures Colored(s, color)[i].ascii == s[i] <==> 0x20 <= s[i] <= 0x7E || s[i] == 0x0A || s[i] == 0xFE
    decreases |s|
  {
    if i == |s| - 1 {
    } else {
      ColoredAt(s[..|s| - 1], color, i);
    }
  }

  class Writer {
    var column: nat
    var row: nat
    var color: Byte
    const buffer: array2<Cell>
    /** What was written since the screen was cleared, and the colour it was cleared in. */
    ghost var text: seq<Cell>
    ghost var base: Byte

    /** The screen shows the last 25 rows of the log, with the cursor at the end of its last line. */
    ghost predicate Shows(ls: seq<Line>)
      requires ls != []
      reads this, buffer
    {
      && buffer.Length0 == HEIGHT && buffer.Length1 == WIDTH
      && row == |ls| - 1 - Top(ls) && column == |ls[|ls| - 1].cells| <= WIDTH
      && forall r, c | 0 <= r < HEIGHT && 0 <= c < WIDTH :: buffer[r, c] == LogCell(base, ls, Top(ls) + r, c)
    }

    ghost predicate Valid()
      reads this, buffer
    {
      Shows(Lines(base, text))
    }

    /** The writer as it starts: at row 0, column 0, over whatever the video memory holds. */
    constructor (memory: array2<Cell>, color: Byte)
      requires memory.Length0 == HEIGHT && memory.Length1 == WIDTH
      ensures buffer == memory && row == 0 && column == 0 && this.color == color
    {
      buffer := memory;
      row, column, this.color := 0, 0, color;
      text, base := [], color;
    }

    method ClearRow(r: nat)
      requires buffer.Length0 == HEIGHT && buffer.Length1 == WIDTH && r < HEIGHT
      modifies buffer
      ensures forall c | 0 <= c < WIDTH :: buffer[r, c] == Cell(0x20, color)
      ensures forall q, c | 0 <= q < HEIGHT && q != r && 0 <= c < WIDTH :: buffer[q, c] == old(buffer[q, c])
    {
      for col := 0 to WIDTH
        invariant forall c | 0 <= c < col :: buffer[r, c] == Blank(color)
        invariant forall q, c | 0 <= q < HEIGHT && q != r && 0 <= c < WIDTH :: buffer[q, c] == old(buffer[q, c])
      {
        buffer[r, col] := Blank(color);
      }
    }

    /** Clearing leaves the cursor; at the top left corner the screen then shows an empty log. */
    method ClearScreen()
      requires buffer.Length0 == HEIGHT && buffer.Length1 == WIDTH
      modifies this`text, this`base, buffer
      ensures forall r, c | 0 <= r < HEIGHT && 0 <= c < WIDTH :: buffer[r, c] == Cell(0x20, color)
      ensures text == [] && base == color
      ensures Valid() <==> row == 0 && column == 0
    {
      for r := 0 to HEIGHT
        invariant forall q, c | 0 <= q < r && 0 <= c < WIDTH :: buffer[q, c] == Blank(color)
      {
        ClearRow(r);
      }
      text, base := [], color;
      assert Lines(base, []) == [Line(base, [])] by { EmptyLog(base); }
    }

    /** Move all rows up by one and blank the last. */
    method Scroll()
      requires buffer.Length0 == HEIGHT && buffer.Length1 == WIDTH
      modifies buffer
      ensures forall r, c | 0 <= r < HEIGHT && 0 <= c < WIDTH ::
        buffer[r, c] == if r < HEIGHT - 1 then old(buffer[r + 1, c]) else Cell(0x20, color)
    {
      for r := 1 to HEIGHT
        invariant forall q, c | 0 <= q < r - 1 && 0 <= c < WIDTH :: buffer[q, c] == old(buffer[q + 1, c])
        invariant forall q, c | r - 1 <= q < HEIGHT && 0 <= c < WIDTH :: buffer[q, c] == old(buffer[q, c])
      {
        for col := 0 to WIDTH
          invariant forall q, c | 0 <= q < r - 1 && 0 <= c < WIDTH :: buffer[q, c] == old(buffer[q + 1, c])
          invariant forall c | 0 <= c < col :: buffer[r - 1, c] == old(buffer[r, c])
          invariant forall q, c | r <= q < HEIGHT && 0 <= c < WIDTH :: buffer[q, c] == old(buffer[q, c])
        {
          buffer[r - 1, col] := buffer[r, col];
        }
      }
      ClearRow(HEIGHT - 1);
    }

    method NewLine(ghost ls: seq<Line>)
      requires ls != [] && Shows(ls)
      modifies this`row, this`column, buffer
      ensures Shows(ls + [Line(color, [])])
    {
      if row == HEIGHT - 1 {
        Scroll();
      } else {
        row := row + 1;
      }
      column := 0;
    }

    method WriteByte(byte: Byte)
      requires Valid()
      modifies this`row, this`column, this`text, buffer
      ensures Valid() && text == old(text) + [Cell(byte, color)]
    {
      hide Lines;
      ghost var ls := Lines(base, text);
      LinesSnoc(base, text, Cell(byte, color));
      if byte == NEWLINE {
        NewLine(ls);
      } else {
        if column >= WIDTH {
          NewLine(ls);
          ls := ls + [Line(color, [])];
        }
        PutCell(ls, byte);
      }
      text := text + [Cell(byte, color)];
    }

    /** Write a cell at the cursor, which has room on its row. */
    method PutCell(ghost ls: seq<Line>, byte: Byte)
      requires ls != [] && Shows(ls) && column < WIDTH
      modifies this`column, buffer
      ensures Shows(PutLast(ls, Cell(byte, color)))
    {
      buffer[row, column] := Cell(byte, color);
      column := column + 1;
    }

    method WriteString(s: seq<Byte>)
      requires Valid()
      modifies this`row, this`column, this`text, buffer
      ensures Valid() && text == old(text) + Colored(s, color)
    {
      hide Lines, Shows;
      for i := 0 to |s|
        invariant Valid() && text == old(text) + Colored(s[..i], color)
      {
        WriteByte(Shown(s[i]));
        assert s[..i + 1][..i] == s[..i];
      }
      assert s[..|s|] == s;
    }

    method ChangeColor(c: Byte)
      requires Valid()
      modifies this`color
      ensures Valid() && color == c
    {
      color := c;
    }
  }

  lemma EmptyLog(c: Byte)
    ensures Lines(c, []) == [Line(c, [])]
  {
    assert Pieces(c, []) == [Line(c, [])];
    var ps := [Line(c, [])];
    assert ps[..0] == [];
    assert WrapAll(ps) == WrapAll([]) + Wrapped(ps[0]);
  }
}
