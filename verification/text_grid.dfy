/** Pure model of one console's character grid: a row-major sequence of
    rows * cols characters and a linear cursor offset. Every operation of the
    console on one grid is specified here as a function on values; the
    imperative console in TextConsole is proved against these functions. */
module TextGrid {

  /** Grid geometry, fixed when the console is created. */
  datatype Geometry = Geometry(rows: int, cols: int)

  /** The grid contents and the next write position. */
  datatype Grid = Grid(cells: seq<char>, offset: int)

  const Newline: char := '\n'
  const Tab: char := '\t'
  const Backspace: char := 8 as char

  /** The geometry the character step relies on: a non-empty grid whose size
      is a multiple of 4 (tab stops are multiples of 4 of the absolute offset,
      so the last tab stop must be the end of the grid). */
  predicate ValidGeometry(g: Geometry) {
    g.rows >= 1 && g.cols >= 1 && (g.rows * g.cols) % 4 == 0
  }

  function Size(g: Geometry): int {
    g.rows * g.cols
  }

  /** The cursor never leaves [0, rows*cols] and the grid has rows*cols cells. */
  predicate Inv(g: Geometry, s: Grid) {
    |s.cells| == Size(g) && 0 <= s.offset <= Size(g)
  }

  function Spaces(n: nat): (r: seq<char>)
    ensures |r| == n && forall i :: 0 <= i < n ==> r[i] == ' '
  {
    seq(n, _ => ' ')
  }

  predicate IsPlain(c: char) {
    c != Newline && c != Tab && c != Backspace
  }

  /** r is the least multiple of k strictly greater than o. */
  predicate IsNextMultiple(o: int, k: int, r: int)
    requires k > 0
  {
    o < r && r % k == 0 && forall m :: o < m < r ==> m % k != 0
  }

  // ---------------------------------------------------------------------------
  // Arithmetic helpers

  lemma MulLe(a: int, b: int, k: int)
    requires a <= b && k >= 0
    ensures a * k <= b * k
  {
    assert b * k - a * k == (b - a) * k;
  }

  lemma DivModUnique(m: int, k: int, q: int, r: int)
    requires k > 0 && 0 <= r < k && m == q * k + r
    ensures m / k == q && m % k == r
  {
    var d, e := m / k, m % k;
    assert m == d * k + e;
    assert (q - d) * k == e - r;
    if q - d >= 1 {
      MulLe(1, q - d, k);
    } else if q - d <= -1 {
      MulLe(q - d, -1, k);
    }
  }

  /** The offset arithmetic of newline and tab, `o + k - o % k`, lands on the
      least multiple of k strictly greater than o. */
  lemma NextMultipleFacts(o: int, k: int)
    requires o >= 0 && k > 0
    ensures o + k - o % k <= o + k
    ensures IsNextMultiple(o, k, o + k - o % k)
  {
    var q := o / k;
    var r := o + k - o % k;
    assert r == (q + 1) * k;
    DivModUnique(r, k, q + 1, 0);
    forall m | o < m < r
      ensures m % k != 0
    {
      DivModUnique(m, k, q, m - q * k);
    }
  }

  /** A next multiple of k never jumps past a later multiple of k. */
  lemma NextMultipleWithin(o: int, k: int, r: int, n: int)
    requires k > 0 && IsNextMultiple(o, k, r)
    requires o < n && n % k == 0
    ensures r <= n
  {
  }

  function RowStart(g: Geometry, i: int): int {
    g.cols * i
  }

  lemma AllRowsFit(g: Geometry)
    requires ValidGeometry(g)
    ensures forall i :: 0 <= i < g.rows ==> 0 <= RowStart(g, i) && RowStart(g, i) + g.cols <= Size(g)
  {
    forall i | 0 <= i < g.rows
      ensures 0 <= RowStart(g, i) && RowStart(g, i) + g.cols <= Size(g)
    {
      MulLe(0, i, g.cols);
      MulLe(i + 1, g.rows, g.cols);
    }
  }

  // ---------------------------------------------------------------------------
  // One character step (console_write_char, for one console)

  /** Shift every row up by one, blank the last row, pull the cursor back by
      one row. */
  function Scroll(g: Geometry, s: Grid): (r: Grid)
    requires g.cols >= 1 && |s.cells| >= g.cols
    ensures |r.cells| == |s.cells| && r.offset == s.offset - g.cols
    ensures forall k :: 0 <= k < |s.cells| - g.cols ==> r.cells[k] == s.cells[k + g.cols]
    ensures forall k :: |s.cells| - g.cols <= k < |s.cells| ==> r.cells[k] == ' '
  {
    Grid(s.cells[g.cols..] + Spaces(g.cols), s.offset - g.cols)
  }

  /** The scroll check that precedes every character: the grid scrolls
      exactly when the cursor has reached the end. */
  function ScrollCheck(g: Geometry, s: Grid): (r: Grid)
    requires ValidGeometry(g) && Inv(g, s)
    ensures Inv(g, r) && r.offset < Size(g)
    ensures r != s <==> s.offset >= Size(g)
  {
    MulLe(1, g.rows, g.cols);
    if s.offset >= Size(g) then Scroll(g, s) else s
  }

  /** A backspace must not meet offset 0 once the scroll check is done. */
  predicate NoUnderflow(g: Geometry, s: Grid, c: char)
    requires ValidGeometry(g) && Inv(g, s)
  {
    c == Backspace ==> ScrollCheck(g, s).offset >= 1
  }

  /** The character handling that follows the scroll check: newline and tab
      move the cursor to the next row start or tab stop, backspace steps back
      and blanks that cell, anything else is stored and the cursor advances. */
  function Put(g: Geometry, t: Grid, c: char): (r: Grid)
    requires ValidGeometry(g) && Inv(g, t) && t.offset < Size(g)
    requires c == Backspace ==> t.offset >= 1
    ensures Inv(g, r)
    ensures if c == Newline then r.cells == t.cells && IsNextMultiple(t.offset, g.cols, r.offset)
      else if c == Tab then r.cells == t.cells && IsNextMultiple(t.offset, 4, r.offset)
      else if c == Backspace then r.offset == t.offset - 1 && r.cells == t.cells[r.offset := ' ']
      else r.offset == t.offset + 1 && r.cells == t.cells[t.offset := c]
  {
    if c == Newline then
      NextMultipleFacts(t.offset, g.cols);
      DivModUnique(Size(g), g.cols, g.rows, 0);
      NextMultipleWithin(t.offset, g.cols, t.offset + g.cols - t.offset % g.cols, Size(g));
      Grid(t.cells, t.offset + g.cols - t.offset % g.cols)
    else if c == Tab then
      NextMultipleFacts(t.offset, 4);
      NextMultipleWithin(t.offset, 4, t.offset + 4 - t.offset % 4, Size(g));
      Grid(t.cells, t.offset + 4 - t.offset % 4)
    else if c == Backspace then
      Grid(t.cells[t.offset - 1 := ' '], t.offset - 1)
    else
      Grid(t.cells[t.offset := c], t.offset + 1)
  }

  /** Writing one character to one grid: the scroll check, then the
      character. */
  function Step(g: Geometry, s: Grid, c: char): (r: Grid)
    requires ValidGeometry(g) && Inv(g, s) && NoUnderflow(g, s, c)
    ensures Inv(g, r)
  {
    Put(g, ScrollCheck(g, s), c)
  }

  // ---------------------------------------------------------------------------
  // Writing a string, character by character

  /** No backspace of the text meets offset 0. */
  predicate CanWrite(g: Geometry, s: Grid, text: seq<char>)
    requires ValidGeometry(g) && Inv(g, s)
    decreases |text|
  {
    text == [] || (NoUnderflow(g, s, text[0]) && CanWrite(g, Step(g, s, text[0]), text[1..]))
  }

  function WriteText(g: Geometry, s: Grid, text: seq<char>): (r: Grid)
    requires ValidGeometry(g) && Inv(g, s) && CanWrite(g, s, text)
    ensures Inv(g, r)
    decreases |text|
  {
    if text == [] then s else WriteText(g, Step(g, s, text[0]), text[1..])
  }

  /** Writing a + b is writing a, then b. */
  lemma {:induction false} WriteTextSplit(g: Geometry, s: Grid, a: seq<char>, b: seq<char>)
    requires ValidGeometry(g) && Inv(g, s)
    ensures CanWrite(g, s, a + b) <==> CanWrite(g, s, a) && CanWrite(g, WriteText(g, s, a), b)
    ensures CanWrite(g, s, a + b) ==> WriteText(g, s, a + b) == WriteText(g, WriteText(g, s, a), b)
    decreases |a|
  {
    if a == [] {
      assert a + b == b;
    } else {
      assert (a + b)[0] == a[0] && (a + b)[1..] == a[1..] + b;
      if NoUnderflow(g, s, a[0]) {
        WriteTextSplit(g, Step(g, s, a[0]), a[1..], b);
      }
    }
  }

  /** Only backspace can fail: text without one can always be written. */
  lemma {:induction false} CanWriteWithoutBackspace(g: Geometry, s: Grid, text: seq<char>)
    requires ValidGeometry(g) && Inv(g, s)
    requires forall i :: 0 <= i < |text| ==> text[i] != Backspace
    ensures CanWrite(g, s, text)
    decreases |text|
  {
    if text != [] {
      CanWriteWithoutBackspace(g, Step(g, s, text[0]), text[1..]);
    }
  }

  /** Writing the prefix up to and including t[i] is writing t[i] after the
      prefix before it. */
  lemma {:induction false} WriteTextNext(g: Geometry, s: Grid, t: seq<char>, i: int)
    requires ValidGeometry(g) && Inv(g, s) && CanWrite(g, s, t) && 0 <= i < |t|
    ensures CanWrite(g, s, t[..i]) && CanWrite(g, s, t[..i + 1])
    ensures NoUnderflow(g, WriteText(g, s, t[..i]), t[i])
    ensures WriteText(g, s, t[..i + 1]) == Step(g, WriteText(g, s, t[..i]), t[i])
  {
    assert t == t[..i + 1] + t[i + 1..];
    WriteTextSplit(g, s, t[..i + 1], t[i + 1..]);
    assert t[..i + 1] == t[..i] + [t[i]];
    WriteTextSplit(g, s, t[..i], [t[i]]);
    var w := WriteText(g, s, t[..i]);
    assert CanWrite(g, w, [t[i]]);
    assert [t[i]][0] == t[i] && [t[i]][1..] == [];
    assert WriteText(g, w, [t[i]]) == WriteText(g, Step(g, w, t[i]), []);
  }

  /** Plain characters that fit in the rest of the grid are stored in order
      from the cursor on: no scroll happens and the cursor advances by their
      number. */
  lemma {:induction false} WritePlainWithinGrid(g: Geometry, s: Grid, t: seq<char>)
    requires ValidGeometry(g) && Inv(g, s)
    requires s.offset + |t| <= Size(g)
    requires forall i :: 0 <= i < |t| ==> IsPlain(t[i])
    ensures CanWrite(g, s, t)
    ensures WriteText(g, s, t) == Grid(s.cells[..s.offset] + t + s.cells[s.offset + |t|..], s.offset + |t|)
    decreases |t|
  {
    if t == [] {
      assert s.cells[..s.offset] + t + s.cells[s.offset..] == s.cells;
    } else {
      var next := Step(g, s, t[0]);
      assert next == Grid(s.cells[s.offset := t[0]], s.offset + 1);
      WritePlainWithinGrid(g, next, t[1..]);
      assert next.cells[..next.offset] == s.cells[..s.offset] + [t[0]];
      assert next.cells[next.offset + |t[1..]|..] == s.cells[s.offset + |t|..];
      assert s.cells[..s.offset] + [t[0]] + t[1..] == s.cells[..s.offset] + t;
    }
  }

  lemma ExampleFill()
    ensures ValidGeometry(Geometry(3, 4))
    ensures CanWrite(Geometry(3, 4), Grid(Spaces(12), 0), "AAAABBBBCCCC")
    ensures WriteText(Geometry(3, 4), Grid(Spaces(12), 0), "AAAABBBBCCCC") == Grid("AAAABBBBCCCC", 12)
  {
    var s := Grid(Spaces(12), 0);
    WritePlainWithinGrid(Geometry(3, 4), s, "AAAABBBBCCCC");
    assert s.cells[..0] + "AAAABBBBCCCC" + s.cells[12..] == "AAAABBBBCCCC";
  }

  lemma ExampleScrollStep()
    ensures ValidGeometry(Geometry(3, 4))
    ensures CanWrite(Geometry(3, 4), Grid("AAAABBBBCCCC", 12), "X")
    ensures WriteText(Geometry(3, 4), Grid("AAAABBBBCCCC", 12), "X") == Grid("BBBBCCCCX   ", 9)
  {
    var g, filled := Geometry(3, 4), Grid("AAAABBBBCCCC", 12);
    assert Scroll(g, filled).cells == "BBBBCCCC    ";
    assert ScrollCheck(g, filled) == Grid("BBBBCCCC    ", 8);
    assert Step(g, filled, 'X') == Grid("BBBBCCCCX   ", 9) by {
      assert "BBBBCCCC    "[8 := 'X'] == "BBBBCCCCX   ";
    }
  }

  /** On a blank 3x4 grid, "AAAABBBBCCCCX" fills the grid, then the X scrolls
      it once: the top row AAAA is gone and X starts the last row. */
  lemma ScrollExample()
    ensures ValidGeometry(Geometry(3, 4))
    ensures CanWrite(Geometry(3, 4), Grid(Spaces(12), 0), "AAAABBBBCCCCX")
    ensures WriteText(Geometry(3, 4), Grid(Spaces(12), 0), "AAAABBBBCCCCX") == Grid("BBBBCCCCX   ", 9)
  {
    ExampleFill();
    ExampleScrollStep();
    assert "AAAABBBBCCCCX" == "AAAABBBBCCCC" + "X";
    WriteTextSplit(Geometry(3, 4), Grid(Spaces(12), 0), "AAAABBBBCCCC", "X");
  }

  // ---------------------------------------------------------------------------
  // Rows as handed to the display

  function Row(g: Geometry, cells: seq<char>, i: int): (r: seq<char>)
    requires ValidGeometry(g) && |cells| == Size(g) && 0 <= i < g.rows
    ensures |r| == g.cols
  {
    AllRowsFit(g);
    cells[RowStart(g, i)..RowStart(g, i) + g.cols]
  }

  /** Row i of the grid is the slice cells[cols*i .. cols*i + cols). */
  function Rows(g: Geometry, cells: seq<char>): (r: seq<seq<char>>)
    requires ValidGeometry(g) && |cells| == Size(g)
    ensures |r| == g.rows
    ensures forall i :: 0 <= i < g.rows ==>
      0 <= RowStart(g, i) && RowStart(g, i) + g.cols <= |cells| &&
      r[i] == cells[RowStart(g, i)..RowStart(g, i) + g.cols]
  {
    AllRowsFit(g);
    seq(g.rows, i requires 0 <= i < g.rows => Row(g, cells, i))
  }

  function Flatten(rs: seq<seq<char>>): seq<char> {
    if rs == [] then [] else rs[0] + Flatten(rs[1..])
  }

  lemma {:induction false} FlattenRowsFrom(g: Geometry, cells: seq<char>, j: int)
    requires ValidGeometry(g) && |cells| == Size(g) && 0 <= j <= g.rows
    ensures 0 <= RowStart(g, j) <= |cells|
    ensures Flatten(Rows(g, cells)[j..]) == cells[RowStart(g, j)..]
    decreases g.rows - j
  {
    MulLe(0, j, g.cols);
    MulLe(j, g.rows, g.cols);
    var rs := Rows(g, cells);
    if j == g.rows {
      assert rs[j..] == [];
    } else {
      FlattenRowsFrom(g, cells, j + 1);
      assert rs[j..][0] == rs[j] && rs[j..][1..] == rs[j + 1..];
      assert RowStart(g, j + 1) == RowStart(g, j) + g.cols;
      assert cells[RowStart(g, j)..] == cells[RowStart(g, j)..RowStart(g, j) + g.cols] + cells[RowStart(g, j + 1)..];
    }
  }

  /** The rows, in order, are the whole grid: nothing is dropped or repeated. */
  lemma {:induction false} FlattenRows(g: Geometry, cells: seq<char>)
    requires ValidGeometry(g) && |cells| == Size(g)
    ensures Flatten(Rows(g, cells)) == cells
  {
    FlattenRowsFrom(g, cells, 0);
    assert Rows(g, cells)[0..] == Rows(g, cells);
  }

  /** When the cursor has reached the end, the scroll check moves every row
      up by one, appends a blank row and pulls the cursor back by one row. */
  lemma {:induction false} ScrollShiftsRows(g: Geometry, s: Grid)
    requires ValidGeometry(g) && Inv(g, s) && s.offset >= Size(g)
    ensures ScrollCheck(g, s).offset == s.offset - g.cols
    ensures Rows(g, ScrollCheck(g, s).cells) == Rows(g, s.cells)[1..] + [Spaces(g.cols)]
  {
    MulLe(1, g.rows, g.cols);
    var a := ScrollCheck(g, s).cells;
    assert a == Scroll(g, s).cells;
    var before, after := Rows(g, s.cells), Rows(g, a);
    var expected := before[1..] + [Spaces(g.cols)];
    AllRowsFit(g);
    forall i | 0 <= i < g.rows
      ensures after[i] == expected[i]
    {
      if i < g.rows - 1 {
        assert RowStart(g, i + 1) == RowStart(g, i) + g.cols;
        assert RowStart(g, i) + g.cols <= Size(g) - g.cols;
        assert after[i] == before[i + 1];
      } else {
        assert RowStart(g, i) == Size(g) - g.cols;
        assert after[i] == Spaces(g.cols);
      }
    }
  }

  // ---------------------------------------------------------------------------
  // The formatted text as the write loop sees it

  /** The characters before the first NUL: what `for (i = 0; s[i]; i++)`
      visits. */
  function CString(s: seq<char>): (r: seq<char>)
    ensures |r| <= |s| && r == s[..|r|]
    ensures forall i :: 0 <= i < |r| ==> r[i] != '\0'
    ensures |r| < |s| ==> s[|r|] == '\0'
  {
    if s == [] || s[0] == '\0' then [] else [s[0]] + CString(s[1..])
  }
}
