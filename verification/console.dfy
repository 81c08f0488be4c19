/** The dual text console of console.c: two character grids (TV and DRC)
    that every written character updates independently, a foreground flag
    that gates drawing, and the draw routine that hands each grid's rows to
    the display. */
module TextConsole {
  import opened TextGrid

  datatype Option<T> = None | Some(value: T)

  /** The rows handed to the display for one console, top to bottom. */
  type Frame = seq<seq<char>>

  /** One console: fixed geometry, a rows*cols character buffer and a
      linear cursor. */
  class Console {
    const rows: int
    const cols: int
    const buffer: array<char>
    var offset: int

    function Geom(): Geometry {
      Geometry(rows, cols)
    }

    ghost predicate Valid()
      reads this
    {
      ValidGeometry(Geom()) && buffer.Length == Size(Geom()) && 0 <= offset <= Size(Geom())
    }

    ghost function State(): Grid
      reads this, buffer
    {
      Grid(buffer[..], offset)
    }

    /** What the display shows for this console. */
    ghost function View(): Frame
      reads this, buffer
      requires Valid()
    {
      Rows(Geom(), buffer[..])
    }

    /** Allocates the buffer; its contents are unspecified until cleared. */
    constructor (rows: int, cols: int)
      requires ValidGeometry(Geometry(rows, cols))
      ensures this.rows == rows && this.cols == cols && offset == 0
      ensures Valid() && fresh(buffer)
    {
      this.rows, this.cols := rows, cols;
      buffer := new char[rows * cols];
      offset := 0;
    }

    /** The scroll of console_write_char: the buffer moves up by one row as
        an overlapping move (memmove semantics), the last row is blanked and
        the cursor steps back one row. */
    method ScrollUp()
      requires Valid() && offset >= rows * cols
      modifies this, buffer
      ensures Valid()
      ensures cols <= buffer.Length && State() == Scroll(Geom(), old(State()))
    {
      MulLe(1, rows, cols);
      ghost var before := buffer[..];
      var shift := rows * cols - cols;  // (rows - 1) * cols
      forall i | 0 <= i < shift {
        buffer[i] := buffer[i + cols];
      }
      assert buffer[..shift] == before[cols..];
      forall i | shift <= i < shift + cols {
        buffer[i] := ' ';
      }
      assert buffer[shift..] == Spaces(cols);
      assert buffer[..] == buffer[..shift] + buffer[shift..];
      offset := offset - cols;
    }

    /** The per-console body of console_write_char. */
    method WriteChar(c: char)
      requires Valid() && NoUnderflow(Geom(), State(), c)
      modifies this, buffer
      ensures Valid()
      ensures State() == Step(Geom(), old(State()), c)
    {
      if offset >= rows * cols {
        ScrollUp();
      }
      PutChar(c);
    }

    /** The switch of console_write_char, once the scroll check is done. */
    method PutChar(c: char)
      requires Valid() && offset < Size(Geom())
      requires c == Backspace ==> offset >= 1
      modifies this, buffer
      ensures Valid()
      ensures State() == Put(Geom(), old(State()), c)
    {
      ghost var t := State();
      ghost var r := Put(Geom(), t, c);
      if c == Newline {
        offset := offset + cols - offset % cols;
        assert State() == r;
      } else if c == Tab {
        offset := offset + 4 - offset % 4;
        assert State() == r;
      } else if c == Backspace {
        offset := offset - 1;
        buffer[offset] := ' ';
        assert State() == r;
      } else {
        buffer[offset] := c;
        offset := offset + 1;
        assert State() == r;
      }
    }

    /** The per-console body of console_clear: blank every cell, keep the
        cursor where it is. */
    method Fill()
      requires Valid()
      modifies buffer
      ensures Valid()
      ensures buffer[..] == Spaces(Size(Geom()))
    {
      forall i | 0 <= i < buffer.Length {
        buffer[i] := ' ';
      }
    }

    /** The per-console body of console_refresh: the rows, top to bottom,
        each exactly cols characters of the buffer. */
    method Draw() returns (frame: Frame)
      requires Valid()
      ensures frame == View()
      ensures |frame| == rows
    {
      frame := [];
      for i := 0 to rows
        invariant frame == Rows(Geom(), buffer[..])[..i]
      {
        frame := frame + [Row(Geom(), buffer[..], i)];
      }
    }
  }

  /** The file-level state of console.c: the two consoles and the
      foreground flag. */
  class Consoles {
    const cons: seq<Console>
    ghost const Repr: set<object>
    var inForeground: bool

    ghost predicate Valid()
      reads this, Repr
    {
      && |cons| == 2
      && this !in Repr
      && (forall d :: 0 <= d < |cons| ==> cons[d] in Repr && cons[d].buffer in Repr)
      && (forall d, e :: 0 <= d < e < |cons| ==> cons[d] != cons[e] && cons[d].buffer != cons[e].buffer)
      && (forall d :: 0 <= d < |cons| ==> cons[d].Valid())
    }

    /** frames is what one refresh draws: nothing in the background, every
        console's rows in order in the foreground. */
    ghost predicate Shows(frames: seq<Frame>)
      reads this, Repr
      requires Valid()
    {
      if inForeground then
        |frames| == |cons| && forall d :: 0 <= d < |cons| ==> frames[d] == cons[d].View()
      else
        frames == []
    }

    /** The static initialiser of cons[] and the two buffer allocations. */
    constructor ()
      ensures Valid() && fresh(Repr) && !inForeground
      ensures |cons| == 2
      ensures cons[0].rows == 27 && cons[0].cols == 80
      ensures cons[1].rows == 18 && cons[1].cols == 80
      ensures forall d :: 0 <= d < |cons| ==> cons[d].offset == 0
    {
      var tv := new Console(27, 80);
      var drc := new Console(18, 80);
      cons := [tv, drc];
      Repr := {tv, tv.buffer, drc, drc.buffer};
      inForeground := false;
    }

    /** console_refresh: a no-op in the background; in the foreground, the
        rows of every console in order. */
    method Refresh() returns (frames: seq<Frame>)
      requires Valid()
      ensures Shows(frames)
    {
      frames := [];
      if !inForeground {
        return;
      }
      for d := 0 to |cons|
        invariant |frames| == d
        invariant forall e :: 0 <= e < d ==> frames[e] == cons[e].View()
      {
        var frame := cons[d].Draw();
        frames := frames + [frame];
      }
    }

    /** console_acquire_foreground: idempotent; otherwise sets the flag and
        draws once. Always returns 0. */
    method AcquireForeground() returns (status: int, drawn: seq<Frame>)
      requires Valid()
      modifies this
      ensures Valid() && inForeground && status == 0
      ensures old(inForeground) ==> drawn == []
      ensures !old(inForeground) ==> Shows(drawn)
    {
      if inForeground {
        return 0, [];
      }
      inForeground := true;
      drawn := Refresh();
      status := 0;
    }

    /** console_release_foreground: idempotent; otherwise clears the flag.
        Nothing is drawn. Always returns 0. */
    method ReleaseForeground() returns (status: int)
      requires Valid()
      modifies this
      ensures Valid() && !inForeground && status == 0
    {
      if !inForeground {
        return 0;
      }
      inForeground := false;
      status := 0;
    }

    /** console_write_char: the same character is written to every console,
        each with its own geometry. */
    method WriteChar(c: char)
      requires Valid()
      requires forall d :: 0 <= d < |cons| ==> NoUnderflow(cons[d].Geom(), cons[d].State(), c)
      modifies Repr
      ensures Valid()
      ensures forall d :: 0 <= d < |cons| ==> cons[d].State() == Step(cons[d].Geom(), old(cons[d].State()), c)
    {
      for d := 0 to |cons|
        invariant Valid()
        invariant forall e :: 0 <= e < d ==> cons[e].State() == Step(cons[e].Geom(), old(cons[e].State()), c)
        invariant forall e :: d <= e < |cons| ==> cons[e].State() == old(cons[e].State())
      {
        assert forall e :: 0 <= e < |cons| && e != d ==> cons[e] != cons[d] && cons[e].buffer != cons[d].buffer;
        cons[d].WriteChar(c);
      }
    }

    /** console_clear: every cell of every console becomes a space; the
        cursors are not reset. Draws once. */
    method Clear() returns (drawn: seq<Frame>)
      requires Valid()
      modifies Repr
      ensures Valid() && inForeground == old(inForeground)
      ensures forall d :: 0 <= d < |cons| ==>
        cons[d].State() == Grid(Spaces(Size(cons[d].Geom())), old(cons[d].offset))
      ensures Shows(drawn)
    {
      for d := 0 to |cons|
        invariant Valid()
        invariant forall e :: 0 <= e < d ==> cons[e].buffer[..] == Spaces(Size(cons[e].Geom()))
        invariant forall e :: 0 <= e < |cons| ==> cons[e].offset == old(cons[e].offset)
      {
        cons[d].Fill();
      }
      drawn := Refresh();
    }

    /** console_printf on already-formatted text (None when formatting
        failed): the characters before the first NUL go to every console in
        order; one draw follows either way. */
    method Printf(formatted: Option<seq<char>>) returns (drawn: seq<Frame>)
      requires Valid()
      requires formatted.Some? ==> forall d :: 0 <= d < |cons| ==>
        CanWrite(cons[d].Geom(), cons[d].State(), CString(formatted.value))
      modifies Repr
      ensures Valid() && inForeground == old(inForeground)
      ensures forall d :: 0 <= d < |cons| ==>
        cons[d].State() == if formatted.Some?
          then WriteText(cons[d].Geom(), old(cons[d].State()), CString(formatted.value))
          else old(cons[d].State())
      ensures Shows(drawn)
    {
      if formatted.Some? {
        var text := formatted.value;
        ghost var out := CString(text);
        var i := 0;
        while i < |text| && text[i] != '\0'
          invariant 0 <= i <= |out|
          invariant Valid()
          invariant forall d :: 0 <= d < |cons| ==>
            CanWrite(cons[d].Geom(), old(cons[d].State()), out[..i]) &&
            cons[d].State() == WriteText(cons[d].Geom(), old(cons[d].State()), out[..i])
        {
          forall d | 0 <= d < |cons|
            ensures NoUnderflow(cons[d].Geom(), cons[d].State(), text[i])
            ensures CanWrite(cons[d].Geom(), old(cons[d].State()), out[..i + 1])
            ensures WriteText(cons[d].Geom(), old(cons[d].State()), out[..i + 1])
              == Step(cons[d].Geom(), cons[d].State(), text[i])
          {
            WriteTextNext(cons[d].Geom(), old(cons[d].State()), out, i);
          }
          WriteChar(text[i]);
          i := i + 1;
        }
        assert out[..i] == out;
      }
      drawn := Refresh();
    }

    /** console_init: allocate, clear (not yet drawn: the console starts in
        the background), then acquire the foreground, which draws. */
    static method Init() returns (sys: Consoles, drawn: seq<Frame>)
      ensures fresh(sys) && fresh(sys.Repr) && sys.Valid() && sys.inForeground
      ensures sys.cons[0].rows == 27 && sys.cons[0].cols == 80
      ensures sys.cons[1].rows == 18 && sys.cons[1].cols == 80
      ensures forall d :: 0 <= d < |sys.cons| ==> sys.cons[d].State() == Grid(Spaces(Size(sys.cons[d].Geom())), 0)
      ensures sys.Shows(drawn)
    {
      sys := new Consoles();
      var cleared := sys.Clear();
      var status, acquired := sys.AcquireForeground();
      drawn := cleared + acquired;
    }

    /** console_deinit, apart from freeing memory: releases the foreground. */
    method Deinit()
      requires Valid()
      modifies this
      ensures Valid() && !inForeground
    {
      var _ := ReleaseForeground();
    }
  }
}
