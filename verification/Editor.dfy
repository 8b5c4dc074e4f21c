/**
 The editor's buffer: text edited in place by overlapping moves, a cursor, and a
 window of 24 lines that follows it.
 */
module EditorBuffer {
  import opened EditorText

  const ROWS := 24

  lemma StartInText(b: seq<char>, n: nat, off: nat)
    requires off <= n <= |b|
    ensures LineStart(b[..n], off) == LineStart(b, off)
  {
    var r := LineStart(b, off);
    assert b[..n][r..off] == b[r..off];
    LineStartUnique(b[..n], r, off);
  }

  class Editor {
    const buf: array<char>
    var len: nat
    var cursor: nat
    var viewOff: nat
    var dirty: bool

    /** The cursor is in the text, and a window that starts no later than the cursor starts with a line. */
    ghost predicate Sound()
      reads this, buf
    {
      && buf.Length == CAPACITY && cursor <= len < CAPACITY && viewOff <= CAPACITY
      && (viewOff <= cursor ==> IsLineStart(buf[..], viewOff))
    }

    /** Moreover the cursor is in the window. */
    ghost predicate Settled()
      reads this, buf
    {
      Sound() && viewOff <= cursor && Newlines(buf[viewOff..cursor]) < ROWS
    }

    ghost function Contents(): (d: Doc)
      requires Sound()
      reads this, buf
      ensures DocOk(d)
    {
      Doc(buf[..len], cursor)
    }

    /** Opens on the bytes read from a file, of which at most 8191 are kept. */
    constructor (file: string)
      ensures fresh(buf) && Settled() && Contents() == Doc(file[..Min(|file|, CAPACITY - 1)], 0) && !dirty
    {
      var n := Min(|file|, CAPACITY - 1);
      buf := new char[CAPACITY](i => if 0 <= i < n && i < |file| then file[i] else '\0');
      len, cursor, viewOff, dirty := n, 0, 0, false;
      new;
      assert buf[..len] == file[..n];
      assert buf[0..0] == [];
    }

    // ----- moving bytes -----

    /** Copies `count` bytes from `src` to `dst`; the two stretches may overlap either way. */
    method MemMove(dst: nat, src: nat, count: nat)
      requires dst + count <= buf.Length && src + count <= buf.Length
      modifies buf
      ensures buf[..] == old(buf[..])[..dst] + old(buf[..])[src..src + count] + old(buf[..])[dst + count..]
    {
      if dst == src || count == 0 {
        return;
      }
      if dst < src {
        CopyForward(dst, src, count);
      } else {
        CopyBackward(dst, src, count);
      }
    }

    method CopyForward(dst: nat, src: nat, count: nat)
      requires dst < src && src + count <= buf.Length
      modifies buf
      ensures forall j :: 0 <= j < buf.Length ==> buf[j] == if dst <= j < dst + count then old(buf[src + (j - dst)]) else old(buf[j])
    {
      var i := 0;
      while i < count
        invariant 0 <= i <= count
        invariant forall j :: 0 <= j < buf.Length ==> buf[j] == if dst <= j < dst + i then old(buf[src + (j - dst)]) else old(buf[j])
      {
        buf[dst + i] := buf[src + i];
        i := i + 1;
      }
    }

    method CopyBackward(dst: nat, src: nat, count: nat)
      requires src < dst && dst + count <= buf.Length
      modifies buf
      ensures forall j :: 0 <= j < buf.Length ==> buf[j] == if dst <= j < dst + count then old(buf[src + (j - dst)]) else old(buf[j])
    {
      var i := count;
      while i > 0
        invariant 0 <= i <= count
        invariant forall j :: 0 <= j < buf.Length ==> buf[j] == if dst + i <= j < dst + count then old(buf[src + (j - dst)]) else old(buf[j])
      {
        buf[dst + i - 1] := buf[src + i - 1];
        i := i - 1;
      }
    }

    // ----- geometry -----

    method LineStartAt(off: nat) returns (r: nat)
      requires off <= buf.Length
      ensures r == LineStart(buf[..], off)
    {
      r := off;
      while r > 0 && buf[r - 1] != '\n'
        invariant r <= off && LineStart(buf[..], r) == LineStart(buf[..], off)
      {
        r := r - 1;
      }
    }

    method LineEndAt(off: nat) returns (r: nat)
      requires off <= len <= buf.Length
      ensures r == LineEnd(buf[..len], off)
    {
      r := off;
      while r < len && buf[r] != '\n'
        invariant off <= r <= len && LineEnd(buf[..len], r) == LineEnd(buf[..len], off)
      {
        r := r + 1;
      }
    }

    method PrevLineAt(off: nat) returns (r: nat)
      requires off <= buf.Length
      ensures r == PrevLine(buf[..], off)
    {
      var start := LineStartAt(off);
      if start == 0 {
        return 0;
      }
      r := LineStartAt(start - 1);
    }

    method NextLineAt(off: nat) returns (r: nat)
      requires off <= len <= buf.Length
      ensures r == NextLine(buf[..len], off)
    {
      var end := LineEndAt(off);
      if end >= len {
        return len;
      }
      return end + 1;
    }

    /** The row of an offset in the window: -1 above it, 24 below it. */
    method ScreenRow(off: nat) returns (row: int)
      requires off <= buf.Length
      ensures off < viewOff ==> row == -1
      ensures off >= viewOff ==> row == Min(Newlines(buf[viewOff..off]), ROWS)
    {
      if off < viewOff {
        return -1;
      }
      row := 0;
      var i := viewOff;
      while i < off
        invariant viewOff <= i <= off && row == Newlines(buf[viewOff..i]) && row < ROWS
      {
        assert buf[viewOff..i + 1] == buf[viewOff..i] + [buf[i]];
        NewlinesBoth(buf[viewOff..i], [buf[i]]);
        if buf[i] == '\n' {
          row := row + 1;
        }
        if row >= ROWS {
          assert buf[viewOff..off] == buf[viewOff..i + 1] + buf[i + 1..off];
          NewlinesBoth(buf[viewOff..i + 1], buf[i + 1..off]);
          return ROWS;
        }
        i := i + 1;
      }
    }

    /** Brings the cursor into the window; a window that shows it already stays. */
    method ScrollIntoView()
      requires Sound()
      modifies `viewOff
      ensures Settled()
      ensures old(viewOff) <= cursor && Newlines(buf[old(viewOff)..cursor]) <= 23 ==> viewOff == old(viewOff)
      ensures old(viewOff) <= cursor && Newlines(buf[old(viewOff)..cursor]) > 23 ==> Newlines(buf[viewOff..cursor]) == 23
    {
      while cursor < viewOff
        invariant Sound() && (old(viewOff) <= cursor ==> viewOff == old(viewOff))
        decreases viewOff
      {
        viewOff := PrevLineAt(viewOff);
      }
      var row := ScreenRow(cursor);
      while row >= ROWS
        invariant Sound() && viewOff <= cursor && row == Min(Newlines(buf[viewOff..cursor]), ROWS)
        invariant old(viewOff) <= cursor ==> viewOff == old(viewOff) || Newlines(buf[viewOff..cursor]) >= ROWS - 1
        invariant old(Settled()) ==> viewOff == old(viewOff)
        decreases cursor - viewOff
      {
        NextInBuffer(buf[..], len, viewOff, cursor);
        assert buf[..][viewOff..cursor] == buf[viewOff..cursor];
        viewOff := NextLineAt(viewOff);
        assert buf[..][viewOff..cursor] == buf[viewOff..cursor];
        // At least 23 line ends lie between here and the cursor, so the end of the text is not reached.
        assert viewOff < len;
        row := ScreenRow(cursor);
      }
    }

    // ----- keys -----

    method InsertChar(c: char)
      requires Sound() && viewOff <= cursor
      modifies this, buf
      ensures Sound() && viewOff <= cursor && viewOff == old(viewOff)
      ensures Contents() == Inserted(old(Contents()), c)
      ensures dirty == (old(dirty) || old(len) + 1 < CAPACITY)
    {
      hide IsLineStart;
      if len + 1 >= CAPACITY {
        return;
      }
      ghost var b := buf[..];
      MemMove(cursor + 1, cursor, len - cursor);
      buf[cursor] := c;
      InsertedBytes(b, buf[..], len, cursor, c);
      SameStart(b, buf[..], viewOff);
      len := len + 1;
      cursor := cursor + 1;
      dirty := true;
    }

    method DeleteBefore()
      requires Sound() && viewOff <= cursor
      modifies this, buf
      ensures Sound() && viewOff == old(viewOff) && Contents() == Deleted(old(Contents()))
      ensures dirty == (old(dirty) || old(cursor) > 0)
    {
      hide IsLineStart;
      if cursor == 0 {
        return;
      }
      ghost var b := buf[..];
      MemMove(cursor - 1, cursor, len - cursor);
      DeletedBytes(b, buf[..], len, cursor);
      if viewOff < cursor { SameStart(b, buf[..], viewOff); }
      len := len - 1;
      cursor := cursor - 1;
      dirty := true;
    }

    method MoveUp()
      requires Sound() && viewOff <= cursor
      modifies `cursor
      ensures Sound() && Contents() == MovedUp(old(Contents()))
    {
      var start := LineStartAt(cursor);
      var col := cursor - start;
      var prev := PrevLineAt(cursor);
      UpInBuffer(buf[..], len, cursor);
      if prev == start {
        return;
      }
      var end := LineEndAt(prev);
      cursor := prev + if col < end - prev then col else end - prev;
    }

    method MoveDown()
      requires Sound() && viewOff <= cursor
      modifies `cursor
      ensures Sound() && Contents() == MovedDown(old(Contents()))
    {
      var start := LineStartAt(cursor);
      StartInText(buf[..], len, cursor);
      var col := cursor - start;
      var next := NextLineAt(cursor);
      if next >= len {
        var end := LineEndAt(cursor);
        cursor := if col < end - start then start + col else end;
        return;
      }
      var end := LineEndAt(next);
      cursor := next + if col < end - next then col else end - next;
    }

    method Apply(key: Key)
      requires Settled()
      modifies this, buf
      ensures Sound() && Contents() == Pressed(old(Contents()), key)
    {
      hide IsLineStart, Inserted, Deleted, MovedUp, MovedDown;
      match key
      case Type(c) => InsertChar(c);
      case Tab =>
        InsertChar(' ');
        InsertChar(' ');
      case Backspace => DeleteBefore();
      case Left => MoveLeft();
      case Right => MoveRight();
      case Up => MoveUp();
      case Down => MoveDown();
      case Other =>
    }

    method MoveLeft()
      requires Sound() && viewOff <= cursor
      modifies `cursor
      ensures Sound() && Contents() == Pressed(old(Contents()), Left)
    {
      if cursor > 0 {
        cursor := cursor - 1;
      }
    }

    method MoveRight()
      requires Sound() && viewOff <= cursor
      modifies `cursor
      ensures Sound() && Contents() == Pressed(old(Contents()), Right)
    {
      if cursor < len {
        cursor := cursor + 1;
      }
    }

    /** One key: the text and the cursor change as specified, and the cursor is in the window again. */
    method Press(key: Key)
      requires Settled()
      modifies this, buf
      ensures Settled() && Contents() == Pressed(old(Contents()), key)
    {
      hide IsLineStart, Pressed, Newlines;
      Apply(key);
      ScrollIntoView();
    }

    /** Any keys in any order. */
    method PressAll(keys: seq<Key>)
      requires Settled()
      modifies this, buf
      ensures Settled() && Contents() == PressedAll(old(Contents()), keys)
      decreases |keys|
    {
      hide IsLineStart, Pressed, Newlines;
      if keys != [] {
        Press(keys[0]);
        PressAll(keys[1..]);
      }
    }
  }

  /** With a newline before the cursor, the next line starts no later than the cursor. */
  lemma NextInBuffer(b: seq<char>, n: nat, v: nat, c: nat)
    requires v <= c <= n <= |b| && Newlines(b[v..c]) > 1
    ensures v < NextLine(b[..n], v) < c && IsLineStart(b, NextLine(b[..n], v))
    ensures Newlines(b[NextLine(b[..n], v)..c]) == Newlines(b[v..c]) - 1
  {
    var s := b[..n];
    assert s[v..c] == b[v..c];
    OneLineLess(s, v, c);
    var e := LineEnd(s, v);
    assert s[e + 1..c] == b[e + 1..c];
    assert b[c..c] == [];
  }

  /** A line start depends on the bytes before it only. */
  lemma SameStart(b: seq<char>, b': seq<char>, v: nat)
    requires |b| == |b'| && v <= |b| && (v > 0 ==> b[v - 1] == b'[v - 1]) && IsLineStart(b, v)
    ensures IsLineStart(b', v)
  {
  }

  /** Shifting the tail right and storing a byte inserts it. */
  lemma InsertedBytes(b: seq<char>, b': seq<char>, n: nat, c: nat, x: char)
    requires c <= n < |b| && |b'| == |b|
    requires b' == (b[..c + 1] + b[c..n] + b[n + 1..])[c := x]
    ensures b'[..n + 1] == b[..n][..c] + [x] + b[..n][c..]
    ensures forall i :: 0 <= i < c ==> b'[i] == b[i]
  {
  }

  /** Shifting the tail left deletes the byte before it. */
  lemma DeletedBytes(b: seq<char>, b': seq<char>, n: nat, c: nat)
    requires 0 < c <= n <= |b|
    requires b' == b[..c - 1] + b[c..n] + b[n - 1..]
    ensures b'[..n - 1] == b[..n][..c - 1] + b[..n][c..]
    ensures forall i :: 0 <= i < c - 1 ==> b'[i] == b[i]
  {
  }

  /** The previous line is the line itself only on the first line. */
  lemma FirstLine(b: seq<char>, c: nat)
    requires c <= |b|
    ensures PrevLine(b, c) == LineStart(b, c) <==> LineStart(b, c) == 0
  {
    var start := LineStart(b, c);
    if start > 0 {
      assert PrevLine(b, c) <= start - 1;
    }
  }

  /** The previous line seen in the buffer is the previous line of the text. */
  lemma UpInBuffer(b: seq<char>, n: nat, c: nat)
    requires c <= n <= |b|
    ensures LineStart(b[..n], c) == LineStart(b, c) && PrevLine(b[..n], c) == PrevLine(b, c)
    ensures PrevLine(b, c) == LineStart(b, c) <==> LineStart(b, c) == 0
  {
    hide LineStart, PrevLine, IsLineStart;
    FirstLine(b, c);
    StartInText(b, n, c);
    var start := LineStart(b, c);
    PrevIs(b, c, start);
    PrevIs(b[..n], c, start);
    if start > 0 {
      StartInText(b, n, start - 1);
    }
  }

  lemma PrevIs(b: seq<char>, c: nat, start: nat)
    requires c <= |b| && start == LineStart(b, c)
    ensures PrevLine(b, c) == if start == 0 then 0 else LineStart(b, start - 1)
  {
  }
}
