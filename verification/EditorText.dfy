/** Lines of a text as offsets, and the keys of the editor as functions on a text and a cursor. */
module EditorText {

  predicate IsLineStart(s: seq<char>, off: int) {
    0 <= off <= |s| && (off == 0 || s[off - 1] == '\n')
  }

  /** The start of the line holding offset `off`. */
  function LineStart(s: seq<char>, off: nat): (r: nat)
    requires off <= |s|
    ensures r <= off && IsLineStart(s, r) && '\n' !in s[r..off]
  {
    if off == 0 || s[off - 1] == '\n' then off
    else
      var r := LineStart(s, off - 1);
      assert s[r..off] == s[r..off - 1] + [s[off - 1]];
      r
  }

  /** The first newline at or after `off`, or the end of the text. */
  function LineEnd(s: seq<char>, off: nat): (r: nat)
    requires off <= |s|
    ensures off <= r <= |s| && (r < |s| ==> s[r] == '\n') && '\n' !in s[off..r]
    decreases |s| - off
  {
    if off == |s| || s[off] == '\n' then off
    else
      var r := LineEnd(s, off + 1);
      assert s[off..r] == [s[off]] + s[off + 1..r];
      r
  }

  function PrevLine(s: seq<char>, off: nat): (r: nat)
    requires off <= |s|
    ensures r <= off && (off > 0 ==> r < off) && IsLineStart(s, r)
  {
    var start := LineStart(s, off);
    if start == 0 then 0 else LineStart(s, start - 1)
  }

  function NextLine(s: seq<char>, off: nat): (r: nat)
    requires off <= |s|
    ensures off <= r <= |s| && (r < |s| ==> off < r && IsLineStart(s, r))
  {
    var end := LineEnd(s, off);
    if end >= |s| then |s| else end + 1
  }

  function Column(s: seq<char>, off: nat): (c: nat)
    requires off <= |s|
  {
    off - LineStart(s, off)
  }

  function Newlines(s: seq<char>): (n: nat) {
    if s == [] then 0 else (if s[0] == '\n' then 1 else 0) + Newlines(s[1..])
  }

  // ----- keys -----

  const CAPACITY := 8192

  datatype Key = Type(c: char) | Tab | Backspace | Left | Right | Up | Down | Other

  datatype Doc = Doc(text: string, cursor: nat)

  ghost predicate DocOk(d: Doc) {
    d.cursor <= |d.text| < CAPACITY
  }

  /** Inserts at the cursor unless the buffer is full. */
  function Inserted(d: Doc, c: char): (d': Doc)
    requires DocOk(d)
    ensures DocOk(d')
  {
    if |d.text| + 1 >= CAPACITY then d
    else Doc(d.text[..d.cursor] + [c] + d.text[d.cursor..], d.cursor + 1)
  }

  function Deleted(d: Doc): (d': Doc)
    requires DocOk(d)
    ensures DocOk(d')
  {
    if d.cursor == 0 then d else Doc(d.text[..d.cursor - 1] + d.text[d.cursor..], d.cursor - 1)
  }

  function Min(a: nat, b: nat): (m: nat) {
    if a < b then a else b
  }

  /** The same column one line up, or its end when that line is shorter. */
  function MovedUp(d: Doc): (d': Doc)
    requires DocOk(d)
    ensures DocOk(d')
  {
    var prev := PrevLine(d.text, d.cursor);
    if LineStart(d.text, d.cursor) == 0 then d
    else d.(cursor := prev + Min(Column(d.text, d.cursor), LineEnd(d.text, prev) - prev))
  }

  /** The same column one line down; the key does nothing when no text follows the line. */
  function MovedDown(d: Doc): (d': Doc)
    requires DocOk(d)
    ensures DocOk(d')
  {
    var next := NextLine(d.text, d.cursor);
    if next >= |d.text| then d
    else d.(cursor := next + Min(Column(d.text, d.cursor), LineEnd(d.text, next) - next))
  }

  function Pressed(d: Doc, key: Key): (d': Doc)
    requires DocOk(d)
    ensures DocOk(d')
  {
    match key
    case Type(c) => Inserted(d, c)
    case Tab => Inserted(Inserted(d, ' '), ' ')
    case Backspace => Deleted(d)
    case Left => if d.cursor > 0 then d.(cursor := d.cursor - 1) else d
    case Right => if d.cursor < |d.text| then d.(cursor := d.cursor + 1) else d
    case Up => MovedUp(d)
    case Down => MovedDown(d)
    case Other => d
  }

  function PressedAll(d: Doc, keys: seq<Key>): (d': Doc)
    requires DocOk(d)
    ensures DocOk(d')
    decreases |keys|
  {
    if keys == [] then d else PressedAll(Pressed(d, keys[0]), keys[1..])
  }

  // ----- lines -----

  /** A line start with no newline up to the offset is the start of its line. */
  lemma {:induction false} LineStartUnique(s: seq<char>, r: nat, off: nat)
    requires r <= off <= |s| && IsLineStart(s, r) && '\n' !in s[r..off]
    ensures LineStart(s, off) == r
  {
    if r < off {
      assert s[off - 1] == s[r..off][off - 1 - r];
      assert s[r..off - 1] == s[r..off][..off - 1 - r];
      LineStartUnique(s, r, off - 1);
    }
  }

  /** A newline or the end with no newline since the offset is the end of its line. */
  lemma {:induction false} LineEndUnique(s: seq<char>, off: nat, r: nat)
    requires off <= r <= |s| && (r < |s| ==> s[r] == '\n') && '\n' !in s[off..r]
    ensures LineEnd(s, off) == r
    decreases r - off
  {
    if off < r {
      assert s[off] == s[off..r][0];
      assert s[off + 1..r] == s[off..r][1..];
      LineEndUnique(s, off + 1, r);
    }
  }

  lemma SubstringFree(s: seq<char>, a: nat, b: nat, c: nat, d: nat)
    requires a <= b <= c <= d <= |s| && '\n' !in s[a..d]
    ensures '\n' !in s[b..c]
  {
    forall i | 0 <= i < c - b
      ensures s[b..c][i] != '\n'
    {
      assert s[b..c][i] == s[a..d][b - a + i];
    }
  }

  /** Every offset between the start and the end of a line belongs to that line. */
  lemma OnLine(s: seq<char>, start: nat, off: nat)
    requires start <= off <= |s| && IsLineStart(s, start) && off <= LineEnd(s, start)
    ensures LineStart(s, off) == start && LineEnd(s, off) == LineEnd(s, start) && Column(s, off) == off - start
  {
    var end := LineEnd(s, start);
    SubstringFree(s, start, start, off, end);
    SubstringFree(s, start, off, end, end);
    LineStartUnique(s, start, off);
    LineEndUnique(s, off, end);
  }

  lemma LineEndOf(s: seq<char>, off: nat)
    requires off <= |s|
    ensures LineEnd(s, LineStart(s, off)) == LineEnd(s, off)
  {
    var start, end := LineStart(s, off), LineEnd(s, off);
    assert s[start..end] == s[start..off] + s[off..end];
    LineEndUnique(s, start, end);
  }

  /** Going down and up again returns to the same place exactly when the line below is long enough. */
  lemma UpUndoesDown(d: Doc)
    requires DocOk(d) && NextLine(d.text, d.cursor) < |d.text|
    ensures MovedUp(MovedDown(d)) == d <==>
      Column(d.text, d.cursor) <= LineEnd(d.text, NextLine(d.text, d.cursor)) - NextLine(d.text, d.cursor)
  {
    hide LineStart, LineEnd;
    var s, c := d.text, d.cursor;
    var start, next := LineStart(s, c), NextLine(s, c);
    var end := LineEnd(s, c);
    var down := MovedDown(d);
    OnLine(s, next, down.cursor);
    assert LineStart(s, down.cursor) == next == end + 1;
    LineEndOf(s, c);
    OnLine(s, start, end);
    assert PrevLine(s, down.cursor) == start;
  }

  /** The down key reaches the next line exactly when that line is not the empty end of the text. */
  lemma DownReaches(d: Doc)
    requires DocOk(d)
    ensures LineStart(d.text, MovedDown(d).cursor) == LineEnd(d.text, d.cursor) + 1 <==>
      LineEnd(d.text, d.cursor) + 1 < |d.text|
  {
    hide LineStart, LineEnd;
    var next := NextLine(d.text, d.cursor);
    if next < |d.text| {
      OnLine(d.text, next, MovedDown(d).cursor);
    }
  }

  /** Left then right, and right then left, return to the same place inside the text. */
  lemma LeftRight(d: Doc)
    requires DocOk(d)
    ensures d.cursor > 0 ==> Pressed(Pressed(d, Left), Right) == d && Pressed(d, Left).cursor < d.cursor
    ensures d.cursor < |d.text| ==> Pressed(Pressed(d, Right), Left) == d && Pressed(d, Right).cursor > d.cursor
    ensures Pressed(d, Left).text == d.text == Pressed(d, Right).text
    ensures d.cursor == 0 ==> Pressed(d, Left) == d
    ensures d.cursor == |d.text| ==> Pressed(d, Right) == d
  {
  }

  /** Typing puts the character before the cursor; a full buffer of 8191 stays; a tab is two blanks. */
  lemma TypeAdds(d: Doc, c: char)
    requires DocOk(d)
    ensures |d.text| < 8191 ==>
      var e := Pressed(d, Type(c));
      && |e.text| == |d.text| + 1 && e.cursor == d.cursor + 1 && e.text[d.cursor] == c
      && e.text[..d.cursor] == d.text[..d.cursor] && e.text[d.cursor + 1..] == d.text[d.cursor..]
    ensures |d.text| == 8191 ==> Pressed(d, Type(c)) == d
    ensures |d.text| < 8190 ==>
      Pressed(d, Tab).text == d.text[..d.cursor] + [' ', ' '] + d.text[d.cursor..] && Pressed(d, Tab).cursor == d.cursor + 2
  {
    var e := Inserted(d, ' ');
    if |d.text| < 8190 {
      assert e.text[..d.cursor + 1] == d.text[..d.cursor] + [' '] && e.text[d.cursor + 1..] == d.text[d.cursor..];
    }
  }

  /** Up and down keep the column, or land on the end of a shorter line. */
  lemma LandsOnLine(d: Doc)
    requires DocOk(d)
    ensures LineStart(d.text, d.cursor) > 0 ==>
      var e, prev := MovedUp(d), PrevLine(d.text, d.cursor);
      && e.text == d.text && LineStart(d.text, e.cursor) == prev
      && (if Column(d.text, d.cursor) <= LineEnd(d.text, prev) - prev then Column(d.text, e.cursor) == Column(d.text, d.cursor)
          else e.cursor == LineEnd(d.text, prev))
    ensures NextLine(d.text, d.cursor) < |d.text| ==>
      var e, next := MovedDown(d), NextLine(d.text, d.cursor);
      && e.text == d.text && LineStart(d.text, e.cursor) == next
      && (if Column(d.text, d.cursor) <= LineEnd(d.text, next) - next then Column(d.text, e.cursor) == Column(d.text, d.cursor)
          else e.cursor == LineEnd(d.text, next))
    ensures LineStart(d.text, d.cursor) == 0 ==> MovedUp(d) == d
  {
    hide LineStart, LineEnd;
    var prev, next := PrevLine(d.text, d.cursor), NextLine(d.text, d.cursor);
    if LineStart(d.text, d.cursor) > 0 { OnLine(d.text, prev, MovedUp(d).cursor); }
    if next < |d.text| { OnLine(d.text, next, MovedDown(d).cursor); }
  }

  /** A newline just typed is undone by one backspace, and so is any character. */
  lemma BackspaceUndoesType(d: Doc, c: char)
    requires DocOk(d) && |d.text| + 1 < CAPACITY
    ensures Deleted(Inserted(d, c)) == d
  {
    var e := Inserted(d, c);
    assert e.text[..d.cursor] == d.text[..d.cursor];
    assert e.text[d.cursor + 1..] == d.text[d.cursor..];
    assert d.text[..d.cursor] + d.text[d.cursor..] == d.text;
  }

  // ----- counting lines -----

  lemma {:induction false} NewlinesBoth(a: seq<char>, b: seq<char>)
    ensures Newlines(a + b) == Newlines(a) + Newlines(b)
  {
    if a == [] {
      assert a + b == b;
    } else {
      assert (a + b)[1..] == a[1..] + b;
      NewlinesBoth(a[1..], b);
    }
  }

  lemma {:induction false} NoNewlines(s: seq<char>)
    requires '\n' !in s
    ensures Newlines(s) == 0
  {
    if s != [] { NoNewlines(s[1..]); }
  }

  /** Starting one line further down leaves one newline fewer before the cursor. */
  lemma OneLineLess(s: seq<char>, v: nat, c: nat)
    requires v <= c <= |s| && Newlines(s[v..c]) > 0
    ensures LineEnd(s, v) < c
    ensures Newlines(s[LineEnd(s, v) + 1..c]) == Newlines(s[v..c]) - 1
  {
    var e := LineEnd(s, v);
    if e >= c {
      SubstringFree(s, v, v, c, e);
      NoNewlines(s[v..c]);
    } else {
      assert s[v..c] == s[v..e] + ([s[e]] + s[e + 1..c]);
      NewlinesBoth(s[v..e], [s[e]] + s[e + 1..c]);
      NoNewlines(s[v..e]);
      assert ([s[e]] + s[e + 1..c])[1..] == s[e + 1..c];
    }
  }
}
