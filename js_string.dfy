/** The parts of JavaScript's string and array behaviour that the flows
    rely on: `String.prototype.split` with a one-character separator and
    array indexing that yields `undefined` past the end. */
module JsString {
  import opened Common

  /** `s.split(sep)`: the pieces of `s` between the occurrences of `sep`.
      The first piece is the longest prefix of `s` free of `sep`. */
  function Split(s: string, sep: char): (pieces: seq<string>)
    ensures |pieces| >= 1
    ensures forall i :: 0 <= i < |pieces| ==> sep !in pieces[i]
    ensures (|pieces| == 1) == (sep !in s)
    decreases |s|
  {
    if s == [] then [""]
    else
      var rest := Split(s[1..], sep);
      assert s == [s[0]] + s[1..];
      if s[0] == sep then [""] + rest
      else [[s[0]] + rest[0]] + rest[1..]
  }

  /** `pieces.join(sep)`, the inverse of Split. */
  function Join(pieces: seq<string>, sep: char): string
    decreases |pieces|
  {
    if pieces == [] then ""
    else if |pieces| == 1 then pieces[0]
    else pieces[0] + [sep] + Join(pieces[1..], sep)
  }

  /** `pieces[i]`: `undefined` when the index is past the end. */
  function At(pieces: seq<string>, i: nat): Option<string>
  {
    if i < |pieces| then Some(pieces[i]) else None
  }

  /** Joining the pieces with the separator gives back the string. */
  lemma {:induction false} JoinSplit(s: string, sep: char)
    ensures Join(Split(s, sep), sep) == s
    decreases |s|
  {
    if s != [] {
      JoinSplit(s[1..], sep);
      var rest := Split(s[1..], sep);
      var pieces := Split(s, sep);
      assert s == [s[0]] + s[1..];
      if s[0] == sep {
        assert pieces == [""] + rest && pieces[1..] == rest;
        assert Join(pieces, sep) == "" + [sep] + Join(rest, sep);
      } else if |rest| == 1 {
        assert pieces == [[s[0]] + rest[0]];
      } else {
        assert pieces == [[s[0]] + rest[0]] + rest[1..] && pieces[1..] == rest[1..];
        assert Join(pieces, sep) == [s[0]] + rest[0] + [sep] + Join(rest[1..], sep);
        assert Join(rest, sep) == rest[0] + [sep] + Join(rest[1..], sep);
      }
    }
  }

  /** A prefix free of the separator is glued onto the first piece and
      leaves the other pieces alone. */
  lemma {:induction false} SplitPrefix(x: string, y: string, sep: char)
    requires sep !in x
    ensures Split(x + y, sep) == [x + Split(y, sep)[0]] + Split(y, sep)[1..]
    decreases |x|
  {
    var tail := Split(y, sep);
    if x == [] {
      assert [tail[0]] + tail[1..] == tail;
      assert x + y == y && x + tail[0] == tail[0];
    } else {
      var s := x + y;
      assert s[0] == x[0] && x[0] != sep;
      assert s[1..] == x[1..] + y;
      SplitPrefix(x[1..], y, sep);
      var rest := Split(s[1..], sep);
      assert Split(s, sep) == [[x[0]] + rest[0]] + rest[1..];
      assert rest[0] == x[1..] + tail[0];
      assert rest[1..] == tail[1..];
      assert [x[0]] + (x[1..] + tail[0]) == x + tail[0];
    }
  }

  /** A string free of the separator is a single piece. */
  lemma SplitNoSeparator(x: string, sep: char)
    requires sep !in x
    ensures Split(x, sep) == [x]
  {
    SplitPrefix(x, "", sep);
    assert x + "" == x;
  }

  /** The text before the first separator is the first piece, and the rest
      splits on its own. */
  lemma SplitAtFirst(x: string, y: string, sep: char)
    requires sep !in x
    ensures Split(x + [sep] + y, sep) == [x] + Split(y, sep)
  {
    SplitPrefix(x, [sep] + y, sep);
    assert x + [sep] + y == x + ([sep] + y);
    assert ([sep] + y)[1..] == y;
    assert Split([sep] + y, sep) == [""] + Split(y, sep);
    assert x + "" == x;
  }

  /** A piece holds only characters of the string it came from. */
  lemma {:induction false} SplitPieceChars(s: string, sep: char, i: nat, c: char)
    requires i < |Split(s, sep)| && c in Split(s, sep)[i]
    ensures c in s
    decreases |s|
  {
    var rest := Split(s[1..], sep);
    assert s == [s[0]] + s[1..];
    if s[0] == sep {
      SplitPieceChars(s[1..], sep, i - 1, c);
    } else if i > 0 {
      SplitPieceChars(s[1..], sep, i, c);
    } else if c != s[0] {
      SplitPieceChars(s[1..], sep, 0, c);
    }
  }

  /** A separator-free prefix closed by a separator or by the end of the
      string is the first piece. */
  lemma SplitFirstPiece(a: string, tail: string, sep: char)
    requires sep !in a
    requires tail == [] || tail[0] == sep
    ensures Split(a + tail, sep)[0] == a
  {
    SplitPrefix(a, tail, sep);
    assert a + Split(tail, sep)[0] == a;
  }

  /** Between the first separator and the next one (or the end) lies the
      second piece. */
  lemma SplitSecondPiece(a: string, b: string, tail: string, sep: char)
    requires sep !in a && sep !in b
    requires tail == [] || tail[0] == sep
    ensures |Split(a + [sep] + b + tail, sep)| >= 2
    ensures Split(a + [sep] + b + tail, sep)[1] == b
  {
    assert a + [sep] + b + tail == a + [sep] + (b + tail);
    SplitAtFirst(a, b + tail, sep);
    SplitFirstPiece(b, tail, sep);
  }

  /** What follows the pieces already taken: nothing, or a separator and
      the join of the remaining pieces. */
  function Rest(pieces: seq<string>, sep: char): (tail: string)
    ensures tail == [] || tail[0] == sep
  {
    if pieces == [] then "" else [sep] + Join(pieces, sep)
  }

  /** Conversely, the string is its first piece followed by nothing or by
      a separator. */
  lemma SplitFirstPieceShape(s: string, sep: char)
    ensures s == Split(s, sep)[0] + Rest(Split(s, sep)[1..], sep)
  {
  }

  /** Conversely, the string is its first piece, a separator and its
      second piece, followed by nothing or by a further separator. */
  lemma SplitSecondPieceShape(s: string, sep: char)
    requires |Split(s, sep)| >= 2
    ensures s == Split(s, sep)[0] + [sep] + Split(s, sep)[1] + Rest(Split(s, sep)[2..], sep)
  {
    JoinSplit(s, sep);
    var pieces := Split(s, sep);
    assert pieces[1..][1..] == pieces[2..];
    if |pieces| == 2 {
      assert s == pieces[0] + [sep] + pieces[1] + "";
    }
  }

  /** Splitting the join of separator-free pieces gives back the pieces. */
  lemma {:induction false} SplitJoin(pieces: seq<string>, sep: char)
    requires |pieces| >= 1
    requires forall i :: 0 <= i < |pieces| ==> sep !in pieces[i]
    ensures Split(Join(pieces, sep), sep) == pieces
    decreases |pieces|
  {
    if |pieces| == 1 {
      SplitNoSeparator(pieces[0], sep);
    } else {
      SplitJoin(pieces[1..], sep);
      SplitAtFirst(pieces[0], Join(pieces[1..], sep), sep);
      assert [pieces[0]] + pieces[1..] == pieces;
    }
  }
}
