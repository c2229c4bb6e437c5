/** The JavaScript string operations the pipeline relies on:
    `String.prototype.split` and `Array.prototype.join` with a
    one-character separator, `String.prototype.includes`, and
    `String.prototype.toLowerCase` (on ASCII letters). */
module Strings {

  /** `String.prototype.split(sep)`: the pieces between occurrences of
      `sep`. There is always at least one piece; the empty string gives
      `[""]`, and a trailing separator gives a trailing empty piece. */
  function Split(s: string, sep: char): (r: seq<string>)
    ensures |r| >= 1
  {
    if s == [] then [[]]
    else
      var rest := Split(s[1..], sep);
      if s[0] == sep then [[]] + rest
      else [[s[0]] + rest[0]] + rest[1..]
  }

  /** `r` starts with `first` and ends with `last`. */
  predicate Bracketed(r: string, first: string, last: string) {
    first <= r && |last| <= |r| && r[|r| - |last|..] == last
  }

  /** `Array.prototype.join(sep)`: the pieces with `sep` between them. The
      text starts with the first piece and ends with the last. */
  function Join(pieces: seq<string>, sep: char): (r: string)
    ensures pieces != [] ==> Bracketed(r, pieces[0], pieces[|pieces| - 1])
  {
    if pieces == [] then []
    else if |pieces| == 1 then pieces[0]
    else
      var rest := Join(pieces[1..], sep);
      assert pieces[1..][|pieces[1..]| - 1] == pieces[|pieces| - 1];
      pieces[0] + [sep] + rest
  }

  /** No piece of a split holds the separator. */
  lemma {:induction false} SplitPieces(s: string, sep: char)
    ensures forall k :: 0 <= k < |Split(s, sep)| ==> sep !in Split(s, sep)[k]
    decreases |s|
  {
    if s != [] {
      SplitPieces(s[1..], sep);
      var rest := Split(s[1..], sep);
      if s[0] != sep {
        assert sep !in rest[0];
        assert sep !in [s[0]] + rest[0];
      }
    }
  }

  lemma JoinCons(p: string, rest: seq<string>, sep: char)
    requires rest != []
    ensures Join([p] + rest, sep) == p + [sep] + Join(rest, sep)
  {
    assert ([p] + rest)[1..] == rest;
  }

  /** Putting a character in front of the first piece puts it in front of
      the join. */
  lemma JoinHead(c: char, q: seq<string>, sep: char)
    requires q != []
    ensures Join([[c] + q[0]] + q[1..], sep) == [c] + Join(q, sep)
  {
    if |q| == 1 {
      assert [[c] + q[0]] + q[1..] == [[c] + q[0]];
    } else {
      JoinHeadLong(c, q[0], q[1..], sep);
      assert q == [q[0]] + q[1..];
    }
  }

  lemma JoinHeadLong(c: char, p: string, rest: seq<string>, sep: char)
    requires rest != []
    ensures Join([[c] + p] + rest, sep) == [c] + Join([p] + rest, sep)
  {
    var tail := Join(rest, sep);
    JoinCons([c] + p, rest, sep);
    JoinCons(p, rest, sep);
    Assoc([c], p, [sep]);
    Assoc([c], p + [sep], tail);
  }

  /** Joining the pieces of a split gives back the string. */
  lemma {:induction false} JoinSplit(s: string, sep: char)
    ensures Join(Split(s, sep), sep) == s
    decreases |s|
  {
    if s != [] {
      var rest := Split(s[1..], sep);
      JoinSplit(s[1..], sep);
      assert s == [s[0]] + s[1..];
      if s[0] == sep {
        JoinCons([], rest, sep);
      } else {
        JoinHead(s[0], rest, sep);
      }
    }
  }

  /** Splitting a join of pieces without the separator gives back the pieces. */
  lemma {:induction false} SplitJoin(pieces: seq<string>, sep: char)
    requires pieces != []
    requires forall k :: 0 <= k < |pieces| ==> sep !in pieces[k]
    ensures Split(Join(pieces, sep), sep) == pieces
    decreases |pieces|
  {
    if |pieces| == 1 {
      SplitFree(pieces[0], sep);
    } else {
      SplitJoin(pieces[1..], sep);
      SplitAround(pieces[0], Join(pieces[1..], sep), sep);
      SplitFree(pieces[0], sep);
      assert pieces == [pieces[0]] + pieces[1..];
    }
  }

  /** A string without the separator splits into itself. */
  lemma {:induction false} SplitFree(s: string, sep: char)
    requires sep !in s
    ensures Split(s, sep) == [s]
    decreases |s|
  {
    if s != [] {
      assert sep !in s[1..] by {
        forall k | 0 <= k < |s[1..]| ensures s[1..][k] != sep {
          assert s[1..][k] == s[k + 1];
        }
      }
      SplitFree(s[1..], sep);
      assert [s[0]] + s[1..] == s;
    }
  }

  lemma SplitConsSep(rest: string, sep: char)
    ensures Split([sep] + rest, sep) == [[]] + Split(rest, sep)
  {
    assert ([sep] + rest)[0] == sep && ([sep] + rest)[1..] == rest;
  }

  lemma SplitConsChar(c: char, rest: string, sep: char)
    requires c != sep
    ensures Split([c] + rest, sep) == [[c] + Split(rest, sep)[0]] + Split(rest, sep)[1..]
  {
    assert ([c] + rest)[0] == c && ([c] + rest)[1..] == rest;
  }

  lemma SplitAroundSep(x: string, y: string, sep: char)
    requires Split(x + [sep] + y, sep) == Split(x, sep) + Split(y, sep)
    ensures Split([sep] + (x + [sep] + y), sep) == Split([sep] + x, sep) + Split(y, sep)
  {
    SplitConsSep(x + [sep] + y, sep);
    SplitConsSep(x, sep);
    Assoc([[]], Split(x, sep), Split(y, sep));
  }

  lemma SplitAroundChar(c: char, x: string, y: string, sep: char)
    requires c != sep
    requires Split(x + [sep] + y, sep) == Split(x, sep) + Split(y, sep)
    ensures Split([c] + (x + [sep] + y), sep) == Split([c] + x, sep) + Split(y, sep)
  {
    SplitConsChar(c, x + [sep] + y, sep);
    SplitConsChar(c, x, sep);
    var left, right := Split(x, sep), Split(y, sep);
    HeadTail(left, right);
    Assoc([[c] + left[0]], left[1..], right);
  }

  lemma HeadTail<T>(l: seq<T>, r: seq<T>)
    requires l != []
    ensures (l + r)[0] == l[0] && (l + r)[1..] == l[1..] + r
  {
  }

  lemma Assoc<T>(a: seq<T>, b: seq<T>, c: seq<T>)
    ensures a + (b + c) == (a + b) + c
  {
  }

  /** Splitting around one separator splits each side. */
  lemma {:induction false} SplitAround(x: string, y: string, sep: char)
    ensures Split(x + [sep] + y, sep) == Split(x, sep) + Split(y, sep)
    decreases |x|
  {
    if x == [] {
      assert x + [sep] + y == [sep] + y;
      SplitConsSep(y, sep);
    } else {
      var c, rest := x[0], x[1..];
      SplitAround(rest, y, sep);
      assert x == [c] + rest;
      assert x + [sep] + y == [c] + (rest + [sep] + y);
      if c == sep {
        SplitAroundSep(rest, y, sep);
      } else {
        SplitAroundChar(c, rest, y, sep);
      }
    }
  }

  /** A string holding the separator splits at its last occurrence. */
  lemma {:induction false} LastSeparator(s: string, sep: char)
    requires sep in s
    ensures exists x, y :: s == x + [sep] + y && sep !in y
    decreases |s|
  {
    var init, c := s[..|s| - 1], s[|s| - 1];
    assert s == init + [c];
    if c == sep {
      var y: string := [];
      assert s == init + [sep] + y && sep !in y;
    } else {
      LastSeparator(init, sep);
      var x, y :| init == x + [sep] + y && sep !in y;
      var y' := y + [c];
      assert s == x + [sep] + y' && sep !in y';
    }
  }

  /** The last piece of a split (what `pop()` takes) is the longest suffix
      without the separator: the whole string, or the text after the last
      separator. */
  lemma SplitLast(s: string, sep: char)
    ensures var t := Split(s, sep)[|Split(s, sep)| - 1];
      && sep !in t && |t| <= |s| && s[|s| - |t|..] == t
      && (|t| == |s| || s[|s| - |t| - 1] == sep)
  {
    SplitPieces(s, sep);
    if sep !in s {
      SplitFree(s, sep);
    } else {
      LastSeparator(s, sep);
      var x, y :| s == x + [sep] + y && sep !in y;
      SplitAround(x, y, sep);
      SplitFree(y, sep);
      assert s[|s| - |y|..] == y;
    }
  }

  /** `w` occurs in `s` at position `i`. */
  predicate OccursAt(s: string, i: nat, w: string) {
    i + |w| <= |s| && s[i..i + |w|] == w
  }

  lemma OccursShift(s: string, i: nat, w: string)
    requires s != []
    ensures OccursAt(s, i + 1, w) <==> OccursAt(s[1..], i, w)
  {
    if i + 1 + |w| <= |s| {
      assert s[i + 1..i + 1 + |w|] == s[1..][i..i + |w|];
    }
  }

  /** `String.prototype.includes(w)`: `w` occurs somewhere in `s`. */
  function Includes(s: string, w: string): (r: bool)
    ensures r <==> exists i: nat :: OccursAt(s, i, w)
    decreases |s|
  {
    if OccursAt(s, 0, w) then true
    else if s == [] then false
    else
      var r := Includes(s[1..], w);
      assert r ==> exists i: nat :: OccursAt(s, i, w) by {
        if r {
          var i: nat :| OccursAt(s[1..], i, w);
          OccursShift(s, i, w);
        }
      }
      assert (exists i: nat :: OccursAt(s, i, w)) ==> r by {
        forall i: nat | OccursAt(s, i, w) ensures r {
          OccursShift(s, i - 1, w);
        }
      }
      r
  }

  /** `toLowerCase` on one character: ASCII capitals become small letters. */
  function LowerChar(c: char): (d: char)
    ensures 'A' <= c <= 'Z' ==> 'a' <= d <= 'z' && d as int - c as int == 32
    ensures !('A' <= c <= 'Z') ==> d == c
  {
    if 'A' <= c <= 'Z' then (c as int + 32) as char else c
  }

  /** `String.prototype.toLowerCase`, character by character. */
  function ToLower(s: string): (r: string)
    ensures |r| == |s|
    ensures forall i :: 0 <= i < |s| ==> r[i] == LowerChar(s[i])
  {
    seq(|s|, i requires 0 <= i < |s| => LowerChar(s[i]))
  }
}
