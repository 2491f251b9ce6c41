/** Splitting and joining strings at a single separator character, with the
    facts that relate the two. `Split` behaves like Rust's `str::split` with a
    `char` pattern: a string with n separators splits into n + 1 pieces, and
    the empty string splits into one empty piece. */
module Strings {

  /** True when every character of `t` satisfies `p`. */
  predicate AllChars(t: string, p: char -> bool) {
    forall i :: 0 <= i < |t| ==> p(t[i])
  }

  /** Number of occurrences of `ch` in `s`. */
  function Count(s: string, ch: char): nat
    decreases |s|
  {
    if |s| == 0 then 0 else (if s[0] == ch then 1 else 0) + Count(s[1..], ch)
  }

  /** The pieces of `s` between occurrences of `sep`, in order. */
  function Split(s: string, sep: char): (pieces: seq<string>)
    decreases |s|
    ensures |pieces| >= 1
  {
    if |s| == 0 then [""]
    else
      var rest := Split(s[1..], sep);
      if s[0] == sep then [""] + rest
      else [[s[0]] + rest[0]] + rest[1..]
  }

  /** The pieces concatenated with `sep` between neighbours (Rust's `join`). */
  function Join(pieces: seq<string>, sep: string): string
    decreases |pieces|
  {
    if |pieces| == 0 then ""
    else if |pieces| == 1 then pieces[0]
    else pieces[0] + sep + Join(pieces[1..], sep)
  }

  lemma AllCharsCons(c: char, t: string, p: char -> bool)
    ensures AllChars([c] + t, p) <==> p(c) && AllChars(t, p)
  {
    if p(c) && AllChars(t, p) {
      forall i | 0 <= i < |[c] + t| ensures p(([c] + t)[i]) {
        if i > 0 {
          assert ([c] + t)[i] == t[i - 1];
        }
      }
    }
    if AllChars([c] + t, p) {
      assert p(([c] + t)[0]);
      forall i | 0 <= i < |t| ensures p(t[i]) {
        assert t[i] == ([c] + t)[i + 1];
      }
    }
  }

  /** No piece contains the separator. */
  lemma {:induction false} SplitPiecesAreFree(s: string, sep: char)
    ensures forall k :: 0 <= k < |Split(s, sep)| ==> sep !in Split(s, sep)[k]
    decreases |s|
  {
    if |s| > 0 {
      SplitPiecesAreFree(s[1..], sep);
      var rest := Split(s[1..], sep);
      if s[0] != sep {
        assert sep !in rest[0];
        assert sep !in [s[0]] + rest[0];
      }
    }
  }

  /** A string splits into one more piece than it has separators. */
  lemma {:induction false} SplitLength(s: string, sep: char)
    ensures |Split(s, sep)| == Count(s, sep) + 1
    decreases |s|
  {
    if |s| > 0 {
      SplitLength(s[1..], sep);
    }
  }

  /** Joining the pieces back with the separator gives the original string. */
  lemma {:induction false} JoinSplit(s: string, sep: char)
    ensures Join(Split(s, sep), [sep]) == s
    decreases |s|
  {
    if |s| > 0 {
      JoinSplit(s[1..], sep);
      var rest := Split(s[1..], sep);
      if s[0] == sep {
        assert Split(s, sep) == [""] + rest;
        assert ([""] + rest)[1..] == rest;
        assert s == [sep] + s[1..];
      } else {
        var pieces := [[s[0]] + rest[0]] + rest[1..];
        assert Split(s, sep) == pieces;
        if |rest| == 1 {
          assert s == [s[0]] + s[1..];
        } else {
          assert pieces[1..] == rest[1..];
          assert Join(rest, [sep]) == rest[0] + [sep] + Join(rest[1..], [sep]);
          assert s == [s[0]] + s[1..];
        }
      }
    }
  }

  /** A string without the separator is a single piece. */
  lemma {:induction false} SplitFree(s: string, sep: char)
    requires sep !in s
    ensures Split(s, sep) == [s]
    decreases |s|
  {
    if |s| > 0 {
      assert sep !in s[1..];
      SplitFree(s[1..], sep);
      assert s == [s[0]] + s[1..];
    }
  }

  /** Splitting a separator-free head followed by the separator peels off that head. */
  lemma {:induction false} SplitAfterPiece(a: string, sep: char, b: string)
    requires sep !in a
    ensures Split(a + [sep] + b, sep) == [a] + Split(b, sep)
    decreases |a|
  {
    if |a| == 0 {
      assert a + [sep] + b == [sep] + b;
      assert ([sep] + b)[1..] == b;
    } else {
      assert sep !in a[1..];
      SplitAfterPiece(a[1..], sep, b);
      var s := a + [sep] + b;
      assert s[0] == a[0];
      assert s[1..] == a[1..] + [sep] + b;
      assert a == [a[0]] + a[1..];
    }
  }

  /** Splitting a join of separator-free pieces recovers the pieces. */
  lemma {:induction false} SplitJoin(pieces: seq<string>, sep: char)
    requires |pieces| >= 1
    requires forall k :: 0 <= k < |pieces| ==> sep !in pieces[k]
    ensures Split(Join(pieces, [sep]), sep) == pieces
    decreases |pieces|
  {
    if |pieces| == 1 {
      SplitFree(pieces[0], sep);
    } else {
      SplitJoin(pieces[1..], sep);
      SplitAfterPiece(pieces[0], sep, Join(pieces[1..], [sep]));
      assert pieces == [pieces[0]] + pieces[1..];
    }
  }
  /** Splitting distributes over a separator placed between two strings. */
  lemma {:induction false} SplitConcat(a: string, sep: char, b: string)
    ensures Split(a + [sep] + b, sep) == Split(a, sep) + Split(b, sep)
    decreases |a|
  {
    if |a| == 0 {
      assert a + [sep] + b == [sep] + b;
    } else {
      var t := a[1..] + [sep] + b;
      assert a + [sep] + b == [a[0]] + t;
      assert ([a[0]] + t)[1..] == t;
      SplitConcat(a[1..], sep, b);
      SplitCons(a[0], a[1..], sep);
      SplitCons(a[0], t, sep);
    }
  }

  /** One unfolding of `Split` on a string with a known first character. */
  lemma SplitCons(c: char, t: string, sep: char)
    ensures Split([c] + t, sep) ==
      (if c == sep then [""] + Split(t, sep)
       else [[c] + Split(t, sep)[0]] + Split(t, sep)[1..])
  {
    assert ([c] + t)[0] == c;
    assert ([c] + t)[1..] == t;
  }

  /** Every piece from position `from` on satisfies `p`. */
  predicate PiecesFrom(pieces: seq<string>, from: nat, p: string -> bool) {
    forall k :: from <= k < |pieces| ==> p(pieces[k])
  }

  /** Prepending a piece shifts the later pieces by one. */
  lemma PiecesFromCons(x: string, rest: seq<string>, p: string -> bool)
    ensures PiecesFrom([x] + rest, 1, p) <==> PiecesFrom(rest, 0, p)
  {
    var pieces := [x] + rest;
    if PiecesFrom(pieces, 1, p) {
      forall k | 0 <= k < |rest| ensures p(rest[k]) {
        assert rest[k] == pieces[k + 1];
      }
    }
    if PiecesFrom(rest, 0, p) {
      forall k | 1 <= k < |pieces| ensures p(pieces[k]) {
        assert pieces[k] == rest[k - 1];
      }
    }
  }

  /** Replacing the first piece leaves the later pieces alone. */
  lemma PiecesFromNewHead(x: string, rest: seq<string>, p: string -> bool)
    requires |rest| >= 1
    ensures PiecesFrom([x] + rest[1..], 1, p) <==> PiecesFrom(rest, 1, p)
  {
    var pieces := [x] + rest[1..];
    assert forall k :: 1 <= k < |pieces| ==> pieces[k] == rest[k];
  }

  /** The pieces from 0 on are the first piece and those from 1 on. */
  lemma PiecesFromHead(pieces: seq<string>, p: string -> bool)
    requires |pieces| >= 1
    ensures PiecesFrom(pieces, 0, p) <==> p(pieces[0]) && PiecesFrom(pieces, 1, p)
  {
  }
}
