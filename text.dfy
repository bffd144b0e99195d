/**
 * The string primitives the command parser relies on: JavaScript's
 * `String.prototype.split(" ")`, `Array.prototype.join(sep)`, the final
 * space-separated token, ASCII case folding and substring containment.
 */
module Text {

  /** `s.split(" ")`: the pieces between single spaces, empty pieces kept. */
  function Split(s: string): (r: seq<string>)
    ensures |r| >= 1
    decreases |s|
  {
    if s == [] then [[]] else ConsPiece(s[0], Split(s[1..]))
  }

  /** `ws.join(sep)` (the empty array joins to the empty string). */
  function Join(ws: seq<string>, sep: string): string
  {
    if |ws| == 0 then []
    else if |ws| == 1 then ws[0]
    else ws[0] + sep + Join(ws[1..], sep)
  }

  /** The summed length of the elements. */
  function TotalLength(ws: seq<string>): nat
  {
    if ws == [] then 0 else |ws[0]| + TotalLength(ws[1..])
  }

  /** `s.split(" ").slice(-1).pop()`: the last space-separated piece, which holds no space. */
  function LastToken(s: string): (r: string)
    ensures ' ' !in r
  {
    var pieces := Split(s);
    SplitPiecesHaveNoSpace(s);
    pieces[|pieces| - 1]
  }

  /** Joining the pieces of a split with a space gives back the text. */
  lemma {:induction false} JoinSplit(s: string)
    ensures Join(Split(s), " ") == s
    decreases |s|
  {
    if s != [] {
      var rest := Split(s[1..]);
      JoinSplit(s[1..]);
      if s[0] == ' ' {
        assert Split(s) == [[]] + rest;
        assert Join(Split(s), " ") == [] + " " + Join(rest, " ");
      } else if |rest| == 1 {
        assert Split(s) == [[s[0]] + rest[0]];
        assert Join(rest, " ") == rest[0];
        assert s == [s[0]] + s[1..];
      } else {
        var r := [[s[0]] + rest[0]] + rest[1..];
        assert Split(s) == r;
        assert r[1..] == rest[1..];
        assert Join(r, " ") == [s[0]] + rest[0] + " " + Join(rest[1..], " ");
        assert Join(rest, " ") == rest[0] + " " + Join(rest[1..], " ");
        assert s == [s[0]] + s[1..];
      }
    }
  }

  /** A split has one more piece than the text has spaces. */
  lemma {:induction false} SplitCount(s: string)
    ensures |Split(s)| == multiset(s)[' '] + 1
    decreases |s|
  {
    if s != [] {
      SplitCount(s[1..]);
      assert s == [s[0]] + s[1..];
      SplitUnfold(s);
    }
  }

  /** A join is as long as all its elements plus one separator between each two. */
  lemma {:induction false} JoinLength(ws: seq<string>, sep: string)
    requires |ws| >= 1
    ensures |Join(ws, sep)| == TotalLength(ws) + (|ws| - 1) * |sep|
  {
    if |ws| > 1 {
      JoinLength(ws[1..], sep);
    }
  }

  /** A join ends with its last element. */
  lemma {:induction false} JoinEndsWithLast(ws: seq<string>, sep: string)
    requires |ws| >= 1
    ensures EndsWith(Join(ws, sep), ws[|ws| - 1])
  {
    if |ws| > 1 {
      JoinEndsWithLast(ws[1..], sep);
      var front, rest := ws[0] + sep, Join(ws[1..], sep);
      assert Join(ws, sep) == front + rest;
      assert (front + rest)[|front + rest| - |ws[|ws| - 1]|..] == rest[|rest| - |ws[|ws| - 1]|..];
    }
  }

  /** A text without spaces is its own single piece. */
  lemma {:induction false} SplitWithoutSpace(s: string)
    requires ' ' !in s
    ensures Split(s) == [s]
    decreases |s|
  {
    if s != [] {
      assert ' ' !in s[1..] by {
        forall k | 0 <= k < |s[1..]| ensures s[1..][k] != ' ' {
          assert s[1..][k] == s[k + 1];
        }
      }
      SplitWithoutSpace(s[1..]);
      assert s == [s[0]] + s[1..];
    }
  }

  /** One unfolding of Split on a non-empty text. */
  lemma SplitUnfold(s: string)
    requires s != []
    ensures Split(s) == ConsPiece(s[0], Split(s[1..]))
  {
  }

  /** Splitting at a space concatenates the splits of the two sides. */
  lemma {:induction false} SplitAtSpace(a: string, b: string)
    ensures Split(a + " " + b) == Split(a) + Split(b)
    decreases |a|
  {
    if a == [] {
      var x := a + " " + b;
      assert x[0] == ' ' && x[1..] == b;
      SplitUnfold(x);
    } else {
      assert a == [a[0]] + a[1..];
      SplitAtSpace(a[1..], b);
      SplitAtSpaceCons(a[0], a[1..], b);
    }
  }

  /** The inductive step of SplitAtSpace: one more character in front. */
  lemma SplitAtSpaceCons(c: char, a: string, b: string)
    requires Split(a + " " + b) == Split(a) + Split(b)
    ensures Split([c] + a + " " + b) == Split([c] + a) + Split(b)
  {
    var x, y := [c] + a + " " + b, [c] + a;
    assert Split(x) == ConsPiece(c, Split(a + " " + b)) by {
      assert x[0] == c && x[1..] == a + " " + b;
      SplitUnfold(x);
    }
    assert Split(y) == ConsPiece(c, Split(a)) by {
      assert y[0] == c && y[1..] == a;
      SplitUnfold(y);
    }
    ConsPieceConcat(c, Split(a), Split(b));
  }

  /** The pieces of [c] + s, given the pieces of s (one unfolding of Split). */
  function ConsPiece(c: char, pieces: seq<string>): seq<string>
    requires |pieces| >= 1
  {
    if c == ' ' then [[]] + pieces else [[c] + pieces[0]] + pieces[1..]
  }

  /** Putting a character in front commutes with appending further pieces. */
  lemma ConsPieceConcat(c: char, t: seq<string>, u: seq<string>)
    requires |t| >= 1
    ensures ConsPiece(c, t + u) == ConsPiece(c, t) + u
  {
    if c != ' ' {
      assert (t + u)[0] == t[0];
      assert (t + u)[1..] == t[1..] + u;
    }
  }

  /** Splitting the joined pieces (none of them holding a space) gives them back. */
  lemma {:induction false} SplitJoin(ws: seq<string>)
    requires |ws| >= 1
    requires forall k :: 0 <= k < |ws| ==> ' ' !in ws[k]
    ensures Split(Join(ws, " ")) == ws
  {
    if |ws| == 1 {
      SplitWithoutSpace(ws[0]);
    } else {
      SplitJoin(ws[1..]);
      SplitWithoutSpace(ws[0]);
      SplitAtSpace(ws[0], Join(ws[1..], " "));
      assert ws == [ws[0]] + ws[1..];
    }
  }

  /** Whatever precedes the final space does not affect the last token. */
  lemma LastTokenAfterSpace(a: string, b: string)
    ensures LastToken(a + " " + b) == LastToken(b)
  {
    SplitAtSpace(a, b);
    var sa, sb := Split(a), Split(b);
    assert (sa + sb)[|sa + sb| - 1] == sb[|sb| - 1];
  }

  /** No piece of a split holds a space. */
  lemma {:induction false} SplitPiecesHaveNoSpace(s: string)
    ensures forall k :: 0 <= k < |Split(s)| ==> ' ' !in Split(s)[k]
    decreases |s|
  {
    if s != [] {
      SplitPiecesHaveNoSpace(s[1..]);
      SplitUnfold(s);
      var rest := Split(s[1..]);
      if s[0] != ' ' {
        assert ' ' !in [s[0]] + rest[0];
        assert forall k :: 1 <= k < |Split(s)| ==> Split(s)[k] == rest[k];
      } else {
        assert forall k :: 1 <= k < |Split(s)| ==> Split(s)[k] == rest[k - 1];
      }
    }
  }

  /** The last token is an end of the text that holds no space, and a text without spaces is its own last token. */
  lemma LastTokenShape(s: string)
    ensures ' ' !in LastToken(s)
    ensures EndsWith(s, LastToken(s))
    ensures ' ' !in s ==> LastToken(s) == s
  {
    JoinSplit(s);
    JoinEndsWithLast(Split(s), " ");
    if ' ' !in s {
      SplitWithoutSpace(s);
    }
  }

  /** ASCII case folding: 'A'..'Z' to 'a'..'z', every other character unchanged. */
  function FoldChar(c: char): char
  {
    if 'A' <= c <= 'Z' then (c as int + 32) as char else c
  }

  function Fold(s: string): string
  {
    seq(|s|, i requires 0 <= i < |s| => FoldChar(s[i]))
  }

  /** Equality of two names up to letter case: the same length, and the same letters position by position once folded. */
  predicate SameIgnoringCase(a: string, b: string)
    ensures SameIgnoringCase(a, b) <==> |a| == |b| && forall k :: 0 <= k < |a| ==> FoldChar(a[k]) == FoldChar(b[k])
    ensures a == b ==> SameIgnoringCase(a, b)
  {
    FoldsEqual(a, b);
    Fold(a) == Fold(b)
  }

  /** Two folds are equal exactly when they agree position by position. */
  lemma FoldsEqual(a: string, b: string)
    ensures Fold(a) == Fold(b) <==> |a| == |b| && forall k :: 0 <= k < |a| ==> FoldChar(a[k]) == FoldChar(b[k])
  {
    if Fold(a) == Fold(b) {
      assert |a| == |Fold(a)| == |Fold(b)| == |b|;
      forall k | 0 <= k < |a| ensures FoldChar(a[k]) == FoldChar(b[k]) {
        assert Fold(a)[k] == Fold(b)[k];
      }
    }
  }

  /** s begins with p. */
  predicate StartsWith(s: string, p: string)
  {
    |p| <= |s| && s[..|p|] == p
  }

  /** s ends with t. */
  predicate EndsWith(s: string, t: string)
  {
    |t| <= |s| && s[|s| - |t|..] == t
  }

  /** t occurs in s starting at index i. */
  predicate OccursAt(s: string, t: string, i: int)
  {
    0 <= i <= |s| - |t| && s[i..i + |t|] == t
  }

  /** t is a substring of s: the predicate the lemmas about the reply texts are stated with. */
  predicate Contains(s: string, t: string)
  {
    exists i :: 0 <= i <= |s| - |t| && OccursAt(s, t, i)
  }

  lemma ContainsMiddle(a: string, t: string, b: string)
    ensures Contains(a + t + b, t)
  {
    var s := a + t + b;
    assert s[|a|..|a| + |t|] == t;
    assert OccursAt(s, t, |a|);
  }

  lemma ContainsWithin(a: string, s: string, b: string, t: string)
    requires Contains(s, t)
    ensures Contains(a + s + b, t)
  {
    var i :| 0 <= i <= |s| - |t| && OccursAt(s, t, i);
    var w := a + s + b;
    assert w[|a| + i..|a| + i + |t|] == s[i..i + |t|];
    assert OccursAt(w, t, |a| + i);
  }

  /** Every piece of a join occurs in the joined text. */
  lemma {:induction false} JoinContainsEach(ws: seq<string>, sep: string, k: nat)
    requires k < |ws|
    ensures Contains(Join(ws, sep), ws[k])
  {
    if |ws| == 1 {
      ContainsMiddle([], ws[0], []);
      assert [] + ws[0] + [] == ws[0];
    } else if k == 0 {
      ContainsMiddle([], ws[0], sep + Join(ws[1..], sep));
      assert [] + ws[0] + (sep + Join(ws[1..], sep)) == Join(ws, sep);
    } else {
      JoinContainsEach(ws[1..], sep, k - 1);
      ContainsWithin(ws[0] + sep, Join(ws[1..], sep), [], ws[k]);
      assert ws[0] + sep + Join(ws[1..], sep) + [] == Join(ws, sep);
    }
  }
}
