/** Python's `sep.join(parts)` and `s.split(sep)` for a one-character
    separator, with the facts the installer relies on: splitting undoes
    joining, joining undoes splitting, and the last piece of a split is
    the part after the last separator. */
module Strings {

  /** `sep.join(parts)`: the parts with one separator between neighbours,
      none before the first and none after the last; `""` for no parts. */
  function Join(parts: seq<string>, sep: char): (s: string)
    ensures parts == [] ==> s == ""
    ensures |parts| == 1 ==> s == parts[0]
    ensures |parts| > 0 ==> |s| >= |parts[0]| && s[..|parts[0]|] == parts[0]
  {
    if |parts| == 0 then ""
    else if |parts| == 1 then parts[0]
    else parts[0] + [sep] + Join(parts[1..], sep)
  }

  /** The pieces of `cur + s`, where `cur` is the piece read so far:
      a separator in `s` closes the current piece and opens an empty one. */
  function SplitFrom(s: string, cur: string, sep: char): (r: seq<string>)
    ensures |r| >= 1
    decreases |s|
  {
    if s == [] then [cur]
    else if s[0] == sep then [cur] + SplitFrom(s[1..], "", sep)
    else SplitFrom(s[1..], cur + [s[0]], sep)
  }

  /** `s.split(sep)`: the maximal separator-free runs of `s`, in order;
      never empty (`"".split(sep) == [""]`). */
  function Split(s: string, sep: char): (r: seq<string>)
    ensures |r| >= 1
  {
    SplitFrom(s, "", sep)
  }

  /** `s.split(sep)[-1]`. */
  function LastSegment(s: string, sep: char): string
  {
    var parts := Split(s, sep);
    parts[|parts| - 1]
  }

  /** A stretch without the separator only extends the current piece. */
  lemma {:induction false} SplitFromNoSep(s: string, cur: string, sep: char)
    requires sep !in s
    ensures SplitFrom(s, cur, sep) == [cur + s]
    decreases |s|
  {
    if s != [] {
      assert s[0] in s;
      assert SplitFrom(s, cur, sep) == SplitFrom(s[1..], cur + [s[0]], sep);
      assert sep !in s[1..] by {
        forall k | 0 <= k < |s[1..]| ensures s[1..][k] != sep {
          assert s[1..][k] == s[k + 1];
        }
      }
      SplitFromNoSep(s[1..], cur + [s[0]], sep);
      assert SplitFrom(s[1..], cur + [s[0]], sep) == [cur + [s[0]] + s[1..]];
      assert cur + [s[0]] + s[1..] == cur + s;
    } else {
      assert cur + s == cur;
    }
  }

  /** Splitting at one occurrence of the separator splits each side apart. */
  lemma {:induction false} SplitFromAppend(x: string, cur: string, sep: char, y: string)
    ensures SplitFrom(x + [sep] + y, cur, sep) == SplitFrom(x, cur, sep) + Split(y, sep)
    decreases |x|
  {
    var s := x + [sep] + y;
    if x == [] {
      assert s[0] == sep && s[1..] == y;
    } else {
      assert s[0] == x[0];
      assert s[1..] == x[1..] + [sep] + y;
      if x[0] == sep {
        SplitFromAppend(x[1..], "", sep, y);
        var a := SplitFrom(x[1..], "", sep);
        assert [cur] + (a + Split(y, sep)) == ([cur] + a) + Split(y, sep);
      } else {
        SplitFromAppend(x[1..], cur + [x[0]], sep, y);
      }
    }
  }

  /** Round trip: splitting a join of separator-free parts gives the parts back. */
  lemma {:induction false} SplitJoin(parts: seq<string>, sep: char)
    requires |parts| >= 1
    requires forall i :: 0 <= i < |parts| ==> sep !in parts[i]
    ensures Split(Join(parts, sep), sep) == parts
    decreases |parts|
  {
    SplitFromNoSep(parts[0], "", sep);
    assert "" + parts[0] == parts[0];
    if |parts| > 1 {
      SplitJoin(parts[1..], sep);
      SplitFromAppend(parts[0], "", sep, Join(parts[1..], sep));
      assert [parts[0]] + parts[1..] == parts;
    }
  }

  /** Joining a part in front of at least one other part puts one separator between. */
  lemma JoinCons(a: string, rest: seq<string>, sep: char)
    requires rest != []
    ensures Join([a] + rest, sep) == a + [sep] + Join(rest, sep)
  {
    assert ([a] + rest)[1..] == rest;
  }

  /** Joining the pieces of `cur + s` gives `cur + s` back. */
  lemma {:induction false} JoinSplitFrom(s: string, cur: string, sep: char)
    ensures Join(SplitFrom(s, cur, sep), sep) == cur + s
    decreases |s|
  {
    if s == [] {
      assert cur + s == cur;
    } else {
      var rest := s[1..];
      assert s == [s[0]] + rest;
      assert cur + s == cur + [s[0]] + rest;
      if s[0] == sep {
        JoinSplitFrom(rest, "", sep);
        assert "" + rest == rest;
        JoinCons(cur, SplitFrom(rest, "", sep), sep);
      } else {
        JoinSplitFrom(rest, cur + [s[0]], sep);
      }
    }
  }

  /** Round trip: joining the pieces of a split gives the string back. */
  lemma JoinSplit(s: string, sep: char)
    ensures Join(Split(s, sep), sep) == s
  {
    JoinSplitFrom(s, "", sep);
    assert "" + s == s;
  }

  /** `t` is the part of `s` after its last separator: a separator-free
      suffix of `s` that is all of `s` or is preceded by the separator. */
  predicate IsTail(s: string, t: string, sep: char)
  {
    && sep !in t
    && |t| <= |s|
    && s[|s| - |t|..] == t
    && (|t| < |s| ==> s[|s| - |t| - 1] == sep)
  }

  /** A tail stays the tail when text ending in a separator is put in front. */
  lemma TailAfterSep(p: string, s: string, t: string, sep: char)
    requires IsTail(s, t, sep)
    ensures IsTail(p + [sep] + s, t, sep)
  {
    var s' := p + [sep] + s;
    assert s'[|s'| - |t|..] == s[|s| - |t|..];
    if |t| < |s| {
      assert s'[|s'| - |t| - 1] == s[|s| - |t| - 1];
    } else {
      assert s'[|s'| - |t| - 1] == sep;
    }
  }

  /** The last piece of `cur + s`, read on its own: a separator drops
      everything read so far. */
  function LastFrom(s: string, cur: string, sep: char): string
    decreases |s|
  {
    if s == [] then cur
    else if s[0] == sep then LastFrom(s[1..], "", sep)
    else LastFrom(s[1..], cur + [s[0]], sep)
  }

  /** `LastFrom` is indeed the last piece that `SplitFrom` produces. */
  lemma {:induction false} LastFromIsLastPiece(s: string, cur: string, sep: char)
    ensures var r := SplitFrom(s, cur, sep); LastFrom(s, cur, sep) == r[|r| - 1]
    decreases |s|
  {
    if s != [] {
      if s[0] == sep {
        LastFromIsLastPiece(s[1..], "", sep);
        var rest := SplitFrom(s[1..], "", sep);
        assert ([cur] + rest)[|rest|] == rest[|rest| - 1];
      } else {
        LastFromIsLastPiece(s[1..], cur + [s[0]], sep);
      }
    }
  }

  /** A separator-free string is its own tail. */
  lemma TailWhole(s: string, sep: char)
    requires sep !in s
    ensures IsTail(s, s, sep)
  {
    assert s[|s| - |s|..] == s;
  }

  /** Reading one more character that is not a separator keeps the
      current piece separator-free. */
  lemma SepFreeExtend(cur: string, ch: char, sep: char)
    requires sep !in cur && ch != sep
    ensures sep !in cur + [ch]
  {
  }

  /** Tails depend only on the string, not on how it was put together. */
  lemma TailOfRegrouped(a: string, ch: char, b: string, t: string, sep: char)
    requires IsTail(a + [ch] + b, t, sep)
    ensures IsTail(a + ([ch] + b), t, sep)
  {
    assert a + [ch] + b == a + ([ch] + b);
  }

  /** The last piece of `cur + s` is its tail. */
  lemma {:induction false} LastFromIsTail(s: string, cur: string, sep: char)
    requires sep !in cur
    ensures IsTail(cur + s, LastFrom(s, cur, sep), sep)
    decreases |s|
  {
    if s == [] {
      TailWhole(cur, sep);
      assert cur + s == cur;
    } else {
      var rest := s[1..];
      assert s == [s[0]] + rest;
      if s[0] == sep {
        LastFromIsTail(rest, "", sep);
        assert "" + rest == rest;
        TailAfterSep(cur, rest, LastFrom(rest, "", sep), sep);
        TailOfRegrouped(cur, sep, rest, LastFrom(rest, "", sep), sep);
      } else {
        SepFreeExtend(cur, s[0], sep);
        LastFromIsTail(rest, cur + [s[0]], sep);
        TailOfRegrouped(cur, s[0], rest, LastFrom(rest, cur + [s[0]], sep), sep);
      }
    }
  }

  /** The last piece of a split is the part of `s` after its last separator. */
  lemma LastSegmentIsTail(s: string, sep: char)
    ensures IsTail(s, LastSegment(s, sep), sep)
  {
    LastFromIsLastPiece(s, "", sep);
    LastFromIsTail(s, "", sep);
    assert "" + s == s;
  }

  /** Whatever precedes the last separator, the last piece is what follows it. */
  lemma LastSegmentAfter(p: string, sep: char, t: string)
    requires sep !in t
    ensures LastSegment(p + [sep] + t, sep) == t
  {
    SplitFromAppend(p, "", sep, t);
    SplitFromNoSep(t, "", sep);
    assert "" + t == t;
  }
}
