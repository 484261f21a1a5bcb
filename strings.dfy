/**
 * The two string primitives both prototypes lean on: `Array.prototype.join`
 * and `String.prototype.split` with a one-character separator.  Strings are
 * sequences of Unicode scalar values, one `char` each.
 */
module Strings {

  /** `parts.join(sep)`: the parts in order, `sep` between neighbours. */
  function Join(parts: seq<string>, sep: string): string
  {
    if |parts| == 0 then ""
    else if |parts| == 1 then parts[0]
    else parts[0] + sep + Join(parts[1..], sep)
  }

  /** `s.split(c)`: the maximal runs between occurrences of `c`. */
  function Split(s: string, c: char): (r: seq<string>)
    ensures |r| >= 1
    ensures forall i :: 0 <= i < |r| ==> c !in r[i]
  {
    if s == [] then [""]
    else
      var rest := Split(s[1..], c);
      if s[0] == c then [""] + rest
      else [[s[0]] + rest[0]] + rest[1..]
  }

  /** Number of occurrences of `c` in `s`. */
  function Count(s: string, c: char): nat
  {
    if s == [] then 0 else (if s[0] == c then 1 else 0) + Count(s[1..], c)
  }

  predicate StartsWith(s: string, prefix: string)
  {
    |prefix| <= |s| && s[..|prefix|] == prefix
  }

  /** Joining two non-empty lists is joining their two joins. */
  lemma {:induction false} JoinAppend(a: seq<string>, b: seq<string>, sep: string)
    requires |a| > 0 && |b| > 0
    ensures Join(a + b, sep) == Join(a, sep) + sep + Join(b, sep)
  {
    if |a| == 1 {
      assert (a + b)[1..] == b;
    } else {
      assert (a + b)[1..] == a[1..] + b;
      JoinAppend(a[1..], b, sep);
    }
  }

  /** A list framed by two single entries joins with the frame outside. */
  lemma {:induction false} JoinAround(a: string, mid: seq<string>, b: string, sep: string)
    requires |mid| > 0
    ensures Join([a] + mid + [b], sep) == a + sep + Join(mid, sep) + sep + b
  {
    JoinAppend([a], mid + [b], sep);
    JoinAppend(mid, [b], sep);
    assert [a] + mid + [b] == [a] + (mid + [b]);
  }

  /** Two non-empty lists around one entry join with that entry between them. */
  lemma {:induction false} JoinMiddle(x: seq<string>, m: string, y: seq<string>, sep: string)
    requires |x| > 0 && |y| > 0
    ensures Join(x + [m] + y, sep) == Join(x, sep) + sep + m + sep + Join(y, sep)
  {
    JoinAppend(x, [m] + y, sep);
    JoinAppend([m], y, sep);
    assert x + [m] + y == x + ([m] + y);
  }

  /** A joined non-empty list spliced into an outer list joins like its parts. */
  lemma JoinSplice(a: seq<string>, b: seq<string>, c: seq<string>, sep: string)
    requires |b| > 0
    ensures Join(a + [Join(b, sep)] + c, sep) == Join(a + b + c, sep)
    decreases |a|
  {
    if |a| > 0 {
      JoinAppend(a, [Join(b, sep)] + c, sep);
      JoinAppend(a, b + c, sep);
      assert a + [Join(b, sep)] + c == a + ([Join(b, sep)] + c);
      assert a + b + c == a + (b + c);
      JoinSplice([], b, c, sep);
      assert [] + [Join(b, sep)] + c == [Join(b, sep)] + c;
      assert [] + b + c == b + c;
    } else if |c| > 0 {
      assert a + [Join(b, sep)] + c == [Join(b, sep)] + c;
      assert a + b + c == b + c;
      JoinAppend([Join(b, sep)], c, sep);
      JoinAppend(b, c, sep);
    } else {
      assert a + [Join(b, sep)] + c == [Join(b, sep)];
      assert a + b + c == b;
    }
  }

  /** Splitting and re-joining on the same character gives the text back. */
  lemma {:induction false} JoinSplit(s: string, c: char)
    ensures Join(Split(s, c), [c]) == s
  {
    if s != [] {
      var rest := Split(s[1..], c);
      JoinSplit(s[1..], c);
      if s[0] == c {
        assert ([""] + rest)[1..] == rest;
      } else if |rest| > 1 {
        assert ([[s[0]] + rest[0]] + rest[1..])[1..] == rest[1..];
      }
    }
  }

  /** A piece without the separator splits into itself. */
  lemma {:induction false} SplitFree(x: string, c: char)
    requires c !in x
    ensures Split(x, c) == [x]
  {
    if x != [] {
      SplitFree(x[1..], c);
      assert [x[0]] + x[1..] == x;
    }
  }

  /** The first piece of a text is everything before the first separator. */
  lemma {:induction false} SplitFirst(x: string, y: string, c: char)
    requires c !in x
    ensures Split(x + [c] + y, c) == [x] + Split(y, c)
  {
    if x == [] {
      assert (x + [c] + y)[1..] == y;
    } else {
      assert (x + [c] + y)[0] == x[0] && (x + [c] + y)[1..] == x[1..] + [c] + y;
      SplitFirst(x[1..], y, c);
      assert [x[0]] + x[1..] == x;
    }
  }

  /** Joining pieces that hold no separator and splitting again gives the pieces back. */
  lemma {:induction false} SplitJoin(ls: seq<string>, c: char)
    requires |ls| >= 1
    requires forall i :: 0 <= i < |ls| ==> c !in ls[i]
    ensures Split(Join(ls, [c]), c) == ls
  {
    if |ls| == 1 {
      SplitFree(ls[0], c);
    } else {
      SplitJoin(ls[1..], c);
      SplitFirst(ls[0], Join(ls[1..], [c]), c);
      assert ls == [ls[0]] + ls[1..];
    }
  }

  /** `s.split(c).length` is one more than the number of separators. */
  lemma {:induction false} SplitLength(s: string, c: char)
    ensures |Split(s, c)| == Count(s, c) + 1
  {
    if s != [] {
      SplitLength(s[1..], c);
    }
  }
}
