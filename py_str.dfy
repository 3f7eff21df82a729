/**
 Python `str` operations that the sign-up validator uses: `s.split(c)` with a
 one-character separator, `sep.join(parts)` with a separator of any length,
 and `IndexOf`, the helper that finds the first separator for `Split`.
 Strings are sequences of Unicode scalar values, as Python's `str` holds code
 points.
 */
module PyStr {

  /**
   Index of the first occurrence of `c` in `s`: the helper that finds the
   first separator for `Split` (it behaves like Python `s.index(c)` when `c`
   occurs).
   */
  function IndexOf(s: string, c: char): (i: nat)
    requires c in s
    ensures i < |s| && s[i] == c
    ensures c !in s[..i]
  {
    if s[0] == c then 0
    else
      var j := IndexOf(s[1..], c);
      assert s[..j + 1] == [s[0]] + s[1..][..j];
      j + 1
  }

  /**
   Python `s.split(sep)` with an explicit one-character separator: the pieces
   between consecutive separators, empty pieces included, so that there is one
   piece more than there are separators.
   */
  function Split(s: string, sep: char): (parts: seq<string>)
    ensures |parts| >= 1
    ensures forall k :: 0 <= k < |parts| ==> sep !in parts[k]
    ensures sep in s <==> |parts| >= 2
    // the first piece runs from the start up to the first separator or the end
    ensures parts[0] <= s
    ensures |parts[0]| == |s| || s[|parts[0]|] == sep
    decreases |s|
  {
    if sep !in s then [s]
    else
      var i := IndexOf(s, sep);
      [s[..i]] + Split(s[i + 1..], sep)
  }

  /** Python `sep.join(parts)`. */
  function Join(parts: seq<string>, sep: string): string
  {
    if |parts| == 0 then ""
    else if |parts| == 1 then parts[0]
    else parts[0] + sep + Join(parts[1..], sep)
  }

  /** `a` occurs in `b` starting at index `i` (Python `a in b` holds with this witness). */
  predicate OccursAt(a: string, b: string, i: nat)
  {
    i + |a| <= |b| && b[i..i + |a|] == a
  }

  /** Joining the pieces of a split with the same separator gives back the string. */
  lemma {:induction false} JoinSplit(s: string, sep: char)
    ensures Join(Split(s, sep), [sep]) == s
    decreases |s|
  {
    if sep in s {
      var i := IndexOf(s, sep);
      var rest := s[i + 1..];
      JoinSplit(rest, sep);
      assert Split(s, sep) == [s[..i]] + Split(rest, sep);
      assert s == s[..i] + [sep] + rest;
    }
  }

  /**
   Splitting a join of separator-free pieces gives back the pieces, so
   `Split` and `Join` are inverse on non-empty lists of separator-free pieces.
   */
  lemma {:induction false} SplitJoin(parts: seq<string>, sep: char)
    requires |parts| >= 1
    requires forall k :: 0 <= k < |parts| ==> sep !in parts[k]
    ensures Split(Join(parts, [sep]), sep) == parts
  {
    if |parts| == 1 {
      assert Join(parts, [sep]) == parts[0];
    } else {
      var tail := Join(parts[1..], [sep]);
      var s := parts[0] + [sep] + tail;
      assert Join(parts, [sep]) == s;
      SplitJoin(parts[1..], sep);
      IndexOfAfterFree(parts[0], sep, tail);
      assert s[..|parts[0]|] == parts[0];
      assert s[|parts[0]| + 1..] == tail;
      assert Split(s, sep) == [parts[0]] + parts[1..];
    }
  }

  /** The first `c` in `pre + [c] + post` is the one right after `pre` when `pre` holds none. */
  lemma {:induction false} IndexOfAfterFree(pre: string, c: char, post: string)
    requires c !in pre
    ensures c in pre + [c] + post
    ensures IndexOf(pre + [c] + post, c) == |pre|
  {
    var s := pre + [c] + post;
    assert s[|pre|] == c;
    if pre != [] {
      assert s[1..] == pre[1..] + [c] + post;
      IndexOfAfterFree(pre[1..], c, post);
    }
  }

  /** Splitting `pre + [c] + post`, with no `c` in `pre`, gives `pre` and then the pieces of `post`. */
  lemma SplitAfterFree(pre: string, c: char, post: string)
    requires c !in pre
    ensures Split(pre + [c] + post, c) == [pre] + Split(post, c)
  {
    var s := pre + [c] + post;
    IndexOfAfterFree(pre, c, post);
    assert s[..|pre|] == pre;
    assert s[|pre| + 1..] == post;
  }

  /** The first piece of `pre + post` is `pre` when `pre` has no `c` and `post` is empty or starts with `c`. */
  lemma SplitFirstPiece(pre: string, c: char, post: string)
    requires c !in pre
    requires post == [] || post[0] == c
    ensures Split(pre + post, c)[0] == pre
  {
    if post == [] {
      assert pre + post == pre;
    } else {
      assert pre + post == pre + [c] + post[1..];
      SplitAfterFree(pre, c, post[1..]);
    }
  }

  /** Every piece of a join occurs in the joined string. */
  lemma {:induction false} JoinContains(parts: seq<string>, sep: string, k: nat)
    requires k < |parts|
    ensures exists i :: OccursAt(parts[k], Join(parts, sep), i)
  {
    if |parts| == 1 {
      assert OccursAt(parts[0], Join(parts, sep), 0);
    } else {
      var head := parts[0] + sep;
      var tail := Join(parts[1..], sep);
      assert Join(parts, sep) == head + tail;
      if k == 0 {
        assert OccursAt(parts[0], head + tail, 0);
      } else {
        JoinContains(parts[1..], sep, k - 1);
        var i: nat :| OccursAt(parts[1..][k - 1], tail, i);
        assert (head + tail)[|head| + i..|head| + i + |parts[k]|] == tail[i..i + |parts[k]|];
        assert OccursAt(parts[k], head + tail, |head| + i);
      }
    }
  }
}
