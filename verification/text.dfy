/** An optional value, standing in for a Java reference that may be null. */
module Optional {

  datatype Option<+T> = None | Some(value: T)
}

/**
 The few string operations of java.lang.String that the storage codec relies on:
 `trim`, `indexOf(char)`, plus a line splitter standing for the reader that
 hands the decoder one line at a time, and a character counter.
 */
module Text {
  import opened Optional

  /** `String.trim` treats every character at or below U+0020 as white space. */
  predicate IsSpace(c: char) {
    c <= ' '
  }

  predicate AllSpace(s: string) {
    forall i :: 0 <= i < |s| ==> IsSpace(s[i])
  }

  /** Neither starts nor ends with white space. */
  predicate Trimmed(s: string) {
    s == [] || (!IsSpace(s[0]) && !IsSpace(s[|s| - 1]))
  }

  /**
   The first loop of `String.trim`: from `st` on, skips white space and
   answers the position of the first other character (or the end).
   */
  function SkipLeading(s: string, st: nat): (r: nat)
    requires st <= |s|
    ensures st <= r <= |s|
    ensures forall k :: st <= k < r ==> IsSpace(s[k])
    ensures r < |s| ==> !IsSpace(s[r])
    decreases |s| - st
  {
    if st < |s| && IsSpace(s[st]) then SkipLeading(s, st + 1) else st
  }

  /**
   The second loop of `String.trim`: moves the end `len` back over white
   space, but never below `st`.
   */
  function SkipTrailing(s: string, st: nat, len: nat): (r: nat)
    requires st <= len <= |s|
    ensures st <= r <= len
    ensures forall k :: r <= k < len ==> IsSpace(s[k])
    ensures st < r ==> !IsSpace(s[r - 1])
    decreases len
  {
    if st < len && IsSpace(s[len - 1]) then SkipTrailing(s, st, len - 1) else len
  }

  /** `String.trim`: the slice of `s` left after removing white space at both ends. */
  function Trim(s: string): (r: string)
    ensures |r| <= |s|
    ensures Trimmed(r)
  {
    var st := SkipLeading(s, 0);
    var len := SkipTrailing(s, st, |s|);
    s[st..len]
  }

  /** Trim keeps one slice of `s`, and only white space lies outside it. */
  lemma TrimRemovesOnlySpace(s: string)
    ensures var st := SkipLeading(s, 0);
            var len := SkipTrailing(s, st, |s|);
            && Trim(s) == s[st..len]
            && (forall k :: 0 <= k < st ==> IsSpace(s[k]))
            && (forall k :: len <= k < |s| ==> IsSpace(s[k]))
  {
  }

  /** `String.indexOf(char)`: the first position of `c`, or None where Java answers -1. */
  function IndexOf(s: string, c: char): (r: Option<nat>)
    ensures r.None? <==> c !in s
    ensures r.Some? ==> r.value < |s| && s[r.value] == c && c !in s[..r.value]
  {
    if |s| == 0 then None
    else if s[0] == c then Some(0)
    else match IndexOf(s[1..], c)
      case None => None
      case Some(k) =>
        assert s[..k + 1] == [s[0]] + s[1..][..k];
        Some(k + 1)
  }

  /** The first occurrence is the one with none before it. */
  lemma IndexOfFirst(s: string, c: char, k: nat)
    requires k < |s| && s[k] == c && c !in s[..k]
    ensures IndexOf(s, c) == Some(k)
  {
  }

  /** Number of occurrences of `c` in `s`. */
  function Count(s: string, c: char): (n: nat)
    ensures n <= |s|
    ensures n == 0 <==> c !in s
  {
    if |s| == 0 then 0
    else (if s[0] == c then 1 else 0) + Count(s[1..], c)
  }

  /**
   Splits text into the lines a line reader returns: each '\n' ends a line
   and is not part of it; a last line without a terminator is kept.
   */
  function SplitLines(s: string): (lines: seq<string>)
    ensures forall i :: 0 <= i < |lines| ==> '\n' !in lines[i]
    ensures |lines| <= |s|
    decreases |s|
  {
    if |s| == 0 then []
    else match IndexOf(s, '\n')
      case None => [s]
      case Some(k) => [s[..k]] + SplitLines(s[k + 1..])
  }

  /** A string is its own trim exactly when it neither starts nor ends with white space. */
  lemma TrimFixpoint(s: string)
    ensures Trim(s) == s <==> Trimmed(s)
  {
    if Trimmed(s) && s != [] {
      assert SkipLeading(s, 0) == 0;
      assert SkipTrailing(s, 0, |s|) == |s|;
      assert s[0..|s|] == s;
    }
  }

  /** White space appended to an already trimmed string is removed again by trim. */
  lemma TrimPaddedRight(s: string, pad: string)
    requires Trimmed(s)
    requires AllSpace(pad)
    ensures Trim(s + pad) == s
  {
    var x := s + pad;
    forall k | |s| <= k < |x|
      ensures IsSpace(x[k])
    {
      assert x[k] == pad[k - |s|];
    }
    var st := SkipLeading(x, 0);
    var len := SkipTrailing(x, st, |x|);
    if s == [] {
      assert st == |x|;
    } else {
      assert x[0] == s[0];
      assert st == 0;
      assert x[|s| - 1] == s[|s| - 1];
      assert len == |s|;
      assert x[..|s|] == s;
    }
  }

  /** Occurrences add up over concatenation. */
  lemma {:induction false} CountConcat(a: string, b: string, c: char)
    ensures Count(a + b, c) == Count(a, c) + Count(b, c)
    decreases |a|
  {
    if |a| == 0 {
      assert a + b == b;
    } else {
      assert (a + b)[1..] == a[1..] + b;
      CountConcat(a[1..], b, c);
    }
  }

  /** A line free of terminators followed by a terminator is split off as the first line. */
  lemma SplitLinesCons(a: string, b: string)
    requires '\n' !in a
    ensures SplitLines(a + "\n" + b) == [a] + SplitLines(b)
  {
    var s := a + "\n" + b;
    assert s[|a|] == '\n';
    assert s[..|a|] == a;
    IndexOfFirst(s, '\n', |a|);
    assert s[|a| + 1..] == b;
  }
}
