/**
 * Facts about sequences of any element type, stated once so that proofs
 * about sequences of strings or records need not reason about the
 * elements.
 */
module Sequences {
  lemma AppendAssoc<T>(a: seq<T>, b: seq<T>, c: seq<T>)
    ensures a + (b + c) == (a + b) + c
  {
  }

  lemma HeadTailAppend<T>(l: seq<T>, y: seq<T>)
    requires |l| >= 1
    ensures (l + y)[0] == l[0] && (l + y)[1..] == l[1..] + y
  {
  }

  /** A prefix grown by the next element. */
  lemma PrefixSnoc<T>(s: seq<T>, i: nat)
    requires i < |s|
    ensures s[..i] + [s[i]] == s[..i + 1]
  {
  }

  /** The length of an element put in front of a sequence. */
  lemma ConsLength<T>(whole: seq<T>, x: T, rest: seq<T>, len: int)
    requires whole == [x] + rest && |rest| + 1 == len
    ensures |whole| == len
  {
  }

  /** The elements in the opposite order. */
  function Reverse<T>(s: seq<T>): (r: seq<T>)
    ensures |r| == |s|
  {
    if |s| == 0 then [] else Reverse(s[1..]) + [s[0]]
  }

  lemma {:induction false} ReverseSnoc<T>(s: seq<T>, x: T)
    ensures Reverse(s + [x]) == [x] + Reverse(s)
  {
    if |s| > 0 {
      assert (s + [x])[1..] == s[1..] + [x];
      ReverseSnoc(s[1..], x);
    } else {
      assert s + [x] == [x];
    }
  }

  /** Reversing twice gives the sequence back. */
  lemma {:induction false} ReverseReverse<T>(s: seq<T>)
    ensures Reverse(Reverse(s)) == s
  {
    if |s| > 0 {
      ReverseReverse(s[1..]);
      ReverseSnoc(Reverse(s[1..]), s[0]);
      assert s == [s[0]] + s[1..];
    }
  }
}
