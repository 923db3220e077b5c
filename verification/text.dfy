/** Sequence helpers shared by the encoder and the frame: counting characters, writing pieces
    of text one after another, and mapping a function over a sequence. */
module Text {
  /** How many times `c` occurs in `s`. */
  function Occurrences(c: char, s: seq<char>): nat
    decreases |s|
  {
    if |s| == 0 then 0
    else Occurrences(c, s[..|s| - 1]) + (if s[|s| - 1] == c then 1 else 0)
  }

  /** Counting distributes over concatenation. */
  lemma {:induction false} OccurrencesAppend(c: char, a: seq<char>, b: seq<char>)
    ensures Occurrences(c, a + b) == Occurrences(c, a) + Occurrences(c, b)
    decreases |b|
  {
    if |b| > 0 {
      assert (a + b)[..|a + b| - 1] == a + b[..|b| - 1];
      OccurrencesAppend(c, a, b[..|b| - 1]);
    } else {
      assert a + b == a;
    }
  }

  lemma {:induction false} OccurrencesAbsent(c: char, s: seq<char>)
    requires forall i :: 0 <= i < |s| ==> s[i] != c
    ensures Occurrences(c, s) == 0
    decreases |s|
  {
    if |s| > 0 {
      OccurrencesAbsent(c, s[..|s| - 1]);
    }
  }

  /** Pieces of text written one after another. */
  function Concat(parts: seq<seq<char>>): seq<char>
    decreases |parts|
  {
    if |parts| == 0 then [] else Concat(parts[..|parts| - 1]) + parts[|parts| - 1]
  }

  /** Writing one more piece. */
  lemma ConcatStep(parts: seq<seq<char>>, k: nat)
    requires k < |parts|
    ensures Concat(parts[..k + 1]) == Concat(parts[..k]) + parts[k]
  {
    assert parts[..k + 1][..k] == parts[..k];
  }

  /** `f` applied to every element, in order. */
  function Map<A, B>(f: A -> B, xs: seq<A>): (ys: seq<B>)
    ensures |ys| == |xs|
    decreases |xs|
  {
    if |xs| == 0 then [] else Map(f, xs[..|xs| - 1]) + [f(xs[|xs| - 1])]
  }

  /** Element `i` of the map is `f` of element `i`. */
  lemma {:induction false} MapAt<A, B>(f: A -> B, xs: seq<A>, i: nat)
    requires i < |xs|
    ensures Map(f, xs)[i] == f(xs[i])
    decreases |xs|
  {
    var n := |xs|;
    if i < n - 1 {
      MapAt(f, xs[..n - 1], i);
    }
  }

  /** One more copy of `k`. */
  lemma MulStep(n: nat, k: nat)
    ensures n * k + k == (n + 1) * k
  {
  }

  /** Pieces in which `c` occurs `k` times each hold, together, `k` per piece. */
  lemma {:induction false} ConcatOccurrences(c: char, parts: seq<seq<char>>, k: nat)
    requires forall i :: 0 <= i < |parts| ==> Occurrences(c, parts[i]) == k
    ensures Occurrences(c, Concat(parts)) == |parts| * k
    decreases |parts|
  {
    var n := |parts|;
    if n > 0 {
      var init := parts[..n - 1];
      assert forall i :: 0 <= i < n - 1 ==> init[i] == parts[i];
      ConcatOccurrences(c, init, k);
      OccurrencesAppend(c, Concat(init), parts[n - 1]);
      MulStep(n - 1, k);
    }
  }

  /** `n` copies of `s`. */
  function Repeat(s: seq<char>, n: nat): seq<char> {
    if n == 0 then [] else Repeat(s, n - 1) + s
  }

  /** Pieces that are all `s`, written one after another, are `s` repeated. */
  lemma {:induction false} ConcatRepeat(parts: seq<seq<char>>, s: seq<char>)
    requires forall i :: 0 <= i < |parts| ==> parts[i] == s
    ensures Concat(parts) == Repeat(s, |parts|)
    decreases |parts|
  {
    var n := |parts|;
    if n > 0 {
      var init := parts[..n - 1];
      assert forall i :: 0 <= i < n - 1 ==> init[i] == parts[i];
      ConcatRepeat(init, s);
    }
  }
}
