/** Generic sequence helpers: concatenation of a sequence of sequences. */
module Seqs {

  /** Concatenates the sequences of `xss` in order (Python's `chain.from_iterable`). */
  function Flatten<T>(xss: seq<seq<T>>): seq<T>
  {
    if xss == [] then [] else xss[0] + Flatten(xss[1..])
  }

  /** Flattening distributes over concatenation. */
  lemma {:induction false} FlattenAppend<T>(a: seq<seq<T>>, b: seq<seq<T>>)
    ensures Flatten(a + b) == Flatten(a) + Flatten(b)
    decreases |a|
  {
    if a == [] {
      assert a + b == b;
    } else {
      assert (a + b)[1..] == a[1..] + b;
      FlattenAppend(a[1..], b);
    }
  }

  /** Slicing a suffix is slicing the whole. */
  lemma SuffixSlices<T>(s: seq<T>, i: nat, n: nat)
    requires i + n <= |s|
    ensures s[i..][..n] == s[i..i + n] && s[i..][n..] == s[i + n..]
  {
  }

  /** Slicing a concatenation within its first part. */
  lemma ConcatSlices<T>(a: seq<T>, x: seq<T>, j: nat)
    requires j <= |a|
    ensures (a + x)[..j] == a[..j] && (a + x)[j..] == a[j..] + x
  {
  }
}
