/** Facts about sequences shared by the noise model and the vocabulary model. */
module Seqs {

  /** The set of entries of a sequence. */
  function Elems<T>(s: seq<T>): set<T> {
    set x | x in s
  }

  /** A sequence is its first n entries followed by the rest. */
  lemma SplitAt<T>(s: seq<T>, n: nat)
    requires n <= |s|
    ensures s[..n] + s[n..] == s
  {
  }

  /** The head and the tail of a concatenation whose left part is not empty. */
  lemma TailOfAppend<T>(a: seq<T>, b: seq<T>)
    requires a != []
    ensures (a + b)[0] == a[0] && (a + b)[1..] == a[1..] + b
  {
  }

  /**
    Putting y (when f holds) at index k = |prefix| of r = prefix + [a] + rest
    puts it just before a.
   */
  lemma InsertBefore<T>(prefix: seq<T>, a: T, rest: seq<T>, r: seq<T>, y: T, f: bool, k: nat,
                        extended: seq<T>)
    requires r == prefix + ([a] + rest) && k == |prefix|
    requires extended == prefix + (if f then [y] else []) + [a]
    ensures k < |r|
    ensures (if f then r[..k] + [y] + r[k..] else r) == extended + rest
  {
    assert r[..k] == prefix && r[k..] == [a] + rest;
  }
}
