/** Rearranging concatenations. */
module Seqs {
  lemma Assoc<T>(a: seq<T>, b: seq<T>, c: seq<T>)
    ensures (a + b) + c == a + (b + c)
  {}

  lemma SplitAt<T>(s: seq<T>, i: nat)
    requires i < |s|
    ensures s[..i] + [s[i]] == s[..i + 1] && [s[i]] + s[i + 1..] == s[i..]
    ensures s[i..][0] == s[i] && s[i..][1..] == s[i + 1..]
    ensures s[..i + 1][..i] == s[..i] && s[..i + 1][i] == s[i]
  {}

  lemma UpdateAt<T>(done: seq<T>, s: seq<T>, i: nat, x: T)
    requires i == |done| && i < |s|
    ensures (done + s[i..])[i] == s[i]
    ensures (done + s[i..])[i := x] == (done + [x]) + s[i + 1..]
  {}

  /** Moving the first element of `b` to the end of `a`, then `n` more. */
  lemma MoveFront<T>(a: seq<T>, b: seq<T>, n: nat)
    requires n < |b|
    ensures (a + [b[0]]) + b[1..][..n] == a + b[..n + 1] && b[1..][n..] == b[n + 1..]
  {}
}
