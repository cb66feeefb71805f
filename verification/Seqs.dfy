/** Slicing facts used by the stream proofs. */
module Seqs {
  lemma TakeTake<T>(s: seq<T>, n: nat, m: nat)
    requires n + m <= |s|
    ensures s[..n] + s[n..][..m] == s[..n + m]
  {}

  lemma DropDrop<T>(s: seq<T>, n: nat, m: nat)
    requires n + m <= |s|
    ensures s[n..][m..] == s[n + m..]
  {}

  lemma SliceOfDrop<T>(s: seq<T>, n: nat, m: nat)
    requires n + m <= |s|
    ensures s[n..][..m] == s[n..n + m] && s[n..][m..] == s[n + m..]
  {}

  lemma JoinSlices<T>(s: seq<T>, a: nat, b: nat, c: nat)
    requires a <= b <= c <= |s|
    ensures s[a..b] + s[b..c] == s[a..c]
  {}

  lemma DropWhole<T>(s: seq<T>)
    ensures s[0..] == s
  {}

  lemma AppendAssoc<T>(a: seq<T>, b: seq<T>, c: seq<T>)
    ensures (a + b) + c == a + (b + c)
  {}

  lemma ConsTail<T>(x: T, s: seq<T>)
    ensures ([x] + s)[0] == x && ([x] + s)[1..] == s
  {}

  lemma ConsTake<T>(x: T, s: seq<T>, k: nat)
    requires 0 < k <= |s| + 1
    ensures ([x] + s)[..k] == [x] + s[..k - 1]
  {}

  lemma ConsAppend<T>(x: T, s: seq<T>, t: seq<T>)
    ensures [x] + (s + t) == ([x] + s) + t
  {}

  /** Dropping the front part of a concatenation, and taking it. */
  lemma SplitAppend<T>(a: seq<T>, b: seq<T>)
    ensures (a + b)[..|a|] == a && (a + b)[|a|..] == b
  {}

  function Maybe<T>(keep: bool, x: T): seq<T> {
    if keep then [x] else []
  }

  lemma AppendMaybe<T>(a: seq<T>, keep: bool, x: T, rest: seq<T>)
    ensures a + (Maybe(keep, x) + rest) == (if keep then a + [x] else a) + rest
  {}
}
