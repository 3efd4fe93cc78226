/** Facts about the beginnings and the ends of a sequence. */
module Prefixes {

  lemma PrefixStep<T>(s: seq<T>, i: nat)
    requires i < |s|
    ensures s[..i + 1] == s[..i] + [s[i]] && s[..i + 1][..i] == s[..i] && s[..i + 1][i] == s[i]
  {
  }

  lemma PrefixEnds<T>(s: seq<T>)
    ensures s[..0] == [] && s[..|s|] == s && s[|s|..] == [] && s[0..] == s
  {
  }

  lemma PrefixOfPrefix<T>(s: seq<T>, k: nat, n: nat)
    requires k <= n <= |s|
    ensures s[..n][..k] == s[..k] && s == s[..k] + s[k..]
  {
  }

  lemma SuffixStep<T>(s: seq<T>, i: nat)
    requires i < |s|
    ensures s[i..] == [s[i]] + s[i + 1..] && s[i..][1..] == s[i + 1..] && s[i..][0] == s[i]
  {
  }

  /** All but the first and last, taken in either order. */
  lemma Middle<T>(s: seq<T>)
    requires |s| > 1
    ensures s[..|s| - 1][1..] == s[1..][..|s| - 2] && s[..|s| - 1][0] == s[0] && s[1..][|s| - 2] == s[|s| - 1]
  {
  }

  lemma AppendSplits<T>(a: seq<T>, b: seq<T>)
    ensures (a + b)[..|a|] == a && (a + b)[|a|..] == b
  {
  }

  lemma AppendAssociates<T>(a: seq<T>, b: seq<T>, c: seq<T>)
    ensures (a + b) + c == a + (b + c)
  {
  }

  /** data written at a place of buf, seen from there. */
  lemma Overwritten<T>(buf: seq<T>, data: seq<T>, at: nat, end: nat)
    requires at + |data| <= end <= |buf|
    ensures |buf[..at] + data + buf[at + |data|..]| == |buf|
    ensures (buf[..at] + data + buf[at + |data|..])[at..end] == data + buf[at + |data|..end]
  {
  }
}
