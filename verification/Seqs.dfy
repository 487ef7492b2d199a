/** Sequence operations the geometry code borrows from its standard library. */
module Seqs {
  import opened Wrappers

  /** `std::ranges::reverse`. */
  function Reversed<T>(s: seq<T>): (r: seq<T>)
    ensures |r| == |s|
    ensures forall i :: 0 <= i < |s| ==> r[i] == s[|s| - 1 - i]
  {
    seq(|s|, i requires 0 <= i < |s| => s[|s| - 1 - i])
  }

  /** `(i + 1) % n`, the index after `i` in a closed list of `n` elements. */
  function Next(i: nat, n: nat): (j: nat)
    requires i < n
    ensures j < n
  {
    if i + 1 == n then 0 else i + 1
  }

  lemma NextIsModulo(i: nat, n: nat)
    requires i < n
    ensures (i + 1) % n == Next(i, n)
  {
    if i + 1 < n {
      assert (i + 1) / n == 0;
    }
  }

  function Map<T, U>(f: T -> U, s: seq<T>): (r: seq<U>)
    ensures |r| == |s|
    ensures forall i :: 0 <= i < |s| ==> r[i] == f(s[i])
  {
    seq(|s|, i requires 0 <= i < |s| => f(s[i]))
  }

  /** The first present element. */
  function FirstSome<T>(s: seq<Option<T>>): Option<T> {
    if s == [] then None else if s[0].Some? then s[0] else FirstSome(s[1..])
  }

  lemma {:induction false} FirstSomeAbsent<T>(s: seq<Option<T>>)
    ensures FirstSome(s).None? <==> forall i :: 0 <= i < |s| ==> s[i].None?
    ensures FirstSome(s).Some? ==> FirstSome(s) in s
  {
    if s != [] {
      FirstSomeAbsent(s[1..]);
      assert s == [s[0]] + s[1..];
    }
  }
}
