/** What several modules share: optional values, lists without repetition, and permutations. */
module Basics {

  datatype Option<T> = None | Some(value: T)

  ghost predicate NoDup<T>(s: seq<T>) {
    forall i, j :: 0 <= i < j < |s| ==> s[i] != s[j]
  }

  lemma NoDupSnoc<T>(s: seq<T>, x: T)
    requires NoDup(s) && x !in s
    ensures NoDup(s + [x]) && NoDup([x] + s)
  {
  }

  lemma NoDupRest<T>(s: seq<T>)
    requires NoDup(s) && s != []
    ensures NoDup(s[1..]) && forall x :: x in s[1..] <==> x in s && x != s[0]
  {
    assert s == [s[0]] + s[1..];
  }

  /** s is a permutation of 0 .. |s| - 1 and inv is its inverse. */
  ghost predicate Permutes(s: seq<nat>, inv: seq<nat>) {
    && |inv| == |s|
    && (forall k :: 0 <= k < |s| ==> s[k] < |s| && inv[s[k]] == k)
    && (forall i :: 0 <= i < |s| ==> inv[i] < |s| && s[inv[i]] == i)
  }

  ghost predicate Permutation(s: seq<nat>, n: nat) {
    |s| == n && exists inv :: Permutes(s, inv)
  }

  lemma SwapPermutes(s: seq<nat>, inv: seq<nat>, a: nat, b: nat)
    requires Permutes(s, inv) && a < |s| && b < |s|
    ensures Permutes(s[a := s[b]][b := s[a]], inv[s[a] := b][s[b] := a])
  {
  }
}
