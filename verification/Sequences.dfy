/** Optional values, searching a string, and the sequence equalities that proofs cite. */
module Sequences {

  datatype Option<+T> = None | Some(value: T)

  /** strchr: the first occurrence of c, or the length of the string. */
  function Find(c: char, s: string): (i: nat)
    ensures i <= |s| && (i < |s| ==> s[i] == c) && (c in s <==> i < |s|)
  {
    if s == [] || s[0] == c then 0 else 1 + Find(c, s[1..])
  }

  lemma {:induction false} FindPrefix(c: char, s: string, t: string)
    ensures Find(c, s + [c] + t) == Find(c, s) <= |s|
    ensures c !in s ==> Find(c, s) == |s|
  {
    var u := s + [c] + t;
    if s != [] {
      FindPrefix(c, s[1..], t);
      assert u[1..] == s[1..] + [c] + t;
    }
  }

  lemma AppendNil<T>(s: seq<T>)
    ensures s + [] == s
  {
  }

  lemma PrependNil<T>(s: seq<T>)
    ensures [] + s == s
  {
  }

  lemma Regroup<T>(x: seq<T>, y: seq<T>, z: seq<T>)
    ensures x + (y + z) == (x + y) + z
  {
  }
}
