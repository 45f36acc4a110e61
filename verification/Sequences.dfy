/** Facts about sequences and maps that several modules lean on. */
module Sequences {

  lemma Regroup<T>(a: seq<T>, b: seq<T>, c: seq<T>)
    ensures (a + b) + c == a + (b + c)
  {
  }

  /** A prefix of two parts ends in the first, or takes all of it and some of the second. */
  lemma PrefixSplit<T>(done: seq<T>, first: seq<T>, second: seq<T>)
    requires done <= first + second
    ensures done <= first || (first <= done && done[|first|..] <= second && done == first + done[|first|..])
  {
    if |done| <= |first| {
      assert done <= first;
    } else {
      assert forall i :: 0 <= i < |first| ==> done[i] == (first + second)[i];
    }
  }

  lemma IndexOf<T>(s: seq<T>, x: T) returns (i: nat)
    requires x in s
    ensures i < |s| && s[i] == x
  {
    i :| 0 <= i < |s| && s[i] == x;
  }

  lemma SameMaps<K, V>(a: map<K, V>, b: map<K, V>)
    requires forall k :: k in a ==> k in b
    requires forall k :: k in b ==> k in a && a[k] == b[k]
    ensures a == b
  {
  }
}
