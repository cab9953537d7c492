/**
 * Sequence facts behind JavaScript's `new Set(array)` followed by
 * `Array.from(set)`: duplicates dropped, first occurrences kept in order.
 */
module Seqs {

  predicate NoDup<T(==)>(s: seq<T>) {
    forall i, j :: 0 <= i < j < |s| ==> s[i] != s[j]
  }

  /** Extending a prefix by one element. */
  lemma PrefixSnoc<T>(s: seq<T>, i: nat)
    requires i < |s|
    ensures s[..i + 1][..i] == s[..i] && s[..i + 1][i] == s[i]
  {
  }

  lemma PrefixAll<T>(s: seq<T>)
    ensures s[..|s|] == s
  {
  }

  lemma SnocAssoc<T>(a: seq<T>, b: seq<T>, x: T)
    ensures (a + b) + [x] == a + (b + [x])
  {
  }

  lemma AppendAssoc<T>(a: seq<T>, b: seq<T>, c: seq<T>)
    ensures (a + b) + c == a + (b + c)
  {
  }

  /** `Array.from(new Set(s))`. */
  function Dedup<T(==,!new)>(s: seq<T>): (r: seq<T>)
    ensures NoDup(r)
    ensures forall x :: x in r <==> x in s
    ensures |r| <= |s|
  {
    if s == [] then []
    else
      var p := Dedup(s[..|s| - 1]);
      assert s == s[..|s| - 1] + [s[|s| - 1]];
      if s[|s| - 1] in p then p else p + [s[|s| - 1]]
  }

  /** Adding one element to a set keeps the old order and appends it if new. */
  lemma DedupSnoc<T(!new)>(s: seq<T>, x: T)
    ensures Dedup(s + [x]) == if x in Dedup(s) then Dedup(s) else Dedup(s) + [x]
  {
    assert (s + [x])[..|s|] == s;
  }

  /** A duplicate-free sequence is its own set order. */
  lemma {:induction false} DedupOfNoDup<T(!new)>(s: seq<T>)
    requires NoDup(s)
    ensures Dedup(s) == s
  {
    if s != [] {
      DedupOfNoDup(s[..|s| - 1]);
    }
  }

  /** `new Set(Array.from(new Set(a)))` adds nothing: deduplicating twice is deduplicating once. */
  lemma DedupAppendOne<T(!new)>(a: seq<T>, x: T)
    ensures Dedup(Dedup(a) + [x]) == Dedup(a + [x])
  {
    DedupSnoc(a, x);
    DedupSnoc(Dedup(a), x);
    DedupOfNoDup(Dedup(a));
  }

  /** The first element of a non-empty sequence leads its deduplication. */
  lemma {:induction false} DedupHead<T(!new)>(s: seq<T>)
    requires |s| > 0
    ensures |Dedup(s)| > 0 && Dedup(s)[0] == s[0]
  {
    if |s| > 1 {
      DedupHead(s[..|s| - 1]);
    }
  }

  /** The position of the first occurrence of `x`. */
  function FirstIndex<T(==)>(s: seq<T>, x: T): (i: nat)
    requires x in s
    ensures i < |s| && s[i] == x
    ensures forall j :: 0 <= j < i ==> s[j] != x
  {
    if s[0] == x then 0 else 1 + FirstIndex(s[1..], x)
  }

  lemma FirstIndexSnoc<T>(s: seq<T>, y: T, x: T)
    requires x in s
    ensures FirstIndex(s + [y], x) == FirstIndex(s, x)
  {
    var i, k := FirstIndex(s + [y], x), FirstIndex(s, x);
    assert (s + [y])[k] == x;
  }

  /** Deduplication lists elements in the order of their first occurrence. */
  lemma {:induction false} DedupFirstSeenOrder<T(!new)>(s: seq<T>, i: nat, j: nat)
    requires i < j < |Dedup(s)|
    ensures FirstIndex(s, Dedup(s)[i]) < FirstIndex(s, Dedup(s)[j])
  {
    var t, x := s[..|s| - 1], s[|s| - 1];
    assert s == t + [x];
    var d := Dedup(t);
    DedupSnoc(t, x);
    var a, b := Dedup(s)[i], Dedup(s)[j];
    assert a == d[i];
    FirstIndexSnoc(t, x, a);
    if j < |d| {
      assert b == d[j];
      FirstIndexSnoc(t, x, b);
      DedupFirstSeenOrder(t, i, j);
    } else {
      assert b == x && x !in t;
      assert FirstIndex(s, b) == |t|;
    }
  }
}
