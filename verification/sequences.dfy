/**
 The three Python list operations the activity store relies on, stated over
 Dafny sequences: `x in xs` is Dafny's own `in`, `xs.append(x)` is
 `xs + [x]`, and `xs.remove(x)` deletes the FIRST entry equal to `x` (it does
 not filter out every copy), raising ValueError when there is none.
 */
module Sequences {

  /** An optional value; `None` stands for the ValueError of `list.remove`. */
  datatype Option<T> = None | Some(value: T)

  /** No element occurs at two positions. */
  predicate NoDuplicates<T(==)>(s: seq<T>) {
    forall i, j | 0 <= i < j < |s| :: s[i] != s[j]
  }

  /** Position of the first occurrence of `x` in `s` (Python's `list.index`). */
  function FirstIndex<T(==)>(s: seq<T>, x: T): (i: nat)
    requires x in s
    ensures i < |s| && s[i] == x
    ensures forall k | 0 <= k < i :: s[k] != x
  {
    if s[0] == x then 0
    else
      assert x in s[1..] by {
        var k :| 0 <= k < |s| && s[k] == x;
        assert s[1..][k - 1] == x;
      }
      1 + FirstIndex(s[1..], x)
  }

  /**
   `list.remove(x)` on a list that holds `x`: the entries before the first
   `x` and after it, in their original order.
   */
  function RemoveFirst<T(==)>(s: seq<T>, x: T): (r: seq<T>)
    requires x in s
    ensures |r| == |s| - 1
    ensures r == s[..FirstIndex(s, x)] + s[FirstIndex(s, x) + 1..]
  {
    if s[0] == x then s[1..]
    else
      assert x in s[1..] by {
        var k :| 0 <= k < |s| && s[k] == x;
        assert s[1..][k - 1] == x;
      }
      var t := s[1..];
      var j := FirstIndex(t, x);
      assert FirstIndex(s, x) == j + 1;
      assert s[..j + 1] == [s[0]] + t[..j];
      assert s[j + 2..] == t[j + 1..];
      [s[0]] + RemoveFirst(t, x)
  }

  /**
   The scan `list.remove` performs: walk the list until the first entry equal
   to `x` and splice it out; `None` when the walk reaches the end (ValueError).
   */
  method ListRemove<T(==)>(s: seq<T>, x: T) returns (r: Option<seq<T>>)
    ensures x !in s <==> r == None
    ensures x in s ==> r == Some(RemoveFirst(s, x))
  {
    var i := 0;
    while i < |s|
      invariant 0 <= i <= |s|
      invariant forall k | 0 <= k < i :: s[k] != x
    {
      if s[i] == x {
        return Some(s[..i] + s[i + 1..]);
      }
      i := i + 1;
    }
    return None;
  }

  /** Removing one copy of `x` takes exactly one `x` out of the multiset. */
  lemma RemoveFirstMultiset<T>(s: seq<T>, x: T)
    requires x in s
    ensures multiset(RemoveFirst(s, x)) == multiset(s) - multiset{x}
  {
    var i := FirstIndex(s, x);
    assert s == s[..i] + [s[i]] + s[i + 1..];
    assert multiset(s) == multiset(s[..i]) + multiset{x} + multiset(s[i + 1..]);
  }

  /** Every value other than `x` is in the list after removal exactly when it was before. */
  lemma RemoveFirstKeepsOthers<T>(s: seq<T>, x: T, y: T)
    requires x in s && y != x
    ensures y in RemoveFirst(s, x) <==> y in s
  {
  }

  /**
   Only the first copy goes: a later copy of `x` survives, so `list.remove`
   is not a filter.
   */
  lemma RemoveFirstKeepsLaterCopies<T>(s: seq<T>, x: T)
    requires x in s && x in s[FirstIndex(s, x) + 1..]
    ensures x in RemoveFirst(s, x)
  {
  }

  /** Appending a value not yet present keeps a duplicate-free list duplicate-free. */
  lemma AppendPreservesNoDuplicates<T>(s: seq<T>, x: T)
    requires NoDuplicates(s) && x !in s
    ensures NoDuplicates(s + [x])
  {
  }

  /**
   On a duplicate-free list, removal keeps it duplicate-free and leaves no
   copy of `x` behind.
   */
  lemma RemoveFirstPreservesNoDuplicates<T>(s: seq<T>, x: T)
    requires NoDuplicates(s) && x in s
    ensures NoDuplicates(RemoveFirst(s, x))
    ensures x !in RemoveFirst(s, x)
  {
  }

  /** Appending `x` to a list without it and removing `x` again gives the list back. */
  lemma RemoveFirstOfAppend<T>(s: seq<T>, x: T)
    requires x !in s
    ensures RemoveFirst(s + [x], x) == s
  {
  }
}
