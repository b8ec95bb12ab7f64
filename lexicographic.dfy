/**
 * The order `Ord for String` sorts paths by: lexicographic on characters
 * (the byte order of UTF-8 is the order of code points), a proper prefix
 * first. Sorted results and the fact that they are determined by their
 * elements alone.
 */
module Lexicographic {
  import opened Seqs

  /** `a < b` for Rust strings. */
  predicate Less(a: string, b: string)
    decreases |a|
  {
    if a == [] then b != []
    else if b == [] then false
    else if a[0] != b[0] then a[0] < b[0]
    else Less(a[1..], b[1..])
  }

  /** Strictly increasing: sorted, and with no repeated element. */
  predicate StrictlySorted(s: seq<string>)
  {
    forall i, j :: 0 <= i < j < |s| ==> Less(s[i], s[j])
  }

  lemma {:induction false} LessIrreflexive(a: string)
    ensures !Less(a, a)
    decreases |a|
  {
    if a != [] {
      LessIrreflexive(a[1..]);
    }
  }

  lemma {:induction false} LessTransitive(a: string, b: string, c: string)
    requires Less(a, b) && Less(b, c)
    ensures Less(a, c)
    decreases |a|
  {
    if a != [] && b != [] && c != [] && a[0] == b[0] && b[0] == c[0] {
      LessTransitive(a[1..], b[1..], c[1..]);
    }
  }

  /** Any two different strings are ordered one way or the other, and only one way. */
  lemma {:induction false} LessTotal(a: string, b: string)
    ensures a != b <==> Less(a, b) || Less(b, a)
    ensures !(Less(a, b) && Less(b, a))
    decreases |a|
  {
    if a == [] || b == [] {
    } else if a[0] != b[0] {
    } else {
      LessTotal(a[1..], b[1..]);
      assert a == [a[0]] + a[1..] && b == [b[0]] + b[1..];
    }
  }

  /** Inserting an absent element into its place keeps a sequence strictly sorted. */
  function InsertSorted(s: seq<string>, x: string): (r: seq<string>)
    requires StrictlySorted(s) && x !in s
    ensures StrictlySorted(r)
    ensures multiset(r) == multiset(s) + multiset{x}
  {
    if s == [] then [x]
    else if Less(x, s[0]) then
      assert forall j :: 0 < j < |s| ==> Less(x, s[j]) by {
        forall j | 0 < j < |s| ensures Less(x, s[j]) { LessTransitive(x, s[0], s[j]); }
      }
      [x] + s
    else
      LessTotal(x, s[0]);
      var rest := InsertSorted(s[1..], x);
      assert s == [s[0]] + s[1..];
      assert forall y :: y in rest ==> Less(s[0], y) by {
        forall y | y in rest ensures Less(s[0], y) {
          assert y in multiset(rest);
        }
      }
      [s[0]] + rest
  }

  /**
   * Sorting is deterministic: two strictly sorted sequences with the same
   * elements are equal, whatever order the elements were collected in.
   */
  lemma {:induction false} SortedUnique(a: seq<string>, b: seq<string>)
    requires StrictlySorted(a) && StrictlySorted(b)
    requires Elems(a) == Elems(b)
    ensures a == b
    decreases |a|
  {
    if a != [] {
      assert a[0] in Elems(b);
      assert b != [];
      assert b[0] in Elems(a);
      var i :| 0 <= i < |a| && a[i] == b[0];
      var j :| 0 <= j < |b| && b[j] == a[0];
      assert i == 0 || Less(a[0], b[0]);
      assert j == 0 || Less(b[0], a[0]);
      LessTotal(a[0], b[0]);
      assert a[0] == b[0];
      forall x | x in Elems(a[1..]) ensures x in Elems(b[1..]) {
        var i :| 1 <= i < |a| && a[i] == x;
        LessIrreflexive(a[0]);
        assert Less(a[0], a[i]);
        assert x in Elems(a);
        assert x in b;
        var j :| 0 <= j < |b| && b[j] == x;
        assert j != 0;
      }
      forall x | x in Elems(b[1..]) ensures x in Elems(a[1..]) {
        var j :| 1 <= j < |b| && b[j] == x;
        LessIrreflexive(b[0]);
        assert Less(b[0], b[j]);
        assert x in Elems(b);
        assert x in a;
        var i :| 0 <= i < |a| && a[i] == x;
        assert i != 0;
      }
      SortedUnique(a[1..], b[1..]);
      assert a == [a[0]] + a[1..] && b == [b[0]] + b[1..];
    } else {
      ElemsEmpty(b);
    }
  }

  /** A strictly sorted sequence holds no repeats. */
  lemma SortedNoDuplicates(s: seq<string>)
    requires StrictlySorted(s)
    ensures NoDuplicates(s)
  {
    forall i, j | 0 <= i < j < |s| ensures s[i] != s[j] {
      LessIrreflexive(s[i]);
    }
  }
}
