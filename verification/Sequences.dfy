/** Facts about sequences that several components use. */
module Sequences {

  predicate NoRepeats<T(==)>(s: seq<T>) {
    forall i, j :: 0 <= i < j < |s| ==> s[i] != s[j]
  }

  lemma ConcatIsAssociative<T>(a: seq<T>, b: seq<T>, c: seq<T>)
    ensures (a + b) + c == a + (b + c)
  {
  }

  lemma {:induction false} CountOfMember<T>(s: seq<T>, x: T)
    requires NoRepeats(s)
    ensures multiset(s)[x] == if x in s then 1 else 0
  {
    if s != [] {
      var init, last := s[..|s| - 1], s[|s| - 1];
      assert s == init + [last];
      CountOfMember(init, x);
      assert last !in init;
    }
  }

  /** Sequences with the same members, each once, are permutations of each other. */
  lemma SameMembersPermute<T>(a: seq<T>, b: seq<T>)
    requires NoRepeats(a) && NoRepeats(b) && forall x :: x in a <==> x in b
    ensures multiset(a) == multiset(b)
  {
    forall x ensures multiset(a)[x] == multiset(b)[x] {
      CountOfMember(a, x);
      CountOfMember(b, x);
    }
  }

  /** A permutation of a sequence without repeats has none. */
  lemma PermutationHasNoRepeats<T>(a: seq<T>, b: seq<T>)
    requires NoRepeats(b) && multiset(a) == multiset(b)
    ensures NoRepeats(a)
  {
    forall i, j | 0 <= i < j < |a| ensures a[i] != a[j] {
      CountOfMember(b, a[j]);
      if a[i] == a[j] {
        RepeatCounts(a, i, j);
      }
    }
  }

  lemma RepeatCounts<T>(a: seq<T>, i: nat, j: nat)
    requires i < j < |a| && a[i] == a[j]
    ensures multiset(a)[a[j]] >= 2
  {
    assert a == a[..j] + a[j..];
    assert a[..j][i] == a[j] && a[j..][0] == a[j];
    assert a[j] in multiset(a[..j]) && a[j] in multiset(a[j..]);
  }
}
