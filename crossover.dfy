/** Ordered crossover: a child route made of a prefix of an elite route
    followed by the cities of another route that the prefix lacks, in that
    route's order. */
module Crossover {
  import opened Lists

  function Elements(s: seq<nat>): set<nat> {
    set x | x in s
  }

  /** The cities of `s` that are not in `excluded`, in the order of `s`. */
  function Without(s: seq<nat>, excluded: set<nat>): seq<nat>
    decreases |s|
  {
    if s == [] then []
    else Without(s[..|s| - 1], excluded) + (if s[|s| - 1] in excluded then [] else [s[|s| - 1]])
  }

  /** Filtering a concatenation filters each part. */
  lemma {:induction false} WithoutAppend(s1: seq<nat>, s2: seq<nat>, excluded: set<nat>)
    ensures Without(s1 + s2, excluded) == Without(s1, excluded) + Without(s2, excluded)
    decreases |s2|
  {
    if s2 != [] {
      var s := s1 + s2;
      assert s[..|s| - 1] == s1 + s2[..|s2| - 1];
      WithoutAppend(s1, s2[..|s2| - 1], excluded);
    } else {
      assert s1 + s2 == s1;
    }
  }

  /** Filtering one more city of `s` appends it unless it is excluded. */
  lemma WithoutPrefixStep(s: seq<nat>, k: nat, excluded: set<nat>)
    requires k < |s|
    ensures Without(s[..k + 1], excluded) ==
            Without(s[..k], excluded) + (if s[k] in excluded then [] else [s[k]])
  {
    assert s[..k + 1] == s[..k] + [s[k]];
    WithoutAppend(s[..k], [s[k]], excluded);
    assert [s[k]][..0] == [];
  }

  /** An excluded city never survives; any other city keeps its number of
      occurrences. */
  lemma {:induction false} WithoutCount(s: seq<nat>, excluded: set<nat>)
    ensures forall x :: multiset(Without(s, excluded))[x] == if x in excluded then 0 else multiset(s)[x]
    decreases |s|
  {
    if s != [] {
      var init, last := s[..|s| - 1], s[|s| - 1];
      assert s == init + [last];
      WithoutCount(init, excluded);
    }
  }

  /** `_crossover` on the two route lists, once the prefix is cut. */
  function OrderedCrossover(prefix: seq<nat>, child: seq<nat>): seq<nat> {
    prefix + Without(child, Elements(prefix))
  }

  /** The result starts with the prefix, holds only cities of the prefix or
      of the child, and after the prefix repeats none of the prefix. */
  lemma CrossoverShape(prefix: seq<nat>, child: seq<nat>)
    ensures var r := OrderedCrossover(prefix, child);
      |prefix| <= |r| && r[..|prefix|] == prefix &&
      (forall x :: x in r <==> x in prefix || (x in child && x !in prefix)) &&
      (forall k :: |prefix| <= k < |r| ==> r[k] !in prefix)
  {
    var rest := Without(child, Elements(prefix));
    WithoutCount(child, Elements(prefix));
    forall x ensures x in rest <==> x in child && x !in prefix {
      assert x in rest <==> x in multiset(rest);
      assert x in child <==> x in multiset(child);
    }
    assert (prefix + rest)[..|prefix|] == prefix;
    forall k | |prefix| <= k < |prefix + rest| ensures (prefix + rest)[k] !in prefix {
      assert (prefix + rest)[k] == rest[k - |prefix|];
    }
  }

  /** When the elite and the child hold the same cities, each once, the
      result of crossing a prefix of the elite with the child holds those
      same cities, each once. */
  lemma CrossoverPermutation(elite: seq<nat>, child: seq<nat>, q: nat)
    requires q <= |elite| && NoDuplicates(elite) && multiset(elite) == multiset(child)
    ensures multiset(OrderedCrossover(elite[..q], child)) == multiset(child)
    ensures |OrderedCrossover(elite[..q], child)| == |child|
    ensures NoDuplicates(OrderedCrossover(elite[..q], child))
  {
    var prefix := elite[..q];
    var r := OrderedCrossover(prefix, child);
    WithoutCount(child, Elements(prefix));
    assert elite == prefix + elite[q..];
    forall x ensures multiset(r)[x] == multiset(child)[x] {
      if x in prefix {
        assert x in multiset(prefix);
        assert multiset(elite)[x] == multiset(prefix)[x] + multiset(elite[q..])[x];
      } else {
        assert x !in multiset(prefix);
      }
    }
    assert multiset(r) == multiset(child);
    assert |r| == |multiset(r)|;
  }
}
