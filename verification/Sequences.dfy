/** Sequences that hold the same elements in different orders. */
module Sequences {
  /** Where the last element of one order stands in another. */
  lemma LastElsewhere<T>(one: seq<T>, other: seq<T>) returns (j: nat)
    requires multiset(one) == multiset(other) && one != []
    ensures j < |other| && other[j] == one[|one| - 1]
    ensures multiset(one[..|one| - 1]) == multiset(other[..j] + other[j + 1..])
  {
    var n := |one| - 1;
    assert one == one[..n] + [one[n]];
    assert one[n] in multiset(other);
    j :| 0 <= j < |other| && other[j] == one[n];
    var rest := other[..j] + other[j + 1..];
    assert other == other[..j] + [other[j]] + other[j + 1..];
    calc {
      multiset(rest);
      multiset(other) - multiset{one[n]};
      multiset(one[..n]) + multiset{one[n]} - multiset{one[n]};
      multiset(one[..n]);
    }
  }
}
