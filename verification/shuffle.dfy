/** `participants.shuffle(random: Random.new(RANDOM_SEED))`. Ruby's
    Array#shuffle is the Fisher-Yates shuffle run from the end: for i from
    the length down to 1 it draws j below i and swaps positions i - 1 and j.
    The seeded generator is represented by the stream of draws it yields,
    `draws(k)` being the k-th one; reducing it modulo the bound stands for
    the generator's bounded draw. */
module Shuffling {

  import opened Common

  /** Exchange the elements at positions `i` and `j`. */
  function Swap<T>(s: seq<T>, i: nat, j: nat): (r: seq<T>)
    requires i < |s| && j < |s|
    ensures |r| == |s| && multiset(r) == multiset(s)
    ensures r[i] == s[j] && r[j] == s[i]
    ensures forall k | 0 <= k < |s| && k != i && k != j :: r[k] == s[k]
    ensures NoDuplicates(s) ==> NoDuplicates(r)
  {
    var r := s[i := s[j]][j := s[i]];
    assert NoDuplicates(s) ==> forall a, b | 0 <= a < b < |r| :: r[a] != r[b] by {
      if NoDuplicates(s) {
        forall a, b | 0 <= a < b < |r|
          ensures r[a] != r[b]
        {
          var a' := if a == i then j else if a == j then i else a;
          var b' := if b == i then j else if b == j then i else b;
          assert r[a] == s[a'] && r[b] == s[b'] && a' != b';
        }
      }
    }
    r
  }

  /** The Fisher-Yates loop with `i` positions still to settle; the draw
      used at each step is the next one in the stream. */
  function FisherYates<T>(s: seq<T>, i: nat, draws: nat -> nat): (r: seq<T>)
    requires i <= |s|
    ensures |r| == |s| && multiset(r) == multiset(s)
    ensures forall k | i <= k < |s| :: r[k] == s[k]
    ensures NoDuplicates(s) ==> NoDuplicates(r)
    decreases i
  {
    if i == 0 then s
    else
      var j := draws(|s| - i) % i;
      FisherYates(Swap(s, i - 1, j), i - 1, draws)
  }

  /** The shuffled participants: the same people, reordered. */
  function Shuffle<T>(s: seq<T>, draws: nat -> nat): (r: seq<T>)
    ensures |r| == |s| && multiset(r) == multiset(s)
    ensures NoDuplicates(s) ==> NoDuplicates(r)
  {
    FisherYates(s, |s|, draws)
  }
}
