/** Splitting the shuffled participants into lunch groups: the number of
    groups, the round-robin deal, and what it guarantees about group sizes. */
module Grouping {

  import opened Common

  /** The target group size: at least this many people per group. */
  const GROUP_SIZE: nat := 5

  /** `max(a, b)`: the larger of the two. */
  function Max(a: int, b: int): (r: int)
    ensures r >= a && r >= b
    ensures r == a || r == b
  {
    if a > b then a else b
  }

  /** `NGROUPS = max(1, n / GROUP_SIZE)` for `n` participants. */
  function NumGroups(n: nat): (r: nat)
    ensures r >= 1
    ensures n >= 1 ==> r <= n
    ensures n < 2 * GROUP_SIZE ==> r == 1
    ensures n >= GROUP_SIZE ==> r * GROUP_SIZE <= n < (r + 1) * GROUP_SIZE
  {
    Max(1, n / GROUP_SIZE)
  }

  /** A positive multiple of `n` is at least `n`. */
  lemma {:induction false} MulAtLeast(d: nat, n: nat)
    requires d >= 1
    ensures d * n >= n
  {
    if d > 1 {
      MulAtLeast(d - 1, n);
      assert d * n == (d - 1) * n + n;
    }
  }

  /** Multiplying by the same natural number keeps the order. */
  lemma MulMonotone(a: nat, b: nat, n: nat)
    ensures a <= b ==> a * n <= b * n
  {
    if a < b {
      MulAtLeast(b - a, n);
      assert b * n == (b - a) * n + a * n;
    }
  }

  /** If `c` copies of `n` fit into `m`, the quotient `m / n` is at least `c`. */
  lemma DivLowerBound(m: nat, n: nat, c: nat)
    requires n >= 1 && c * n <= m
    ensures c <= m / n
  {
    var q := m / n;
    assert m == q * n + m % n;
    assert (q + 1) * n == q * n + n;
    MulMonotone(q + 1, c, n);
  }

  /** Division with remainder is unique: `q` and `r` are `a / n` and `a % n`. */
  lemma DivModUnique(a: int, n: int, q: int, r: int)
    requires n >= 1 && 0 <= r < n && a == q * n + r
    ensures a / n == q && a % n == r
  {
    var q', r' := a / n, a % n;
    assert a == q' * n + r';
    if q > q' {
      MulAtLeast(q - q', n);
    } else if q < q' {
      MulAtLeast(q' - q, n);
    }
  }

  /** Moving from `m` to `m + 1` bumps the remainder, or wraps it to zero
      and bumps the quotient. */
  lemma DivModNext(m: nat, n: nat)
    requires n >= 1
    ensures m % n + 1 < n ==> (m + 1) / n == m / n && (m + 1) % n == m % n + 1
    ensures m % n + 1 == n ==> (m + 1) / n == m / n + 1 && (m + 1) % n == 0
  {
    if m % n + 1 < n {
      DivModUnique(m + 1, n, m / n, m % n + 1);
    } else {
      DivModUnique(m + 1, n, m / n + 1, 0);
    }
  }

  /** How many of the indices `0 .. m - 1` fall to group `g` when index `i`
      goes to group `i % n`. */
  function Dealt(m: nat, n: nat, g: nat): nat
    requires n >= 1
  {
    if m == 0 then 0 else Dealt(m - 1, n, g) + (if (m - 1) % n == g then 1 else 0)
  }

  /** Group `g` receives `m / n` people, plus one more when it is among the
      first `m % n` groups. */
  lemma {:induction false} DealtClosedForm(m: nat, n: nat, g: nat)
    requires n >= 1 && g < n
    ensures Dealt(m, n, g) == m / n + (if g < m % n then 1 else 0)
  {
    if m > 0 {
      DealtClosedForm(m - 1, n, g);
      DivModNext(m - 1, n);
      var q, r := (m - 1) / n, (m - 1) % n;
      assert Dealt(m, n, g) == q + (if g < r then 1 else 0) + (if r == g then 1 else 0);
      if r + 1 < n {
        assert m / n == q && m % n == r + 1;
      } else {
        assert m / n == q + 1 && m % n == 0;
      }
    }
  }

  /** Round-robin sizes are balanced: each is `m / n` or one more, so any
      two differ by at most one, and the first group is never smaller. */
  lemma Balanced(m: nat, n: nat, g1: nat, g2: nat)
    requires n >= 1 && g1 < n && g2 < n
    ensures m / n <= Dealt(m, n, g1) <= m / n + 1
    ensures -1 <= Dealt(m, n, g1) - Dealt(m, n, g2) <= 1
    ensures Dealt(m, n, g1) <= Dealt(m, n, 0)
  {
    DealtClosedForm(m, n, g1);
    DealtClosedForm(m, n, g2);
    DealtClosedForm(m, n, 0);
  }

  /** With at least GROUP_SIZE participants, every group has at least
      GROUP_SIZE members. */
  lemma AtLeastGroupSize(m: nat, g: nat)
    requires m >= GROUP_SIZE && g < NumGroups(m)
    ensures Dealt(m, NumGroups(m), g) >= GROUP_SIZE
  {
    var n := NumGroups(m);
    DealtClosedForm(m, n, g);
    DivLowerBound(m, n, GROUP_SIZE);
  }

  /** With fewer than GROUP_SIZE participants there is one group holding
      all of them. */
  lemma FewMakeOneGroup(m: nat)
    requires m < GROUP_SIZE
    ensures NumGroups(m) == 1 && Dealt(m, 1, 0) == m
  {
    DealtClosedForm(m, 1, 0);
  }

  /** The announced "GROUP_SIZE or GROUP_SIZE + 1 participants each" holds
      exactly when the remainder `m % GROUP_SIZE` is at most the number of
      groups. */
  lemma {:induction false} AnnouncedSizesIff(m: nat)
    requires m >= GROUP_SIZE
    ensures (forall g | 0 <= g < NumGroups(m) :: Dealt(m, NumGroups(m), g) <= GROUP_SIZE + 1)
        <==> m % GROUP_SIZE <= NumGroups(m)
  {
    var n := NumGroups(m);
    var rem := m % GROUP_SIZE;
    assert n == m / GROUP_SIZE;
    DealtClosedForm(m, n, 0);
    if rem <= n {
      if rem < n {
        DivModUnique(m, n, GROUP_SIZE, rem);
      } else {
        DivModUnique(m, n, GROUP_SIZE + 1, 0);
      }
      forall g | 0 <= g < n
        ensures Dealt(m, n, g) <= GROUP_SIZE + 1
      {
        DealtClosedForm(m, n, g);
      }
    } else {
      // m exceeds (GROUP_SIZE + 1) * n, so the first group gets more
      DivLowerBound(m, n, GROUP_SIZE + 1);
      assert m == (m / n) * n + m % n;
      assert Dealt(m, n, 0) > GROUP_SIZE + 1;
    }
  }

  /** Nine participants make one group of nine: more than the announced
      GROUP_SIZE + 1. */
  lemma NineMakeOneGroupOfNine()
    ensures NumGroups(9) == 1 && Dealt(9, NumGroups(9), 0) == 9
  {
    DealtClosedForm(9, 1, 0);
  }

  /** The index in the list of the `j`-th member of group `g` when there
      are `n` groups: group `g` takes indices `g`, `g + n`, `g + 2n`, ... */
  function Slot(g: nat, j: nat, n: nat): nat {
    if j == 0 then g else Slot(g, j - 1, n) + n
  }

  lemma {:induction false} SlotIsIndex(g: nat, j: nat, n: nat)
    ensures Slot(g, j, n) == g + j * n
  {
    if j > 0 {
      SlotIsIndex(g, j - 1, n);
      assert j * n == (j - 1) * n + n;
    }
  }

  lemma {:induction false} SlotOffset(g: nat, j: nat, n: nat)
    ensures Slot(g, j, n) == g + Slot(0, j, n)
  {
    if j > 0 {
      SlotOffset(g, j - 1, n);
    }
  }

  lemma {:induction false} SlotMonotone(g: nat, j1: nat, j2: nat, n: nat)
    ensures j1 <= j2 ==> Slot(g, j1, n) <= Slot(g, j2, n)
    decreases j2
  {
    if j1 < j2 {
      SlotMonotone(g, j1, j2 - 1, n);
    }
  }

  /** Slot `j` of group `g < n` leaves remainder `g` and quotient `j`. */
  lemma SlotDivMod(g: nat, j: nat, n: nat)
    requires n >= 1 && g < n
    ensures Slot(g, j, n) / n == j && Slot(g, j, n) % n == g
  {
    SlotIsIndex(g, j, n);
    DivModUnique(Slot(g, j, n), n, j, g);
  }

  /** The state of the `each` loop after the first `i` participants, with
      `current` the group the next one goes to: group `g` holds, in order,
      the participants at the slots of `g` below `i`, and the groups before
      `current` hold one more than the rest. */
  ghost predicate RoundRobinState<T>(ps: seq<T>, n: nat, i: nat, current: nat, groups: seq<seq<T>>) {
    && n >= 1 && i <= |ps| && |groups| == n && current < n
    && i == Slot(current, |groups[current]|, n)
    && (forall g | 0 <= g < n :: |groups[g]| == |groups[current]| + (if g < current then 1 else 0))
    && (forall g, j | 0 <= g < n && 0 <= j < |groups[g]| ::
          Slot(g, j, n) < i && groups[g][j] == ps[Slot(g, j, n)])
  }

  /** One turn of the loop: participant `i` joins group `current`, and
      `current` moves on to the next group, wrapping around after the last. */
  lemma RoundRobinStep<T>(ps: seq<T>, n: nat, i: nat, current: nat, groups: seq<seq<T>>)
    requires RoundRobinState(ps, n, i, current, groups) && i < |ps|
    ensures (current + 1) % n == (if current + 1 < n then current + 1 else 0)
    ensures RoundRobinState(ps, n, i + 1, (current + 1) % n,
                            groups[current := groups[current] + [ps[i]]])
  {
    var next := groups[current := groups[current] + [ps[i]]];
    var len := |groups[current]|;
    forall g, j | 0 <= g < n && 0 <= j < |next[g]|
      ensures Slot(g, j, n) < i + 1 && next[g][j] == ps[Slot(g, j, n)]
    {
      if g != current || j < len {
        assert next[g][j] == groups[g][j];
      }
    }
    SlotOffset(current, len, n);
    if current + 1 < n {
      DivModUnique(current + 1, n, 0, current + 1);
      SlotOffset(current + 1, len, n);
    } else {
      DivModUnique(current + 1, n, 1, 0);
      assert Slot(0, len + 1, n) == Slot(0, len, n) + n;
    }
  }

  /** Index `k` is slot `k / n` of group `k % n`. */
  lemma SlotOfIndex(k: nat, n: nat)
    requires n >= 1
    ensures k % n < n && Slot(k % n, k / n, n) == k
  {
    SlotIsIndex(k % n, k / n, n);
  }

  /** When the loop ends, index `k` of the list sits in group `k % n` at
      position `k / n`. */
  lemma RoundRobinPosition<T>(ps: seq<T>, n: nat, current: nat, groups: seq<seq<T>>, k: nat)
    requires RoundRobinState(ps, n, |ps|, current, groups) && k < |ps|
    ensures k / n < |groups[k % n]| && groups[k % n][k / n] == ps[k]
  {
    var len := |groups[current]|;
    var g, j := k % n, k / n;
    SlotOfIndex(k, n);
    var size := |groups[g]|;
    // the first free slot of group g lies at or past the end of the list
    SlotOffset(current, len, n);
    SlotOffset(g, size, n);
    if g < current {
      assert Slot(0, size, n) == Slot(0, len, n) + n;
    }
    assert Slot(g, size, n) >= |ps|;
    SlotMonotone(g, size, j, n);
  }

  /** When the loop ends, group `g` holds `Dealt(|ps|, n, g)` participants. */
  lemma RoundRobinSizes<T>(ps: seq<T>, n: nat, current: nat, groups: seq<seq<T>>)
    requires RoundRobinState(ps, n, |ps|, current, groups)
    ensures forall g | 0 <= g < n :: |groups[g]| == Dealt(|ps|, n, g)
  {
    SlotDivMod(current, |groups[current]|, n);
    forall g | 0 <= g < n
      ensures |groups[g]| == Dealt(|ps|, n, g)
    {
      DealtClosedForm(|ps|, n, g);
    }
  }

  /** When the loop ends, every index of the list has its place. */
  lemma RoundRobinPositions<T>(ps: seq<T>, n: nat, current: nat, groups: seq<seq<T>>)
    requires n >= 1 && |groups| == n
    requires RoundRobinState(ps, n, |ps|, current, groups)
    ensures forall i | 0 <= i < |ps| :: i / n < |groups[i % n]| && groups[i % n][i / n] == ps[i]
  {
    forall k | 0 <= k < |ps|
      ensures k / n < |groups[k % n]| && groups[k % n][k / n] == ps[k]
    {
      RoundRobinPosition(ps, n, current, groups, k);
    }
  }

  /** When the loop ends, member `j` of group `g` is the participant at
      index `g + j * n`. */
  lemma RoundRobinContents<T>(ps: seq<T>, n: nat, current: nat, groups: seq<seq<T>>)
    requires n >= 1 && |groups| == n
    requires RoundRobinState(ps, n, |ps|, current, groups)
    ensures forall g, j | 0 <= g < n && 0 <= j < |groups[g]| ::
      g + j * n < |ps| && groups[g][j] == ps[g + j * n]
  {
    forall g, j | 0 <= g < n && 0 <= j < |groups[g]|
      ensures g + j * n < |ps| && groups[g][j] == ps[g + j * n]
    {
      SlotIsIndex(g, j, n);
    }
  }

  /** One turn of the loop keeps both loop invariants: the deal so far,
      and that the groups hold exactly the participants seen so far. */
  lemma DealStep<T>(ps: seq<T>, n: nat, i: nat, current: nat, groups: seq<seq<T>>)
    requires RoundRobinState(ps, n, i, current, groups) && i < |ps|
    requires multiset(Flatten(groups)) == multiset(ps[..i])
    ensures RoundRobinState(ps, n, i + 1, (current + 1) % n,
                            groups[current := groups[current] + [ps[i]]])
    ensures multiset(Flatten(groups[current := groups[current] + [ps[i]]])) == multiset(ps[..i + 1])
  {
    RoundRobinStep(ps, n, i, current, groups);
    FlattenAppend(groups, current, ps[i]);
    assert ps[..i + 1] == ps[..i] + [ps[i]];
  }

  /** When the loop ends, the groups are exactly the round-robin deal of
      the whole list. */
  lemma RoundRobinDone<T>(ps: seq<T>, n: nat, current: nat, groups: seq<seq<T>>)
    requires n >= 1 && |groups| == n
    requires RoundRobinState(ps, n, |ps|, current, groups)
    ensures forall i | 0 <= i < |ps| :: i / n < |groups[i % n]| && groups[i % n][i / n] == ps[i]
    ensures forall g, j | 0 <= g < n && 0 <= j < |groups[g]| ::
      g + j * n < |ps| && groups[g][j] == ps[g + j * n]
    ensures forall g | 0 <= g < n :: |groups[g]| == Dealt(|ps|, n, g)
  {
    RoundRobinPositions(ps, n, current, groups);
    RoundRobinContents(ps, n, current, groups);
    RoundRobinSizes(ps, n, current, groups);
  }

  /** `groups` is the round-robin deal of `ps` into `n` groups: group `g`
      holds, in order, the participants at indices `g`, `g + n`,
      `g + 2n`, ..., and so has `Dealt(|ps|, n, g)` of them. */
  ghost predicate IsDeal<T>(ps: seq<T>, n: nat, groups: seq<seq<T>>) {
    && n >= 1 && |groups| == n
    && (forall g | 0 <= g < n :: |groups[g]| == Dealt(|ps|, n, g))
    && (forall g, j | 0 <= g < n && 0 <= j < |groups[g]| ::
          g + j * n < |ps| && groups[g][j] == ps[g + j * n])
  }

  /** `groups = Array.new(NGROUPS) { [] }` followed by the `each` loop that
      puts each participant into `currentgroup` and advances it modulo the
      number of groups. Index `i` of the shuffled list ends up in group
      `i % n` at position `i / n`, nothing else is in any group, and nobody
      is in two places when nobody was listed twice. */
  method Deal<T>(ps: seq<T>, n: nat) returns (groups: seq<seq<T>>)
    requires n >= 1
    ensures |groups| == n
    ensures forall i | 0 <= i < |ps| :: i / n < |groups[i % n]| && groups[i % n][i / n] == ps[i]
    ensures multiset(Flatten(groups)) == multiset(ps)
    ensures NoDuplicates(ps) ==> NoDuplicates(Flatten(groups))
    ensures IsDeal(ps, n, groups)
  {
    groups := seq(n, _ => []);
    FlattenEmptyGroups(groups);
    var current: nat := 0;
    var i := 0;
    while i < |ps|
      invariant RoundRobinState(ps, n, i, current, groups)
      invariant multiset(Flatten(groups)) == multiset(ps[..i])
    {
      DealStep(ps, n, i, current, groups);
      groups := groups[current := groups[current] + [ps[i]]];
      current := (current + 1) % n;
      i := i + 1;
    }
    assert ps[..|ps|] == ps;
    RoundRobinDone(ps, n, current, groups);
    if NoDuplicates(ps) {
      PermutationNoDuplicates(ps, Flatten(groups));
    }
  }

  /** The deal is determined by the list and the number of groups. */
  lemma DealDetermined<T>(ps: seq<T>, n: nat, a: seq<seq<T>>, b: seq<seq<T>>)
    requires IsDeal(ps, n, a) && IsDeal(ps, n, b)
    ensures a == b
  {
    forall g | 0 <= g < n
      ensures a[g] == b[g]
    {
      assert |a[g]| == |b[g]|;
      forall j | 0 <= j < |a[g]|
        ensures a[g][j] == b[g][j]
      {
        assert a[g][j] == ps[g + j * n] == b[g][j];
      }
    }
  }

  /** Quotient-remainder pairs compare lexicographically: if
      `j * n + g < q * n + r` with `g < n`, then `j < q`, or `j == q` and
      `g < r`. */
  lemma QuotientOrder(n: nat, j: nat, g: nat, q: nat, r: nat)
    requires g < n && r < n && j * n + g < q * n + r
    ensures j < q || (j == q && g < r)
  {
    if j > q {
      MulMonotone(q + 1, j, n);
    }
  }

  /** Slot `j` of group `g` is dealt as long as its index `j * n + g` is
      below the number of people dealt. */
  lemma DealtCovers(m: nat, n: nat, j: nat, g: nat)
    requires n >= 1 && g < n && j * n + g < m
    ensures j < Dealt(m, n, g)
  {
    var q, r := m / n, m % n;
    assert m == q * n + r;
    QuotientOrder(n, j, g, q, r);
    DealtClosedForm(m, n, g);
  }

  /** In a deal, index `i` of the list sits in group `i % n` at position
      `i / n`: every participant is placed, and where the loop put them. */
  lemma DealPlaces<T>(ps: seq<T>, n: nat, groups: seq<seq<T>>, i: nat)
    requires IsDeal(ps, n, groups) && i < |ps|
    ensures i / n < |groups[i % n]| && groups[i % n][i / n] == ps[i]
  {
    var g, j := i % n, i / n;
    assert i == j * n + g;
    DealtCovers(|ps|, n, j, g);
    assert groups[g][j] == ps[g + j * n];
  }
}
