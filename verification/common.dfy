/** Shared vocabulary of the lunch-roulette model: optional and fallible
    values, order-preserving subsequences, duplicate-freedom and the
    concatenation of a list of groups. */
module Common {

  /** A value that may be absent; models Ruby's `nil`. */
  datatype Option<+T> = None | Some(value: T)

  /** The outcome of an operation that can raise. */
  datatype Result<+T, +E> = Ok(value: T) | Err(error: E)

  /** `a` can be obtained from `b` by deleting elements, keeping the order
      of the rest. */
  ghost predicate SubseqOf<T>(a: seq<T>, b: seq<T>)
    decreases |b|
  {
    |a| == 0 ||
    (|b| > 0 && ((a[0] == b[0] && SubseqOf(a[1..], b[1..])) || SubseqOf(a, b[1..])))
  }

  /** No value occurs twice. */
  predicate NoDuplicates<T(==)>(s: seq<T>) {
    forall i, j | 0 <= i < j < |s| :: s[i] != s[j]
  }

  /** A subsequence of a subsequence is a subsequence. */
  lemma {:induction false} SubseqTrans<T>(a: seq<T>, b: seq<T>, c: seq<T>)
    requires SubseqOf(a, b) && SubseqOf(b, c)
    ensures SubseqOf(a, c)
    decreases |c|
  {
    if |a| > 0 {
      if b[0] == c[0] && SubseqOf(b[1..], c[1..]) {
        if a[0] == b[0] && SubseqOf(a[1..], b[1..]) {
          SubseqTrans(a[1..], b[1..], c[1..]);
        } else {
          SubseqTrans(a, b[1..], c[1..]);
        }
      } else {
        SubseqTrans(a, b, c[1..]);
      }
    }
  }

  /** Putting a fresh value in front keeps a sequence duplicate-free. */
  lemma ConsNoDuplicates<T>(x: T, s: seq<T>)
    ensures x !in s && NoDuplicates(s) ==> NoDuplicates([x] + s)
  {
    var t := [x] + s;
    forall i, j | 0 <= i < j < |t| && x !in s && NoDuplicates(s)
      ensures t[i] != t[j]
    {
      if i == 0 {
        assert t[j] == s[j - 1];
      } else {
        assert t[i] == s[i - 1] && t[j] == s[j - 1];
      }
    }
  }

  /** A duplicate-free sequence holds each value at most once. */
  lemma {:induction false} NoDuplicatesCount<T>(s: seq<T>, x: T)
    requires NoDuplicates(s)
    ensures multiset(s)[x] <= 1
  {
    if |s| > 0 {
      assert s == [s[0]] + s[1..];
      NoDuplicatesCount(s[1..], x);
      if s[0] == x {
        assert x !in s[1..];
      }
    }
  }

  /** Reordering a duplicate-free sequence leaves it duplicate-free. */
  lemma PermutationNoDuplicates<T>(a: seq<T>, b: seq<T>)
    requires multiset(a) == multiset(b) && NoDuplicates(a)
    ensures NoDuplicates(b)
  {
    forall i, j | 0 <= i < j < |b|
      ensures b[i] != b[j]
    {
      if b[i] == b[j] {
        assert b == b[..i] + [b[i]] + b[i + 1..j] + [b[j]] + b[j + 1..];
        assert multiset(b)[b[i]] >= 2;
        NoDuplicatesCount(a, b[i]);
      }
    }
  }

  /** The members of a list of groups, group after group. */
  function Flatten<T>(groups: seq<seq<T>>): (r: seq<T>)
  {
    if |groups| == 0 then [] else groups[0] + Flatten(groups[1..])
  }

  /** Appending one value to one group adds exactly that value to the
      members of all the groups. */
  lemma {:induction false} FlattenAppend<T>(groups: seq<seq<T>>, k: nat, x: T)
    requires k < |groups|
    ensures multiset(Flatten(groups[k := groups[k] + [x]]))
         == multiset(Flatten(groups)) + multiset{x}
  {
    var updated := groups[k := groups[k] + [x]];
    if k == 0 {
      assert updated[1..] == groups[1..];
    } else {
      assert updated[1..] == groups[1..][k - 1 := groups[k] + [x]];
      FlattenAppend(groups[1..], k - 1, x);
    }
  }

  /** Every member of every group is among the members of all groups. */
  lemma {:induction false} FlattenHolds<T>(groups: seq<seq<T>>, g: nat, j: nat)
    requires g < |groups| && j < |groups[g]|
    ensures groups[g][j] in Flatten(groups)
  {
    if g == 0 {
      assert Flatten(groups)[j] == groups[0][j];
    } else {
      FlattenHolds(groups[1..], g - 1, j);
    }
  }

  /** Groups that are all empty have no members. */
  lemma {:induction false} FlattenEmptyGroups<T>(groups: seq<seq<T>>)
    requires forall g | 0 <= g < |groups| :: groups[g] == []
    ensures Flatten(groups) == []
  {
    if |groups| > 0 {
      FlattenEmptyGroups(groups[1..]);
    }
  }
}
