/** src/q4.rs: six-digit passwords whose digits never decrease and that
    contain a pair of equal adjacent digits (part A) or a run of exactly two
    equal digits (part B), counted over a fixed range. */
module SecureContainer {
  import opened Arith
  import opened Decimal

  /** `Iterator::zip`: pairs up to the shorter of the two lists. */
  function Zip(a: seq<nat>, b: seq<nat>): (z: seq<(nat, nat)>)
    ensures |z| == Min(|a|, |b|)
    ensures forall i :: 0 <= i < |z| ==> z[i] == (a[i], b[i])
  {
    if a == [] || b == [] then [] else [(a[0], b[0])] + Zip(a[1..], b[1..])
  }

  /** `pairs`: each digit with its successor. The source slices
      `digits[0..len - 1]`, which underflows on an empty list, so the list
      must not be empty. */
  function Pairs(d: seq<nat>): seq<(nat, nat)>
    requires |d| > 0
  {
    Zip(d[..|d| - 1], d[1..])
  }

  lemma PairsAre(d: seq<nat>)
    requires |d| > 0
    ensures |Pairs(d)| == |d| - 1
    ensures forall i :: 0 <= i < |d| - 1 ==> Pairs(d)[i] == (d[i], d[i + 1])
  {
  }

  /** `ascending`: every pair is in order. */
  predicate Ascending(d: seq<nat>)
    requires |d| > 0
  {
    var ps := Pairs(d);
    forall i :: 0 <= i < |ps| ==> ps[i].0 <= ps[i].1
  }

  /** `has_two_adjacent`: some pair is equal. */
  predicate HasTwoAdjacent(d: seq<nat>)
    requires |d| > 0
  {
    var ps := Pairs(d);
    exists i :: 0 <= i < |ps| && ps[i].0 == ps[i].1
  }

  predicate Sorted(d: seq<nat>) {
    forall i, j :: 0 <= i <= j < |d| ==> d[i] <= d[j]
  }

  /** Adjacent pairs in order is the same as the whole list sorted. */
  lemma AscendingIffSorted(d: seq<nat>)
    requires |d| > 0
    ensures Ascending(d) <==> Sorted(d)
  {
    PairsAre(d);
    if Ascending(d) {
      AdjacentOrderSorts(d);
    }
  }

  lemma {:induction false} AdjacentOrderSorts(d: seq<nat>)
    requires forall i :: 0 <= i < |d| - 1 ==> d[i] <= d[i + 1]
    ensures Sorted(d)
  {
    if |d| > 1 {
      AdjacentOrderSorts(d[1..]);
      forall i, j | 0 <= i <= j < |d| ensures d[i] <= d[j] {
        if i < j {
          assert d[1..][i] == d[i + 1];
          assert d[1..][j - 1] == d[j];
          if i + 1 <= j - 1 {
            assert d[1..][i] <= d[1..][j - 1];
          }
        }
      }
    }
  }

  lemma HasTwoAdjacentIff(d: seq<nat>)
    requires |d| > 0
    ensures HasTwoAdjacent(d) <==> exists i :: 0 <= i < |d| - 1 && d[i] == d[i + 1]
  {
    PairsAre(d);
  }

  /** d[i], d[i+1] are equal and form a whole run: the digits on either side,
      where there are any, differ from them. */
  predicate PairRunAt(d: seq<nat>, i: int) {
    && 0 <= i && i + 1 < |d|
    && d[i] == d[i + 1]
    && (i == 0 || d[i - 1] != d[i])
    && (i + 2 == |d| || d[i + 2] != d[i])
  }

  predicate HasRunOfExactlyTwo(d: seq<nat>) {
    exists i :: 0 <= i < |d| && PairRunAt(d, i)
  }

  /** The digits before k end with a run of `length` copies of `value`. */
  ghost predicate RunEndsAt(d: seq<nat>, k: int, value: nat, length: nat) {
    && 1 <= length <= k <= |d|
    && (forall j :: k - length <= j < k ==> d[j] == value)
    && (k - length == 0 || d[k - length - 1] != value)
  }

  /** `has_exactly_two_adjacent`: scans the digits keeping the current digit
      and the length of its run, and answers true as soon as a run of
      exactly two ends. Starting from value 0 and length 0 is harmless: a
      leading 0 starts a run of length 1. */
  method HasExactlyTwoAdjacent(d: seq<nat>) returns (b: bool)
    ensures b == HasRunOfExactlyTwo(d)
  {
    var value: nat := 0;
    var length: nat := 0;
    var k := 0;
    while k < |d|
      invariant 0 <= k <= |d|
      invariant k == 0 ==> value == 0 && length == 0
      invariant k > 0 ==> value == d[k - 1] && RunEndsAt(d, k, value, length)
      invariant forall i :: PairRunAt(d, i) ==> i + 2 >= k
    {
      if value == d[k] {
        length := length + 1;
      } else if length == 2 {
        assert PairRunAt(d, k - 2);
        return true;
      } else {
        length := 1;
        value := d[k];
      }
      k := k + 1;
    }
    b := length == 2;
    if b {
      assert PairRunAt(d, |d| - 2);
    }
  }

  /** A run of exactly two equal digits is in particular a pair of equal
      adjacent digits. */
  lemma RunOfTwoHasTwoAdjacent(d: seq<nat>)
    requires HasRunOfExactlyTwo(d)
    ensures |d| > 0 && HasTwoAdjacent(d)
  {
    var i :| 0 <= i < |d| && PairRunAt(d, i);
    PairsAre(d);
    assert |Pairs(d)| == |d| - 1 && Pairs(d)[i] == (d[i], d[i + 1]);
  }

  /** The digits of `password.to_string()`, each through `to_digit(10)`. */
  function Digits(n: nat): (d: seq<nat>)
    ensures |d| > 0 && forall i :: 0 <= i < |d| ==> d[i] < 10
  {
    var s := ShowNat(n);
    seq(|s|, i requires 0 <= i < |s| => DigitValue(s[i]))
  }

  datatype Part = A | B

  /** The filter of `run`: ascending digits, and the part's adjacency rule. */
  predicate Accepts(n: nat, part: Part) {
    var d := Digits(n);
    Ascending(d) && (if part == A then HasTwoAdjacent(d) else HasRunOfExactlyTwo(d))
  }

  /** `filter(..).count()` over lo..hi. */
  function CountAccepted(lo: nat, hi: nat, part: Part): nat
    decreases hi - lo
  {
    if lo >= hi then 0 else (if Accepts(lo, part) then 1 else 0) + CountAccepted(lo + 1, hi, part)
  }

  const Low: nat := 231832
  const High: nat := 767346

  function Run(part: Part): nat {
    CountAccepted(Low, High, part)
  }

  /** Every password part B accepts, part A accepts too, so part B never
      counts more. */
  lemma {:induction false} PartBCountsNoMore(lo: nat, hi: nat)
    ensures CountAccepted(lo, hi, B) <= CountAccepted(lo, hi, A) <= (if hi > lo then hi - lo else 0)
    decreases hi - lo
  {
    if lo < hi {
      if Accepts(lo, B) {
        RunOfTwoHasTwoAdjacent(Digits(lo));
      }
      PartBCountsNoMore(lo + 1, hi);
    }
  }

  /** Examples from the puzzle: 111111 passes A only, 223450 fails (it
      decreases), 123789 fails (no pair), 111122 passes both. */
  lemma PasswordExamples()
    ensures HasRunOfExactlyTwo([1, 1, 1, 1, 2, 2]) && !HasRunOfExactlyTwo([1, 1, 1, 1, 1, 1])
    ensures HasTwoAdjacent([1, 1, 1, 1, 1, 1]) && !Ascending([2, 2, 3, 4, 5, 0])
    ensures !HasTwoAdjacent([1, 2, 3, 7, 8, 9]) && !HasRunOfExactlyTwo([1, 2, 3, 4, 4, 4])
  {
    assert PairRunAt([1, 1, 1, 1, 2, 2], 4);
    PairsAre([1, 1, 1, 1, 1, 1]);
    PairsAre([2, 2, 3, 4, 5, 0]);
    PairsAre([1, 2, 3, 7, 8, 9]);
    assert Pairs([1, 1, 1, 1, 1, 1])[0] == (1, 1);
    assert Pairs([2, 2, 3, 4, 5, 0])[4] == (5, 0);
  }
}
