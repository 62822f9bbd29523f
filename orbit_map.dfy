/** src/q6.rs: the orbit map. Part A sums, over every body, the number of
    bodies it orbits directly or indirectly; part B counts the orbital
    transfers between the bodies two objects orbit. */
module OrbitMap {
  import opened Wrappers
  import opened Arith

  type Body = string

  /** `outer)inner`: `inner` orbits `outer`. */
  datatype Orbit = Orbit(outer: Body, inner: Body)

  /** The downward map of part A: each body to the bodies orbiting it. The
      source keeps a `HashSet` per body; a sequence without duplicates
      stands for it, the order being immaterial to every sum below. */
  type Down = map<Body, seq<Body>>

  /** `map.entry(outer).or_insert_with(HashSet::new).insert(inner)`. */
  function AddOrbit(m: Down, o: Orbit): (r: Down)
    ensures r.Keys == m.Keys + {o.outer}
    ensures forall k :: k in m && k != o.outer ==> r[k] == m[k]
    ensures forall b :: b in r[o.outer] <==> b == o.inner || (o.outer in m && b in m[o.outer])
  {
    var old_ := if o.outer in m then m[o.outer] else [];
    m[o.outer := if o.inner in old_ then old_ else old_ + [o.inner]]
  }

  /** The loop that fills the downward map, in input order. */
  function BuildDown(orbits: seq<Orbit>): (m: Down)
    ensures forall k, b :: k in m && b in m[k] <==> Orbit(k, b) in orbits
  {
    if orbits == [] then map[] else AddOrbit(BuildDown(orbits[..|orbits| - 1]), orbits[|orbits| - 1])
  }

  /** orbits[i] is the last pair in `orbits` for body b. */
  predicate LastFor(orbits: seq<Orbit>, i: int, b: Body) {
    0 <= i < |orbits| && orbits[i].inner == b && forall j :: i < j < |orbits| ==> orbits[j].inner != b
  }

  /** The upward map of part B, collected from (inner, outer) pairs, a later
      pair replacing an earlier one for the same body. */
  function BuildUp(orbits: seq<Orbit>): (up: map<Body, Body>)
    ensures forall b :: b in up <==> exists i :: 0 <= i < |orbits| && orbits[i].inner == b
    ensures forall b :: b in up ==> Orbit(up[b], b) in orbits
    ensures forall b :: b in up ==> exists i :: LastFor(orbits, i, b) && orbits[i].outer == up[b]
  {
    if orbits == [] then map[]
    else
      var n := |orbits| - 1;
      var o := orbits[n];
      var prefix := orbits[..n];
      var rest := BuildUp(prefix);
      assert forall i :: 0 <= i < n ==> prefix[i] == orbits[i];
      var up := rest[o.inner := o.outer];
      assert forall b :: b in up ==> exists i :: LastFor(orbits, i, b) && orbits[i].outer == up[b] by {
        forall b | b in up ensures exists i :: LastFor(orbits, i, b) && orbits[i].outer == up[b] {
          if b == o.inner {
            assert LastFor(orbits, n, b);
          } else {
            var i :| LastFor(prefix, i, b) && prefix[i].outer == rest[b];
            assert LastFor(orbits, i, b);
          }
        }
      }
      up
  }

  /** `rank` strictly decreases from each body to the bodies orbiting it, so
      the downward map has no cycle; on a cyclic map `count` never returns. */
  ghost predicate DownRanked(m: Down, rank: map<Body, nat>) {
    forall k :: k in m ==> k in rank && forall i :: 0 <= i < |m[k]| ==> m[k][i] in rank && rank[m[k][i]] < rank[k]
  }

  function Children(m: Down, key: Body): seq<Body> {
    if key in m then m[key] else []
  }

  /** `count`: the depth of `key` plus the counts of its children one level
      deeper. */
  function Count(m: Down, ghost rank: map<Body, nat>, key: Body, depth: nat): (r: nat)
    requires DownRanked(m, rank) && key in rank
    decreases rank[key], 1, 0
    ensures r >= depth
    ensures key !in m ==> r == depth
  {
    depth + CountAll(m, rank, Children(m, key), depth, rank[key])
  }

  /** The sum of `count` over `cs`, each at `depth + 1`. */
  function CountAll(m: Down, ghost rank: map<Body, nat>, cs: seq<Body>, depth: nat, ghost bound: nat): nat
    requires DownRanked(m, rank)
    requires forall i :: 0 <= i < |cs| ==> cs[i] in rank && rank[cs[i]] < bound
    decreases bound, 0, |cs|
  {
    if cs == [] then 0 else Count(m, rank, cs[0], depth + 1) + CountAll(m, rank, cs[1..], depth, bound)
  }

  /** The number of bodies in the tree below and including `key`. */
  function Size(m: Down, ghost rank: map<Body, nat>, key: Body): nat
    requires DownRanked(m, rank) && key in rank
    decreases rank[key], 1, 0
  {
    1 + SizeAll(m, rank, Children(m, key), rank[key])
  }

  function SizeAll(m: Down, ghost rank: map<Body, nat>, cs: seq<Body>, ghost bound: nat): nat
    requires DownRanked(m, rank)
    requires forall i :: 0 <= i < |cs| ==> cs[i] in rank && rank[cs[i]] < bound
    decreases bound, 0, |cs|
  {
    if cs == [] then 0 else Size(m, rank, cs[0]) + SizeAll(m, rank, cs[1..], bound)
  }

  /** The direct and indirect orbits in the tree below `key`: every body
      below a child orbits `key` too. */
  function OrbitCount(m: Down, ghost rank: map<Body, nat>, key: Body): nat
    requires DownRanked(m, rank) && key in rank
    decreases rank[key], 1, 0
  {
    OrbitCountAll(m, rank, Children(m, key), rank[key])
  }

  function OrbitCountAll(m: Down, ghost rank: map<Body, nat>, cs: seq<Body>, ghost bound: nat): nat
    requires DownRanked(m, rank)
    requires forall i :: 0 <= i < |cs| ==> cs[i] in rank && rank[cs[i]] < bound
    decreases bound, 0, |cs|
  {
    if cs == [] then 0
    else Size(m, rank, cs[0]) + OrbitCount(m, rank, cs[0]) + OrbitCountAll(m, rank, cs[1..], bound)
  }

  /** Starting deeper adds the extra depth once per body of the tree. */
  lemma {:induction false} CountLinear(m: Down, rank: map<Body, nat>, key: Body, depth: nat)
    requires DownRanked(m, rank) && key in rank
    ensures Count(m, rank, key, depth) == depth * Size(m, rank, key) + Count(m, rank, key, 0)
    decreases rank[key], 1, 0
  {
    var cs := Children(m, key);
    CountAllLinear(m, rank, cs, depth, rank[key]);
    CountAllLinear(m, rank, cs, 0, rank[key]);
    MulDistributes(depth, 1, SizeAll(m, rank, cs, rank[key]));
  }

  lemma {:induction false} CountAllLinear(m: Down, rank: map<Body, nat>, cs: seq<Body>, depth: nat, bound: nat)
    requires DownRanked(m, rank)
    requires forall i :: 0 <= i < |cs| ==> cs[i] in rank && rank[cs[i]] < bound
    ensures CountAll(m, rank, cs, depth, bound) ==
      depth * SizeAll(m, rank, cs, bound) + CountAll(m, rank, cs, 0, bound)
    decreases bound, 0, |cs|
  {
    if cs != [] {
      CountLinear(m, rank, cs[0], depth + 1);
      CountLinear(m, rank, cs[0], 1);
      CountAllLinear(m, rank, cs[1..], depth, bound);
      var a := Size(m, rank, cs[0]);
      var b := SizeAll(m, rank, cs[1..], bound);
      assert SizeAll(m, rank, cs, bound) == a + b;
      MulSucc(depth, a);
      MulDistributes(depth, a, b);
    }
  }

  /** `count(map, "COM", 0)` is the total number of direct and indirect
      orbits below the root. */
  lemma {:induction false} CountIsOrbitCount(m: Down, rank: map<Body, nat>, key: Body)
    requires DownRanked(m, rank) && key in rank
    ensures Count(m, rank, key, 0) == OrbitCount(m, rank, key)
    decreases rank[key], 1, 0
  {
    CountAllIsOrbitCountAll(m, rank, Children(m, key), rank[key]);
  }

  lemma {:induction false} CountAllIsOrbitCountAll(m: Down, rank: map<Body, nat>, cs: seq<Body>, bound: nat)
    requires DownRanked(m, rank)
    requires forall i :: 0 <= i < |cs| ==> cs[i] in rank && rank[cs[i]] < bound
    ensures CountAll(m, rank, cs, 0, bound) == OrbitCountAll(m, rank, cs, bound)
    decreases bound, 0, |cs|
  {
    if cs != [] {
      CountLinear(m, rank, cs[0], 1);
      CountIsOrbitCount(m, rank, cs[0]);
      CountAllIsOrbitCountAll(m, rank, cs[1..], bound);
    }
  }

  /** A small map: COM)B, B)C, B)D. */
  const ExampleDown: Down := map["COM" := ["B"], "B" := ["C", "D"]]
  const ExampleRank: map<Body, nat> := map["COM" := 2, "B" := 1, "C" := 0, "D" := 0]

  lemma ExampleRanked()
    ensures DownRanked(ExampleDown, ExampleRank)
  {
  }

  /** B sits at depth 1 with C and D below it: 1 + 2 + 2. */
  lemma ExampleBelowB()
    ensures DownRanked(ExampleDown, ExampleRank)
    ensures Count(ExampleDown, ExampleRank, "B", 1) == 5
  {
    ExampleRanked();
    var m, rank := ExampleDown, ExampleRank;
    assert "C" !in m && "D" !in m;
    assert Children(m, "B") == ["C", "D"];
    assert CountAll(m, rank, ["C", "D"][1..], 1, 1) == 2;
    assert CountAll(m, rank, ["C", "D"], 1, 1) == 4;
  }

  /** The map has 5 direct and indirect orbits. */
  lemma CountExample()
    ensures DownRanked(ExampleDown, ExampleRank) && Count(ExampleDown, ExampleRank, "COM", 0) == 5
  {
    ExampleBelowB();
    assert Children(ExampleDown, "COM") == ["B"];
  }

  // part 2

  /** `rank` strictly decreases from each body to the body it orbits, so
      the upward map has no cycle; on a cyclic map `parents` never ends. */
  ghost predicate UpRanked(up: map<Body, Body>, rank: map<Body, nat>) {
    forall b :: b in up ==> b in rank && up[b] in rank && rank[up[b]] < rank[b]
  }

  /** `parents`: the body `start` orbits, the body that one orbits, and so
      on, up to the first body that orbits nothing. */
  function Parents(up: map<Body, Body>, ghost rank: map<Body, nat>, start: Body): (ps: seq<Body>)
    requires UpRanked(up, rank)
    decreases if start in rank then rank[start] else 0
    ensures |ps| > 0 <==> start in up
    ensures |ps| > 0 ==> ps[0] == up[start] && ps[|ps| - 1] !in up
    ensures forall i :: 0 <= i < |ps| - 1 ==> ps[i] in up && up[ps[i]] == ps[i + 1]
  {
    if start in up then [up[start]] + Parents(up, rank, up[start]) else []
  }

  /** `some_val`. */
  function SomeVal<T>(o: Option<T>): (r: nat)
    ensures r == 1 <==> o.Some?
    ensures r <= 1
  {
    match o
    case Some(_) => 1
    case None => 0
  }

  /** Item i of `then_none(xs)`: the elements in order, then None forever. */
  function ThenNone<T>(xs: seq<T>, i: nat): (r: Option<T>)
    ensures r.Some? <==> i < |xs|
    ensures i < |xs| ==> r.value == xs[i]
  {
    if i < |xs| then Some(xs[i]) else None
  }

  function Reverse<T>(xs: seq<T>): (r: seq<T>)
    ensures |r| == |xs| && forall i :: 0 <= i < |xs| ==> r[i] == xs[|xs| - 1 - i]
  {
    if xs == [] then [] else Reverse(xs[1..]) + [xs[0]]
  }

  function Max(a: nat, b: nat): nat {
    if a < b then b else a
  }

  /** The `skip_while(|(a, b)| a == b)` over the zipped streams, from item
      i: the first item at or after i where they differ. It exists only when
      the two lists differ; on equal lists the source loops forever. */
  function FirstDifference<T(==)>(a: seq<T>, b: seq<T>, i: nat): (k: nat)
    requires a != b
    requires forall j :: 0 <= j < i ==> ThenNone(a, j) == ThenNone(b, j)
    decreases Max(|a|, |b|) - i
    ensures i <= k && ThenNone(a, k) != ThenNone(b, k)
    ensures forall j :: 0 <= j < k ==> ThenNone(a, j) == ThenNone(b, j)
  {
    if ThenNone(a, i) != ThenNone(b, i) then i
    else
      assert i < Max(|a|, |b|) by {
        if i >= Max(|a|, |b|) {
          AgreeEverywhere(a, b, i);
        }
      }
      FirstDifference(a, b, i + 1)
  }

  /** Streams that agree up to the end of both lists are the same list. */
  lemma AgreeEverywhere<T>(a: seq<T>, b: seq<T>, i: nat)
    requires i >= |a| && i >= |b|
    requires forall j :: 0 <= j < i ==> ThenNone(a, j) == ThenNone(b, j)
    ensures a == b
  {
    var m := if |a| < |b| then |a| else |b|;
    if m < i {
      assert ThenNone(a, m) == ThenNone(b, m);
    }
    forall j | 0 <= j < |a| ensures a[j] == b[j] {
      assert ThenNone(a, j) == ThenNone(b, j);
    }
  }

  /** `.map(some_val + some_val).take_while(> 0).sum()` from item i. */
  function TakeSum<T>(a: seq<T>, b: seq<T>, i: nat): nat
    decreases Max(|a|, |b|) - i
  {
    var v := SomeVal(ThenNone(a, i)) + SomeVal(ThenNone(b, i));
    if v > 0 then v + TakeSum(a, b, i + 1) else 0
  }

  /** `transfer`: both ancestor chains root first, then the items of the
      two after their common prefix. */
  function Transfer(up: map<Body, Body>, ghost rank: map<Body, nat>, start: Body, end: Body): nat
    requires UpRanked(up, rank)
    requires Parents(up, rank, start) != Parents(up, rank, end)
  {
    var down := Reverse(Parents(up, rank, start));
    var upward := Reverse(Parents(up, rank, end));
    assert down != upward by {
      if down == upward {
        ReverseInjective(Parents(up, rank, start), Parents(up, rank, end));
      }
    }
    Steps(down, upward)
  }

  /** The pipeline of `transfer` on the two reversed chains. */
  function Steps<T(==)>(down: seq<T>, upward: seq<T>): nat
    requires down != upward
  {
    TakeSum(down, upward, FirstDifference(down, upward, 0))
  }

  lemma ReverseInjective<T>(a: seq<T>, b: seq<T>)
    requires Reverse(a) == Reverse(b)
    ensures a == b
  {
    assert |a| == |b|;
    forall i | 0 <= i < |a| ensures a[i] == b[i] {
      assert Reverse(a)[|a| - 1 - i] == Reverse(b)[|a| - 1 - i];
    }
  }

  /** The length of the longest common prefix. */
  function CommonPrefix<T(==)>(a: seq<T>, b: seq<T>): (k: nat)
    ensures k <= |a| && k <= |b| && a[..k] == b[..k]
    ensures k < |a| && k < |b| ==> a[k] != b[k]
  {
    if a != [] && b != [] && a[0] == b[0] then
      var k := 1 + CommonPrefix(a[1..], b[1..]);
      assert a[..k] == [a[0]] + a[1..][..k - 1];
      assert b[..k] == [b[0]] + b[1..][..k - 1];
      k
    else 0
  }

  /** Two different lists differ, as streams, right after their common
      prefix. */
  lemma {:induction false} DiffersAfterCommonPrefix<T>(a: seq<T>, b: seq<T>)
    requires a != b
    ensures ThenNone(a, CommonPrefix(a, b)) != ThenNone(b, CommonPrefix(a, b))
  {
    if a != [] && b != [] && a[0] == b[0] {
      assert a == [a[0]] + a[1..] && b == [b[0]] + b[1..];
      DiffersAfterCommonPrefix(a[1..], b[1..]);
    }
  }

  lemma FirstDifferenceIsCommonPrefix<T>(a: seq<T>, b: seq<T>)
    requires a != b
    ensures FirstDifference(a, b, 0) == CommonPrefix(a, b)
  {
    DiffersAfterCommonPrefix(a, b);
    var k := FirstDifference(a, b, 0);
    var c := CommonPrefix(a, b);
    forall j | 0 <= j < c ensures ThenNone(a, j) == ThenNone(b, j) {
      assert a[..c][j] == b[..c][j];
    }

  }

  lemma {:induction false} TakeSumIs<T>(a: seq<T>, b: seq<T>, i: nat)
    ensures TakeSum(a, b, i) == (if i < |a| then |a| - i else 0) + (if i < |b| then |b| - i else 0)
    decreases Max(|a|, |b|) - i
  {
    if i < |a| || i < |b| {
      TakeSumIs(a, b, i + 1);
    }
  }

  /** The items of two lists after their common prefix. */
  lemma StepsIs<T>(a: seq<T>, b: seq<T>)
    requires a != b
    ensures Steps(a, b) == (|a| - CommonPrefix(a, b)) + (|b| - CommonPrefix(a, b))
  {
    FirstDifferenceIsCommonPrefix(a, b);
    TakeSumIs(a, b, CommonPrefix(a, b));
  }

  /** The transfers: from the body `start` orbits down to the last common
      ancestor, then up to the body `end` orbits. */
  lemma TransferIs(up: map<Body, Body>, rank: map<Body, nat>, start: Body, end: Body)
    requires UpRanked(up, rank)
    requires Parents(up, rank, start) != Parents(up, rank, end)
    ensures var down := Reverse(Parents(up, rank, start));
      var upward := Reverse(Parents(up, rank, end));
      var k := CommonPrefix(down, upward);
      Transfer(up, rank, start, end) == (|down| - k) + (|upward| - k)
  {
    var down := Reverse(Parents(up, rank, start));
    var upward := Reverse(Parents(up, rank, end));
    if down == upward {
      ReverseInjective(Parents(up, rank, start), Parents(up, rank, end));
    }
    StepsIs(down, upward);
  }

  lemma CommonPrefixSymmetric<T>(a: seq<T>, b: seq<T>)
    ensures CommonPrefix(a, b) == CommonPrefix(b, a)
  {
  }

  /** The transfer count does not depend on which end it starts from. */
  lemma TransferSymmetric(up: map<Body, Body>, rank: map<Body, nat>, start: Body, end: Body)
    requires UpRanked(up, rank)
    requires Parents(up, rank, start) != Parents(up, rank, end)
    ensures Transfer(up, rank, start, end) == Transfer(up, rank, end, start)
  {
    TransferIs(up, rank, start, end);
    TransferIs(up, rank, end, start);
    CommonPrefixSymmetric(Reverse(Parents(up, rank, start)), Reverse(Parents(up, rank, end)));
  }
}
