/** src/q1.rs: the fuel a module's mass needs, counting the fuel for the
    fuel, summed over the masses of an input listing. */
module RocketEquation {
  import opened Wrappers
  import opened Arith
  import opened Decimal

  /** `fuel`: `weight / 3 - 2` (Rust's truncating division) plus the fuel
      for that, as long as the requirement is positive. The total never
      exceeds half of a positive mass. */
  function Fuel(weight: int): (r: nat)
    ensures 2 * r <= (if weight > 0 then weight else 0)
    decreases if weight > 0 then weight else 0
  {
    var required := TDiv(weight, 3) - 2;
    if required > 0 then required + Fuel(required) else 0
  }

  /** A mass whose requirement is not positive needs nothing; in particular
      every mass up to 8, and every negative mass. */
  lemma FuelOfSmallMass(weight: int)
    requires TDiv(weight, 3) - 2 <= 0 || weight <= 8
    ensures Fuel(weight) == 0
  {
  }

  /** A positive requirement r is smaller than the mass, and the total is r
      plus the fuel for r, so at least r. */
  lemma FuelRecurrence(weight: int)
    requires TDiv(weight, 3) - 2 > 0
    ensures var r := TDiv(weight, 3) - 2;
            r < weight && Fuel(weight) == r + Fuel(r) && Fuel(weight) >= r
  {
  }

  /** More mass never needs less fuel. */
  lemma {:induction false} FuelMonotone(w1: int, w2: int)
    requires w1 <= w2
    ensures Fuel(w1) <= Fuel(w2)
    decreases if w2 > 0 then w2 else 0
  {
    var r1, r2 := TDiv(w1, 3) - 2, TDiv(w2, 3) - 2;
    if r1 > 0 {
      assert w1 >= 0;
      assert r1 <= r2 by {
        assert w1 / 3 <= w2 / 3;
      }
      FuelMonotone(r1, r2);
    }
  }

  /** The worked example of the puzzle: a mass of 1969 needs 966. */
  lemma FuelExample()
    ensures Fuel(1969) == 966
  {
    assert Fuel(5) == 0;
    assert Fuel(21) == 5;
    assert Fuel(70) == 26;
    assert Fuel(216) == 96;
    assert Fuel(654) == 312;
  }

  /** `run`'s fold over the input lines: each line is parsed with
      `i64::from_str` and its fuel added; the first line that does not parse
      is the error, and later lines are still read but not parsed. */
  function Total(lines: seq<string>): Result<int, string>
    decreases |lines|
  {
    if lines == [] then Success(0)
    else
      var before := Total(lines[..|lines| - 1]);
      var last := lines[|lines| - 1];
      if before.Failure? then before
      else match ParseI64(last)
        case None => Failure(last)
        case Some(w) => Success(before.value + Fuel(w))
  }

  /** The fuel of a list of masses, summed from the front. */
  function SumFuel(weights: seq<int>): int {
    if weights == [] then 0 else Fuel(weights[0]) + SumFuel(weights[1..])
  }

  lemma {:induction false} SumFuelAppend(weights: seq<int>, w: int)
    ensures SumFuel(weights + [w]) == SumFuel(weights) + Fuel(w)
  {
    if weights != [] {
      assert (weights + [w])[1..] == weights[1..] + [w];
      SumFuelAppend(weights[1..], w);
    } else {
      assert [] + [w] == [w];
    }
  }

  predicate Parses(line: string) {
    ParseI64(line).Some?
  }

  /** The masses of lines that all parse. */
  function Weights(lines: seq<string>): (ws: seq<int>)
    requires forall i :: 0 <= i < |lines| ==> Parses(lines[i])
    ensures |ws| == |lines|
    decreases |lines|
  {
    if lines == [] then []
    else
      assert Parses(lines[|lines| - 1]);
      Weights(lines[..|lines| - 1]) + [ParseI64(lines[|lines| - 1]).value]
  }

  /** The fold succeeds iff every line parses. */
  lemma {:induction false} TotalSucceeds(lines: seq<string>)
    ensures Total(lines).Success? <==> forall i :: 0 <= i < |lines| ==> Parses(lines[i])
    decreases |lines|
  {
    if lines != [] {
      var init := lines[..|lines| - 1];
      var last := lines[|lines| - 1];
      TotalSucceeds(init);
      if Total(init).Success? && Parses(last) {
        forall i | 0 <= i < |lines| ensures Parses(lines[i]) {
          if i < |init| {
            assert lines[i] == init[i] && Parses(init[i]);
          }
        }
      } else if Total(init).Success? {
        assert !Parses(lines[|lines| - 1]);
      } else {
        var i :| 0 <= i < |init| && !Parses(init[i]);
        assert !Parses(lines[i]);
      }
    }
  }

  /** When the fold succeeds, its value is the sum of the fuel of every mass. */
  lemma {:induction false} TotalIsSum(lines: seq<string>)
    requires Total(lines).Success?
    ensures forall i :: 0 <= i < |lines| ==> Parses(lines[i])
    ensures Total(lines).value == SumFuel(Weights(lines))
    decreases |lines|
  {
    TotalSucceeds(lines);
    if lines != [] {
      var init := lines[..|lines| - 1];
      var last := lines[|lines| - 1];
      assert Total(init).Success?;
      TotalIsSum(init);
      SumFuelAppend(Weights(init), ParseI64(last).value);
    }
  }

  /** When the fold fails, its error is the first line that does not parse. */
  lemma {:induction false} TotalFirstError(lines: seq<string>)
    requires Total(lines).Failure?
    ensures exists k :: 0 <= k < |lines| && Total(lines).error == lines[k] && !Parses(lines[k]) &&
                        forall j :: 0 <= j < k ==> Parses(lines[j])
    decreases |lines|
  {
    var init := lines[..|lines| - 1];
    var last := lines[|lines| - 1];
    assert forall i :: 0 <= i < |init| ==> init[i] == lines[i];
    if Total(init).Failure? {
      TotalFirstError(init);
    } else {
      TotalIsSum(init);
      assert Total(lines).error == lines[|lines| - 1] && !Parses(last);
    }
  }
}
