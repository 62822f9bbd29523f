/** src/q2.rs: run the program with cells 1 and 2 patched to a noun and a
    verb, and search the noun/verb grid for the pair that yields 19690720.
    The machine with overrides used there (`Computer::new_overrides(..).run`)
    is given as an abstract function from the override list to a result. */
module GravityAssist {
  import opened Wrappers

  const Target: int := 19690720
  /** The exclusive bound of both ranges `0..99`: 99 itself is never tried. */
  const Bound: nat := 99

  function Overrides(noun: int, verb: int): seq<(nat, int)> {
    [(1, noun), (2, verb)]
  }

  datatype SearchError<E> = RunError(error: E) | NoMatch

  /** Part A: one run with the given noun and verb and no input. */
  function PartA<E>(run: seq<(nat, int)> -> Result<int, E>, noun: int, verb: int): Result<int, E> {
    run(Overrides(noun, verb))
  }

  /** The k-th pair of `iproduct!(0..99, 0..99)`: nouns outer, verbs inner. */
  function Pair(k: nat): (p: (nat, nat))
    ensures k < Bound * Bound ==> p.0 < Bound && p.1 < Bound
  {
    (k / Bound, k % Bound)
  }

  /** The pair at position k ran and did not produce the target. */
  predicate Miss<E>(run: seq<(nat, int)> -> Result<int, E>, k: nat) {
    var out := run(Overrides(Pair(k).0, Pair(k).1));
    out.Success? && out.value != Target
  }

  /** `filter_map(..).next()` from position k: the first pair whose run
      fails or hits the target decides. */
  function SearchFrom<E>(run: seq<(nat, int)> -> Result<int, E>, k: nat): Result<int, SearchError<E>>
    decreases Bound * Bound - k
  {
    if k >= Bound * Bound then Failure(NoMatch)
    else
      var (a, b) := Pair(k);
      match run(Overrides(a, b))
      case Failure(e) => Failure(RunError(e))
      case Success(out) => if out == Target then Success(a * 100 + b) else SearchFrom(run, k + 1)
  }

  function PartB<E>(run: seq<(nat, int)> -> Result<int, E>): Result<int, SearchError<E>> {
    SearchFrom(run, 0)
  }

  /** Every grid pair has its place in the enumeration, nouns outer. */
  lemma PairEnumeratesGrid(a: nat, b: nat)
    requires a < Bound && b < Bound
    ensures a * Bound + b < Bound * Bound && Pair(a * Bound + b) == (a, b)
  {
  }

  lemma SearchFromCorrect<E>(run: seq<(nat, int)> -> Result<int, E>, k: nat)
    ensures var r := SearchFrom(run, k);
            && (r.Success? ==>
                  exists h :: k <= h < Bound * Bound && r.value == Pair(h).0 * 100 + Pair(h).1 &&
                              run(Overrides(Pair(h).0, Pair(h).1)) == Success(Target) &&
                              forall j :: k <= j < h ==> Miss(run, j))
            && (r == Failure(NoMatch) <==> forall j :: k <= j < Bound * Bound ==> Miss(run, j))
            && (r.Failure? && r.error.RunError? ==>
                  exists h :: k <= h < Bound * Bound &&
                              run(Overrides(Pair(h).0, Pair(h).1)) == Failure(r.error.error) &&
                              forall j :: k <= j < h ==> Miss(run, j))
  {
    SearchFromFound(run, k);
    SearchFromNoMatch(run, k);
    SearchFromRunError(run, k);
  }

  /** A success is the first hit, after misses only. */
  lemma {:induction false} SearchFromFound<E>(run: seq<(nat, int)> -> Result<int, E>, k: nat)
    ensures var r := SearchFrom(run, k);
            r.Success? ==>
              exists h :: k <= h < Bound * Bound && r.value == Pair(h).0 * 100 + Pair(h).1 &&
                          run(Overrides(Pair(h).0, Pair(h).1)) == Success(Target) &&
                          forall j :: k <= j < h ==> Miss(run, j)
    decreases Bound * Bound - k
  {
    if k < Bound * Bound {
      if Miss(run, k) {
        SearchFromFound(run, k + 1);
        assert SearchFrom(run, k) == SearchFrom(run, k + 1);
      }
    }
  }

  /** "No match" exactly when every pair from k on misses. */
  lemma {:induction false} SearchFromNoMatch<E>(run: seq<(nat, int)> -> Result<int, E>, k: nat)
    ensures SearchFrom(run, k) == Failure(NoMatch) <==> forall j :: k <= j < Bound * Bound ==> Miss(run, j)
    decreases Bound * Bound - k
  {
    if k < Bound * Bound {
      if Miss(run, k) {
        SearchFromNoMatch(run, k + 1);
        assert SearchFrom(run, k) == SearchFrom(run, k + 1);
      } else {
        assert SearchFrom(run, k) != Failure(NoMatch);
      }
    }
  }

  /** A run error is that of the first run that failed, after misses only. */
  lemma {:induction false} SearchFromRunError<E>(run: seq<(nat, int)> -> Result<int, E>, k: nat)
    ensures var r := SearchFrom(run, k);
            r.Failure? && r.error.RunError? ==>
              exists h :: k <= h < Bound * Bound &&
                          run(Overrides(Pair(h).0, Pair(h).1)) == Failure(r.error.error) &&
                          forall j :: k <= j < h ==> Miss(run, j)
    decreases Bound * Bound - k
  {
    if k < Bound * Bound {
      if Miss(run, k) {
        SearchFromRunError(run, k + 1);
        assert SearchFrom(run, k) == SearchFrom(run, k + 1);
      }
    }
  }

  /** Part B returns a*100+b for the first pair (in noun-major order) whose
      run gives the target, provided every earlier run succeeded; the first
      earlier failure is returned instead; "no match" iff every run
      succeeded with another value. */
  lemma PartBCorrect<E>(run: seq<(nat, int)> -> Result<int, E>)
    ensures var r := PartB(run);
            && (r.Success? ==>
                  exists h :: 0 <= h < Bound * Bound && r.value == Pair(h).0 * 100 + Pair(h).1 &&
                              run(Overrides(Pair(h).0, Pair(h).1)) == Success(Target) &&
                              forall j :: 0 <= j < h ==> Miss(run, j))
            && (r == Failure(NoMatch) <==> forall j :: 0 <= j < Bound * Bound ==> Miss(run, j))
            && (r.Failure? && r.error.RunError? ==>
                  exists h :: 0 <= h < Bound * Bound &&
                              run(Overrides(Pair(h).0, Pair(h).1)) == Failure(r.error.error) &&
                              forall j :: 0 <= j < h ==> Miss(run, j))
  {
    SearchFromCorrect(run, 0);
  }

  /** The answer a*100+b names its pair: b is below 100. */
  lemma AnswerDecodes(a: nat, b: nat)
    requires b < Bound
    ensures (a * 100 + b) / 100 == a && (a * 100 + b) % 100 == b
  {
  }
}
