/** The GameOfLife engine: the initial state, the simulation loop that fills the history buffer,
    and the text export of that buffer. */
module Engine {
  import opened Grids
  import opened Rules
  import opened History
  import opened Outcomes

  /** get_initial_state: a supplied grid must have shape n x m and is then copied; without one, the
      seeded random 0/1 grid of shape n x m is used (the generator itself is the seeded parameter). */
  function InitialState(n: nat, m: nat, supplied: Option<Grid>, seeded: Grid): (r: Result<Grid>)
    requires HasShape(seeded, n, m) && IsBinary(seeded)
    ensures r.Success? <==> supplied.None? || HasShape(supplied.value, n, m)
    ensures r.Failure? ==> r.error == ShapeMismatch(|supplied.value|, Width(supplied.value))
    ensures r.Success? ==> HasShape(r.value, n, m)
    ensures r.Success? ==> r.value == if supplied.Some? then supplied.value else seeded
    ensures supplied.None? ==> IsBinary(r.value)
  {
    match supplied
    case None => Success(seeded)
    case Some(g) =>
      if !HasShape(g, n, m) then Failure(ShapeMismatch(|g|, Width(g)))
      else Success(g)
  }

  /** Python's s[-k:] for k > 0: the last k characters of s, or all of s when it is shorter. */
  function LastChars(s: string, k: nat): (t: string)
    requires k > 0
    ensures |t| == if |s| < k then |s| else k
    ensures t == s[|s| - |t|..]
  {
    if |s| >= k then s[|s| - k..] else s
  }

  /** save_as_txt's destination check: the last three characters of the path are "txt". */
  predicate HasTxtSuffix(path: string)
    ensures HasTxtSuffix(path) ==> |path| >= 3
  {
    LastChars(path, 3) == "txt"
  }

  /** The check accepts exactly the paths that end in "txt" (a dot is not required). */
  lemma TxtSuffixIsEnding(path: string)
    ensures HasTxtSuffix(path) <==> exists stem :: path == stem + "txt"
  {
    if HasTxtSuffix(path) {
      var stem := path[..|path| - 3];
      assert path == stem + "txt";
    }
    if exists stem :: path == stem + "txt" {
      var stem :| path == stem + "txt";
      assert path[|path| - 3..] == "txt";
    }
  }

  /** A few destinations as the check judges them. */
  lemma TxtSuffixExamples()
    ensures HasTxtSuffix("run.txt") && HasTxtSuffix("runtxt") && HasTxtSuffix("txt")
    ensures !HasTxtSuffix("run.gif") && !HasTxtSuffix("tx") && !HasTxtSuffix("run.txt ")
  {
    assert LastChars("run.txt", 3) == "txt";
    assert LastChars("runtxt", 3) == "txt";
    assert LastChars("run.gif", 3) == "gif";
    assert LastChars("run.txt ", 3) == "xt ";
  }

  /** The engine: the board size, the step count, the initial state, the history buffer of one grid
      per generation, and whether the simulation has run. */
  class GameOfLife {
    const n: nat
    const m: nat
    const nSteps: nat
    const initialState: Grid
    /** states[k] is generation k + 1 once the simulation has run. */
    const states: array<Grid>
    var isFinished: bool

    ghost predicate Valid()
      reads this, states
    {
      states.Length == nSteps && HasShape(initialState, n, m) &&
      forall k :: 0 <= k < states.Length ==> HasShape(states[k], n, m)
    }

    /** __init__ once the initial state is resolved: the history buffer is n_steps zero grids. */
    constructor (n: nat, m: nat, nSteps: nat, initial: Grid)
      requires HasShape(initial, n, m)
      ensures Valid() && fresh(states)
      ensures this.n == n && this.m == m && this.nSteps == nSteps && initialState == initial
      ensures forall k :: 0 <= k < nSteps ==> states[k] == Zeros(n, m)
      ensures !isFinished
    {
      this.n, this.m, this.nSteps := n, m, nSteps;
      initialState := initial;
      states := new Grid[nSteps](_ => Zeros(n, m));
      isFinished := false;
    }

    /** __init__ with get_initial_state: it raises for a supplied grid of the wrong shape. */
    static method Create(n: nat, m: nat, nSteps: nat, supplied: Option<Grid>, seeded: Grid)
      returns (r: Result<GameOfLife>)
      requires HasShape(seeded, n, m) && IsBinary(seeded)
      ensures r.Success? <==> InitialState(n, m, supplied, seeded).Success?
      ensures r.Failure? ==> r.error == InitialState(n, m, supplied, seeded).error
      ensures r.Success? ==> fresh(r.value) && fresh(r.value.states) && r.value.Valid()
      ensures r.Success? ==> r.value.n == n && r.value.m == m && r.value.nSteps == nSteps
      ensures r.Success? ==> r.value.initialState == InitialState(n, m, supplied, seeded).value
      ensures r.Success? ==> forall k :: 0 <= k < nSteps ==> r.value.states[k] == Zeros(n, m)
      ensures r.Success? ==> !r.value.isFinished
    {
      var initial := InitialState(n, m, supplied, seeded);
      if initial.Failure? {
        return Failure(initial.error);
      }
      var engine := new GameOfLife(n, m, nSteps, initial.value);
      return Success(engine);
    }

    /** simulate: starting from the initial state, each pass computes the neighbour counts and the
        next state and stores it as states[step]; afterwards the run is marked finished. The initial
        state is never overwritten, so running again gives the same history. */
    method Simulate()
      requires Valid()
      modifies this`isFinished, states
      ensures Valid() && isFinished
      ensures forall k :: 0 <= k < nSteps ==> states[k] == Iterate(initialState, k + 1)
      ensures IsBinary(initialState) ==> forall k :: 0 <= k < nSteps ==> IsBinary(states[k])
    {
      var state := initialState;
      for step := 0 to nSteps
        invariant state == Iterate(initialState, step)
        invariant forall k :: 0 <= k < nSteps ==> HasShape(states[k], n, m)
        invariant forall k :: 0 <= k < step ==> states[k] == Iterate(initialState, k + 1)
      {
        var neighbours := SumNeighbours(state);
        state := NextState(state, neighbours);
        states[step] := state;
      }
      isFinished := true;
      forall k | 0 <= k < nSteps && IsBinary(initialState) ensures IsBinary(states[k]) {
        IterateIsBinary(initialState, k + 1);
      }
    }

    /** save_as_txt: refuses to export before the run or to a path not ending in "txt"; otherwise the
        file's rows are the history stacked step after step, n_steps * N rows of M values. A loader
        that reads the file as two-dimensional turns them back into the history with the same
        n_steps; load_from_txt as written does so only when n_steps * N > 1 and M != 1. */
    method SaveAsTxt(path: string) returns (r: Result<seq<Row>>)
      requires Valid()
      ensures !isFinished ==> r == Failure(NotFinished)
      ensures isFinished && !HasTxtSuffix(path) ==> r == Failure(InvalidDestination)
      ensures r.Success? <==> isFinished && HasTxtSuffix(path)
      ensures r.Success? ==> |r.value| == nSteps * n
      ensures r.Success? ==> forall i :: 0 <= i < |r.value| ==> |r.value[i]| == m
      ensures r.Success? && nSteps > 0 ==> LoadFromTxt(r.value, nSteps) == Success(states[..])
      ensures r.Success? && nSteps > 0 ==>
        (LoadFromTxtAsWritten(r.value, nSteps) == Success(states[..]) <==> nSteps * n > 1 && m != 1)
    {
      if !isFinished {
        return Failure(NotFinished);
      }
      if !HasTxtSuffix(path) {
        return Failure(InvalidDestination);
      }
      var history := states[..];
      assert Uniform(history, n);
      FlattenLength(history, n);
      FlattenRowsHaveWidth(history, n, m);
      if nSteps > 0 {
        RoundTrip(history, n);
        AsWrittenRoundTrip(history, n, m);
      }
      return Success(Flatten(history));
    }
  }
}
