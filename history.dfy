/** The history buffer's text round trip: save_as_txt flattens the step x row x column history into
    rows of a text file; load_from_txt cuts those rows back into n_steps grids. */
module History {
  import opened Grids
  import opened Outcomes

  // Arithmetic on row indices, kept apart so that the proofs below stay linear.

  lemma MulSucc(k: nat, per: nat)
    ensures (k + 1) * per == k * per + per
  {
  }

  lemma MulMonotone(a: nat, b: nat, per: nat)
    requires a <= b
    ensures a * per <= b * per
  {
  }

  lemma DivExact(k: nat, per: nat)
    requires k > 0
    ensures (k * per) % k == 0 && (k * per) / k == per
  {
    var q, rem := (k * per) / k, (k * per) % k;
    assert k * per == k * q + rem && 0 <= rem < k;
    assert k * (per - q) == rem;
    if per - q >= 1 {
      assert false;
    } else if per - q <= -1 {
      assert false;
    }
  }

  lemma RowIndexBound(s: nat, k: nat, per: nat, r: nat)
    requires s < k && r < per
    ensures s * per + r < k * per
  {
    MulSucc(s, per);
    MulMonotone(s + 1, k, per);
  }

  /** Every grid of h has n rows. */
  predicate Uniform(h: seq<Grid>, n: nat) {
    forall s :: 0 <= s < |h| ==> |h[s]| == n
  }

  /** states.reshape(-1, M): the grids of the history stacked vertically, step after step. */
  function Flatten(h: seq<Grid>): seq<Row> {
    if h == [] then [] else h[0] + Flatten(h[1..])
  }

  /** A history of |h| grids of n rows flattens to |h| * n rows. */
  lemma {:induction false} FlattenLength(h: seq<Grid>, n: nat)
    requires Uniform(h, n)
    ensures |Flatten(h)| == |h| * n
  {
    if h != [] {
      assert Uniform(h[1..], n) by {
        forall s | 0 <= s < |h| - 1 ensures |h[1..][s]| == n { assert h[1..][s] == h[s + 1]; }
      }
      FlattenLength(h[1..], n);
      MulSucc(|h| - 1, n);
    }
  }

  /** Row s * n + r of the flattened history is row r of step s. */
  lemma {:induction false} FlattenAt(h: seq<Grid>, n: nat, s: nat, r: nat)
    requires Uniform(h, n) && s < |h| && r < n
    ensures s * n + r < |Flatten(h)|
    ensures Flatten(h)[s * n + r] == h[s][r]
    decreases s
  {
    FlattenLength(h, n);
    RowIndexBound(s, |h|, n, r);
    if s > 0 {
      assert Uniform(h[1..], n) by {
        forall i | 0 <= i < |h| - 1 ensures |h[1..][i]| == n { assert h[1..][i] == h[i + 1]; }
      }
      FlattenAt(h[1..], n, s - 1, r);
      MulSucc(s - 1, n);
      assert h[1..][s - 1] == h[s];
    }
  }

  /** Flattening keeps the width of every row: a history of n x m grids gives rows of m cells. */
  lemma {:induction false} FlattenRowsHaveWidth(h: seq<Grid>, n: nat, m: nat)
    requires forall s :: 0 <= s < |h| ==> HasShape(h[s], n, m)
    ensures forall i :: 0 <= i < |Flatten(h)| ==> |Flatten(h)[i]| == m
  {
    if h != [] {
      assert forall s :: 0 <= s < |h| - 1 ==> h[1..][s] == h[s + 1];
      FlattenRowsHaveWidth(h[1..], n, m);
    }
  }

  /** The rows cut into k consecutive blocks of per rows each. */
  function Chunks(rows: seq<Row>, k: nat, per: nat): (h: seq<Grid>)
    requires |rows| == k * per
    ensures |h| == k && Uniform(h, per)
  {
    if k == 0 then []
    else
      MulSucc(k - 1, per);
      [rows[..per]] + Chunks(rows[per..], k - 1, per)
  }

  /** load_from_txt reading the file as two-dimensional (loadtxt with ndmin = 2), the corrected
      loader: cut the file's rows into n_steps grids of total_rows // n_steps rows each.
      Python's // by zero raises, and numpy's reshape refuses a row count n_steps does not divide. */
  function LoadFromTxt(rows: seq<Row>, nSteps: nat): (r: Result<seq<Grid>>)
    ensures r.Success? <==> nSteps > 0 && |rows| % nSteps == 0
    ensures nSteps == 0 ==> r == Failure(ZeroSteps)
    ensures nSteps > 0 && |rows| % nSteps != 0 ==> r == Failure(InvalidReshape)
    ensures r.Success? ==> |r.value| == nSteps && Uniform(r.value, |rows| / nSteps)
  {
    if nSteps == 0 then Failure(ZeroSteps)
    else if |rows| % nSteps != 0 then Failure(InvalidReshape)
    else Success(Chunks(rows, nSteps, |rows| / nSteps))
  }

  /** Cutting into blocks and stacking them again gives back the rows. */
  lemma {:induction false} FlattenChunks(rows: seq<Row>, k: nat, per: nat)
    requires |rows| == k * per
    ensures Flatten(Chunks(rows, k, per)) == rows
  {
    if k > 0 {
      MulSucc(k - 1, per);
      FlattenChunks(rows[per..], k - 1, per);
      var h := Chunks(rows, k, per);
      assert h[0] == rows[..per] && h[1..] == Chunks(rows[per..], k - 1, per);
    }
  }

  /** Stacking |h| grids of n rows and cutting into |h| blocks of n rows gives back the history. */
  lemma {:induction false} ChunksFlatten(h: seq<Grid>, n: nat)
    requires Uniform(h, n)
    ensures |Flatten(h)| == |h| * n
    ensures Chunks(Flatten(h), |h|, n) == h
  {
    FlattenLength(h, n);
    if h != [] {
      var rows := Flatten(h);
      assert Uniform(h[1..], n) by {
        forall s | 0 <= s < |h| - 1 ensures |h[1..][s]| == n { assert h[1..][s] == h[s + 1]; }
      }
      ChunksFlatten(h[1..], n);
      assert rows == h[0] + Flatten(h[1..]);
      assert rows[..n] == h[0] && rows[n..] == Flatten(h[1..]);
      assert Chunks(rows, |h|, n) == [h[0]] + h[1..];
    }
  }

  /** The round trip: flattening a history of n_steps > 0 grids of n rows each and restoring it
      with the same n_steps reproduces the history cell for cell. */
  lemma RoundTrip(h: seq<Grid>, n: nat)
    requires |h| > 0 && Uniform(h, n)
    ensures LoadFromTxt(Flatten(h), |h|) == Success(h)
  {
    ChunksFlatten(h, n);
    DivExact(|h|, n);
  }

  /** The other direction: whatever a successful restore returns stacks back to the file's rows. */
  lemma LoadFromTxtInverse(rows: seq<Row>, nSteps: nat)
    requires LoadFromTxt(rows, nSteps).Success?
    ensures Flatten(LoadFromTxt(rows, nSteps).value) == rows
  {
    var per := |rows| / nSteps;
    assert |rows| == nSteps * per;
    FlattenChunks(rows, nSteps, per);
  }

  /** Grid s of a successful restore holds the rows s * per .. (s + 1) * per of the file, where per is
      total_rows // n_steps. */
  lemma LoadFromTxtAt(rows: seq<Row>, nSteps: nat, s: nat, r: nat)
    requires LoadFromTxt(rows, nSteps).Success? && s < nSteps && r < |rows| / nSteps
    ensures s * (|rows| / nSteps) + r < |rows|
    ensures LoadFromTxt(rows, nSteps).value[s][r] == rows[s * (|rows| / nSteps) + r]
  {
    var per := |rows| / nSteps;
    assert |rows| == nSteps * per;
    var h := Chunks(rows, nSteps, per);
    FlattenChunks(rows, nSteps, per);
    FlattenAt(h, per, s, r);
  }

  /** The format carries no shape: two steps of two rows restored with n_steps = 4 come back, without
      any error, as four grids of one row. */
  lemma WrongStepCountIsSilent(a: Row, b: Row, c: Row, d: Row)
    ensures LoadFromTxt(Flatten([[a, b], [c, d]]), 4) == Success([[a], [b], [c], [d]])
  {
    var rows := Flatten([[a, b], [c, d]]);
    assert Flatten([[c, d]]) == [c, d];
    assert rows == [a, b, c, d];
    assert |rows| / 4 == 1;
    assert [d][1..] == [] && [d][..1] == [d];
    assert Chunks([d], 1, 1) == [[d]];
    assert [c, d][1..] == [d] && [c, d][..1] == [c];
    assert Chunks([c, d], 2, 1) == [[c], [d]];
    assert [b, c, d][1..] == [c, d] && [b, c, d][..1] == [b];
    assert Chunks([b, c, d], 3, 1) == [[b], [c], [d]];
    assert rows[1..] == [b, c, d] && rows[..1] == [a];
    assert Chunks(rows, 4, 1) == [[a], [b], [c], [d]];
  }

  // ---------------------------------------------------------------------------------------------
  // load_from_txt as written reads the file with numpy's loadtxt and its default ndmin = 0, which
  // squeezes away every axis of length one. A file of a single value comes back with no axis at all,
  // so shape[0] raises IndexError. A file of a single line or a single column, and an empty file,
  // come back with one axis: reshape's arguments are evaluated left to right, so shape[0] // n_steps
  // raises ZeroDivisionError first when n_steps = 0, and otherwise shape[1] raises IndexError.

  /** load_from_txt as written, with loadtxt's squeezing and Python's order of evaluation. */
  function LoadFromTxtAsWritten(rows: seq<Row>, nSteps: nat): (r: Result<seq<Grid>>)
    ensures |rows| == 1 && |rows[0]| == 1 ==> r == Failure(NotTwoDimensional)
    ensures !(|rows| == 1 && |rows[0]| == 1) && nSteps == 0 ==> r == Failure(ZeroSteps)
    ensures nSteps > 0 && (|rows| <= 1 || |rows[0]| == 1) ==> r == Failure(NotTwoDimensional)
    ensures |rows| > 1 && |rows[0]| != 1 ==> r == LoadFromTxt(rows, nSteps)
  {
    if |rows| == 1 && |rows[0]| == 1 then Failure(NotTwoDimensional)
    else if nSteps == 0 then Failure(ZeroSteps)
    else if |rows| <= 1 || |rows[0]| == 1 then Failure(NotTwoDimensional)
    else LoadFromTxt(rows, nSteps)
  }

  /** With n_steps = 0 the division comes before shape[1]: a one-column, a one-line and an empty file
      raise ZeroDivisionError, and only a single value fails earlier, on shape[0]. */
  lemma AsWrittenZeroStepsOrder()
    ensures LoadFromTxtAsWritten([[0], [1]], 0) == Failure(ZeroSteps)
    ensures LoadFromTxtAsWritten([[0, 1, 0]], 0) == Failure(ZeroSteps)
    ensures LoadFromTxtAsWritten([], 0) == Failure(ZeroSteps)
    ensures LoadFromTxtAsWritten([[0]], 0) == Failure(NotTwoDimensional)
  {
  }

  /** The round trip as written, for every saved history of n_steps > 0 grids of N x M cells: it
      succeeds exactly when the file has more than one line (n_steps * N > 1) and M != 1. */
  lemma AsWrittenRoundTrip(h: seq<Grid>, n: nat, m: nat)
    requires |h| > 0 && forall s :: 0 <= s < |h| ==> HasShape(h[s], n, m)
    ensures LoadFromTxtAsWritten(Flatten(h), |h|) == Success(h) <==> |h| * n > 1 && m != 1
  {
    assert Uniform(h, n);
    FlattenLength(h, n);
    RoundTrip(h, n);
    if |h| * n > 0 {
      FlattenRowsHaveWidth(h, n, m);
    }
    if !(|h| * n > 1 && m != 1) {
      assert LoadFromTxtAsWritten(Flatten(h), |h|) == Failure(NotTwoDimensional);
    }
  }

  /** The round trip as written fails for N = M = 1: five steps of a single cell save as five lines of
      one value each, which load back one-dimensional, whereas the corrected restore gives them back. */
  lemma OneByOneRoundTripFails(cells: seq<int>)
    requires |cells| == 5
    ensures var h := seq(5, s requires 0 <= s < 5 => [[cells[s]]]);
      LoadFromTxtAsWritten(Flatten(h), 5) == Failure(NotTwoDimensional) &&
      LoadFromTxt(Flatten(h), 5) == Success(h)
  {
    var h := seq(5, s requires 0 <= s < 5 => [[cells[s]]]);
    RoundTrip(h, 1);
    FlattenAt(h, 1, 0, 0);
    FlattenLength(h, 1);
  }
}
