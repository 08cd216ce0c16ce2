/**
  Post-processing of the weighted adjacency matrix that a structure-learning
  run produces: thresholding small weights, then greedy removal of the
  weakest edges until the graph is a DAG.

  The two public operations, `ThresholdTillDag` and `Postprocess`, work as
  the original does: on a private copy of the caller's buffer, updated in
  place. Each is proved equal to a specification function on matrix values
  (`Prune`, `PostprocessResult`), and the lemmas below that state what those
  functions promise: acyclicity, subgraph-only edits, removal of a sorted
  prefix of the candidates, the meaning of the returned threshold and
  minimality of the removed prefix.
*/
module Train {
  import opened Matrices
  import opened Acyclicity

  function Abs(x: real): (r: real)
    ensures r >= 0.0 && (r == x || r == -x)
  {
    if x < 0.0 then -x else x
  }

  // ---------------------------------------------------------------------------
  // Edge candidates and the row-major scan that collects them

  /** The tuple `(weight, j, i)` for a nonzero entry `B[j, i]`. */
  datatype Candidate = Candidate(weight: real, row: nat, col: nat)

  /** `a`'s position comes strictly before `b`'s in a row-major scan. */
  predicate RowMajorBefore(a: Candidate, b: Candidate) {
    a.row < b.row || (a.row == b.row && a.col < b.col)
  }

  /** `c` is a nonzero entry of `m`, recorded with its own weight. */
  predicate FoundIn(m: Matrix, c: Candidate) {
    c.row < |m| && c.col < |m[c.row]| && m[c.row][c.col] != 0.0 && c.weight == m[c.row][c.col]
  }

  /** Some candidate of `cs` sits at row `r`, column `c`. */
  predicate Hits(cs: seq<Candidate>, r: nat, c: nat) {
    exists x :: x in cs && x.row == r && x.col == c
  }

  /** The nonzero entries of row `r` from column `c` on, left to right. */
  function RowScan(m: Matrix, r: nat, c: nat): seq<Candidate>
    requires r < |m|
    decreases |m[r]| - c
  {
    if c >= |m[r]| then []
    else if m[r][c] != 0.0 then [Candidate(m[r][c], r, c)] + RowScan(m, r, c + 1)
    else RowScan(m, r, c + 1)
  }

  /** A row scan records nonzero entries of its row, left to right, at most one per column. */
  lemma {:induction false} RowScanSound(m: Matrix, r: nat, c: nat)
    requires r < |m|
    ensures forall x :: x in RowScan(m, r, c) ==> FoundIn(m, x) && x.row == r && c <= x.col
    ensures forall k, l :: 0 <= k < l < |RowScan(m, r, c)| ==> RowScan(m, r, c)[k].col < RowScan(m, r, c)[l].col
    ensures c <= |m[r]| ==> |RowScan(m, r, c)| <= |m[r]| - c
    decreases |m[r]| - c
  {
    if c < |m[r]| {
      RowScanSound(m, r, c + 1);
      var rest := RowScan(m, r, c + 1);
      if m[r][c] != 0.0 {
        var s := [Candidate(m[r][c], r, c)] + rest;
        assert forall l :: 0 < l < |s| ==> s[l] == rest[l - 1] && s[l] in rest;
      }
    }
  }

  /** A row scan misses no nonzero entry of its row. */
  lemma {:induction false} RowScanComplete(m: Matrix, r: nat, c: nat)
    requires r < |m|
    ensures forall j :: c <= j < |m[r]| && m[r][j] != 0.0 ==> Hits(RowScan(m, r, c), r, j)
    decreases |m[r]| - c
  {
    if c < |m[r]| {
      RowScanComplete(m, r, c + 1);
      if m[r][c] != 0.0 {
        assert Candidate(m[r][c], r, c) in RowScan(m, r, c);
      }
    }
  }

  /** The nonzero entries of rows `r ..`, in row-major order. */
  function Scan(m: Matrix, r: nat): seq<Candidate>
    decreases |m| - r
  {
    if r >= |m| then [] else RowScan(m, r, 0) + Scan(m, r + 1)
  }

  /** The scan records nonzero entries of rows `r ..`, strictly in row-major order. */
  lemma {:induction false} ScanSound(m: Matrix, r: nat)
    ensures forall x :: x in Scan(m, r) ==> FoundIn(m, x) && r <= x.row
    ensures forall k, l :: 0 <= k < l < |Scan(m, r)| ==> RowMajorBefore(Scan(m, r)[k], Scan(m, r)[l])
    decreases |m| - r
  {
    if r < |m| {
      RowScanSound(m, r, 0);
      ScanSound(m, r + 1);
      var row, rest := RowScan(m, r, 0), Scan(m, r + 1);
      var s := row + rest;
      assert forall k :: 0 <= k < |row| ==> s[k] == row[k] && s[k] in row;
      assert forall k :: |row| <= k < |s| ==> s[k] == rest[k - |row|] && s[k] in rest;
    }
  }

  /** The scan of a `d x d` matrix from row `r` on holds at most `(d - r) * d` candidates. */
  lemma {:induction false} ScanSize(m: Matrix, r: nat)
    requires IsSquare(m) && r <= |m|
    ensures |Scan(m, r)| <= (|m| - r) * |m|
    decreases |m| - r
  {
    if r < |m| {
      RowScanSound(m, r, 0);
      ScanSize(m, r + 1);
      assert (|m| - r) * |m| == (|m| - (r + 1)) * |m| + |m|;
    }
  }

  /** The scan misses no nonzero entry of rows `r ..`. */
  lemma {:induction false} ScanComplete(m: Matrix, r: nat)
    ensures forall i, j :: r <= i < |m| && 0 <= j < |m[i]| && m[i][j] != 0.0 ==> Hits(Scan(m, r), i, j)
    decreases |m| - r
  {
    if r < |m| {
      RowScanComplete(m, r, 0);
      ScanComplete(m, r + 1);
    }
  }

  /**
    `np.where(B != 0)`: every nonzero entry of `m`, each with its weight,
    in row-major order, and nothing else.
  */
  function Candidates(m: Matrix): (s: seq<Candidate>)
    ensures forall x :: x in s ==> FoundIn(m, x)
    ensures forall k, l :: 0 <= k < l < |s| ==> RowMajorBefore(s[k], s[l])
    ensures forall r, c :: 0 <= r < |m| && 0 <= c < |m[r]| && m[r][c] != 0.0 ==> Hits(s, r, c)
    ensures IsSquare(m) ==> |s| <= |m| * |m|
  {
    ScanSound(m, 0);
    ScanComplete(m, 0);
    assert IsSquare(m) ==> |Scan(m, 0)| <= |m| * |m| by {
      if IsSquare(m) {
        ScanSize(m, 0);
      }
    }
    Scan(m, 0)
  }

  // ---------------------------------------------------------------------------
  // The stable sort by absolute weight

  /** Ascending by absolute weight. */
  predicate SortedByAbs(s: seq<Candidate>) {
    forall i, j :: 0 <= i < j < |s| ==> Abs(s[i].weight) <= Abs(s[j].weight)
  }

  /** Candidates of equal absolute weight appear in row-major order. */
  predicate TiesInRowMajorOrder(s: seq<Candidate>) {
    forall i, j :: 0 <= i < j < |s| && Abs(s[i].weight) == Abs(s[j].weight) ==> RowMajorBefore(s[i], s[j])
  }

  /** Inserts `x` before the first element of `s` whose magnitude is at least `x`'s. */
  function InsertByAbs(x: Candidate, s: seq<Candidate>): (t: seq<Candidate>)
    ensures multiset(t) == multiset(s) + multiset{x}
  {
    if s == [] || Abs(x.weight) <= Abs(s[0].weight) then [x] + s
    else
      assert s == [s[0]] + s[1..];
      [s[0]] + InsertByAbs(x, s[1..])
  }

  /** Every magnitude in `s` is at least `a`. */
  predicate AllAtLeast(s: seq<Candidate>, a: real) {
    forall k :: 0 <= k < |s| ==> a <= Abs(s[k].weight)
  }

  /** Every element of `s` of the same magnitude as `y` comes after `y` in row-major order. */
  predicate TiesAfter(y: Candidate, s: seq<Candidate>) {
    forall k :: 0 <= k < |s| && Abs(s[k].weight) == Abs(y.weight) ==> RowMajorBefore(y, s[k])
  }

  /** Inserting an element of magnitude at least `a` keeps every magnitude at least `a`. */
  lemma {:induction false} InsertAllAtLeast(x: Candidate, s: seq<Candidate>, a: real)
    requires AllAtLeast(s, a) && a <= Abs(x.weight)
    ensures AllAtLeast(InsertByAbs(x, s), a)
  {
    if s != [] && Abs(x.weight) > Abs(s[0].weight) {
      InsertAllAtLeast(x, s[1..], a);
    }
  }

  /** Inserting an element that is no tie of `y`, or comes after it, keeps `y`'s ties after it. */
  lemma {:induction false} InsertTiesAfter(y: Candidate, x: Candidate, s: seq<Candidate>)
    requires TiesAfter(y, s)
    requires Abs(x.weight) == Abs(y.weight) ==> RowMajorBefore(y, x)
    ensures TiesAfter(y, InsertByAbs(x, s))
  {
    if s != [] && Abs(x.weight) > Abs(s[0].weight) {
      InsertTiesAfter(y, x, s[1..]);
    }
  }

  /** Prepending an element no heavier than the rest keeps a sequence sorted. */
  lemma ConsSorted(y: Candidate, s: seq<Candidate>)
    requires SortedByAbs(s) && AllAtLeast(s, Abs(y.weight))
    ensures SortedByAbs([y] + s)
  {
    var t := [y] + s;
    assert forall k :: 0 < k < |t| ==> t[k] == s[k - 1];
  }

  /** Prepending an element whose ties in `s` come after it keeps ties in row-major order. */
  lemma ConsTies(y: Candidate, s: seq<Candidate>)
    requires TiesInRowMajorOrder(s) && TiesAfter(y, s)
    ensures TiesInRowMajorOrder([y] + s)
  {
    var t := [y] + s;
    assert forall k :: 0 < k < |t| ==> t[k] == s[k - 1];
  }

  /** The first element of a sequence sorted with ties in row-major order precedes its ties in the tail. */
  lemma TailTies(s: seq<Candidate>)
    requires s != [] && SortedByAbs(s) && TiesInRowMajorOrder(s)
    ensures SortedByAbs(s[1..]) && TiesInRowMajorOrder(s[1..])
    ensures AllAtLeast(s[1..], Abs(s[0].weight)) && TiesAfter(s[0], s[1..])
  {
    assert forall k :: 0 <= k < |s[1..]| ==> s[1..][k] == s[k + 1];
  }

  /** Inserting into a sequence sorted by magnitude keeps it sorted. */
  lemma {:induction false} InsertSorted(x: Candidate, s: seq<Candidate>)
    requires SortedByAbs(s)
    ensures SortedByAbs(InsertByAbs(x, s))
  {
    if s == [] || Abs(x.weight) <= Abs(s[0].weight) {
      ConsSorted(x, s);
    } else {
      assert SortedByAbs(s[1..]) && AllAtLeast(s[1..], Abs(s[0].weight)) by {
        assert forall k :: 0 <= k < |s[1..]| ==> s[1..][k] == s[k + 1];
      }
      InsertSorted(x, s[1..]);
      InsertAllAtLeast(x, s[1..], Abs(s[0].weight));
      ConsSorted(s[0], InsertByAbs(x, s[1..]));
    }
  }

  /**
    Inserting `x`, which precedes every element of `s` in row-major order,
    into a sorted `s` whose ties are in row-major order keeps those ties in
    row-major order.
  */
  lemma {:induction false} InsertKeepsTiesOrdered(x: Candidate, s: seq<Candidate>)
    requires SortedByAbs(s) && TiesInRowMajorOrder(s)
    requires forall k :: 0 <= k < |s| ==> RowMajorBefore(x, s[k])
    ensures TiesInRowMajorOrder(InsertByAbs(x, s))
  {
    if s == [] || Abs(x.weight) <= Abs(s[0].weight) {
      ConsTies(x, s);
    } else {
      TailTies(s);
      assert forall k :: 0 <= k < |s[1..]| ==> s[1..][k] == s[k + 1];
      InsertKeepsTiesOrdered(x, s[1..]);
      InsertTiesAfter(s[0], x, s[1..]);
      ConsTies(s[0], InsertByAbs(x, s[1..]));
    }
  }

  /**
    Python's `sorted(..., key=lambda tup: abs(tup[0]))`: an insertion sort
    that keeps elements of equal key in their input order.
  */
  function SortByAbs(s: seq<Candidate>): (t: seq<Candidate>)
    ensures multiset(t) == multiset(s)
  {
    if s == [] then []
    else
      assert s == [s[0]] + s[1..];
      InsertByAbs(s[0], SortByAbs(s[1..]))
  }

  /** The sort's output is ascending by magnitude. */
  lemma {:induction false} SortByAbsSorted(s: seq<Candidate>)
    ensures SortedByAbs(SortByAbs(s))
  {
    if s != [] {
      SortByAbsSorted(s[1..]);
      InsertSorted(s[0], SortByAbs(s[1..]));
    }
  }

  /**
    Stability: when the input is in row-major order (as the scan delivers
    it), candidates of equal magnitude leave the sort in row-major order.
  */
  lemma {:induction false} SortByAbsStable(s: seq<Candidate>)
    requires forall k, l :: 0 <= k < l < |s| ==> RowMajorBefore(s[k], s[l])
    ensures TiesInRowMajorOrder(SortByAbs(s))
  {
    if s != [] {
      var rest := SortByAbs(s[1..]);
      SortByAbsSorted(s[1..]);
      SortByAbsStable(s[1..]);
      forall k | 0 <= k < |rest| ensures RowMajorBefore(s[0], rest[k]) {
        assert rest[k] in multiset(s[1..]) by { assert rest[k] in multiset(rest); }
        var l :| 0 <= l < |s[1..]| && s[1..][l] == rest[k];
        assert s[l + 1] == rest[k];
      }
      InsertKeepsTiesOrdered(s[0], rest);
    }
  }

  // ---------------------------------------------------------------------------
  // Greedy removal of the weakest edges (`threshold_till_dag`)

  /** `B[j, i] = 0` for the candidate's position. */
  function ZeroAt(m: Matrix, c: Candidate): (m': Matrix)
    ensures |m'| == |m| && forall r :: 0 <= r < |m| ==> |m'[r]| == |m[r]|
  {
    if c.row < |m| && c.col < |m[c.row]| then m[c.row := m[c.row][c.col := 0.0]] else m
  }

  /** `m` after zeroing the candidates of `cs` one after another. */
  function ZeroAll(m: Matrix, cs: seq<Candidate>): (m': Matrix)
    ensures |m'| == |m| && forall r :: 0 <= r < |m| ==> |m'[r]| == |m[r]|
  {
    if cs == [] then m else ZeroAt(ZeroAll(m, cs[..|cs| - 1]), cs[|cs| - 1])
  }

  /** An entry is zero after `ZeroAll` exactly when a candidate hit it or it was zero already. */
  lemma {:induction false} ZeroAllAt(m: Matrix, cs: seq<Candidate>, r: nat, c: nat)
    requires r < |m| && c < |m[r]|
    ensures ZeroAll(m, cs)[r][c] == if Hits(cs, r, c) then 0.0 else m[r][c]
    decreases |cs|
  {
    if cs != [] {
      var init := cs[..|cs| - 1];
      ZeroAllAt(m, init, r, c);
      assert forall k :: 0 <= k < |init| ==> init[k] == cs[k];
    }
  }

  /**
    The number of candidates of `cs` the loop removes when it reaches
    candidate `k`: it stops at the first prefix whose removal leaves a DAG
    (the check comes before each removal) or when the candidates run out.
  */
  function StopIndex(m: Matrix, cs: seq<Candidate>, k: nat): (n: nat)
    requires k <= |cs|
    ensures k <= n <= |cs|
    ensures n == |cs| || IsDag(ZeroAll(m, cs[..n]))
    ensures forall i :: k <= i < n ==> !IsDag(ZeroAll(m, cs[..i]))
    decreases |cs| - k
  {
    if k == |cs| || IsDag(ZeroAll(m, cs[..k])) then k else StopIndex(m, cs, k + 1)
  }

  /** The candidate list in the order the loop visits it. */
  function SortedCandidates(m: Matrix): (cs: seq<Candidate>)
    ensures multiset(cs) == multiset(Candidates(m))
    ensures SortedByAbs(cs) && TiesInRowMajorOrder(cs)
  {
    SortByAbsSorted(Candidates(m));
    SortByAbsStable(Candidates(m));
    SortByAbs(Candidates(m))
  }

  /** How many candidates the loop removes. */
  function RemovedCount(m: Matrix): nat {
    StopIndex(m, SortedCandidates(m), 0)
  }

  /** What `threshold_till_dag` returns: the pruned matrix and `dag_thres`. */
  datatype Pruned = Pruned(dag: Matrix, thres: real)

  /** The sorted candidates are exactly the nonzero entries of `m`, with their weights. */
  lemma SortedCandidatesExact(m: Matrix)
    ensures forall k :: 0 <= k < |SortedCandidates(m)| ==> FoundIn(m, SortedCandidates(m)[k])
    ensures forall r, c :: 0 <= r < |m| && 0 <= c < |m[r]| && m[r][c] != 0.0 ==> Hits(SortedCandidates(m), r, c)
    ensures |SortedCandidates(m)| == |Candidates(m)|
  {
    var cs, all := SortedCandidates(m), Candidates(m);
    assert |cs| == |multiset(cs)| == |multiset(all)| == |all|;
    forall k | 0 <= k < |cs| ensures FoundIn(m, cs[k]) {
      assert cs[k] in multiset(all) by { assert cs[k] in multiset(cs); }
    }
    forall r, c | 0 <= r < |m| && 0 <= c < |m[r]| && m[r][c] != 0.0
      ensures Hits(cs, r, c)
    {
      var k :| 0 <= k < |all| && all[k].row == r && all[k].col == c;
      assert all[k] in multiset(cs) by { assert all[k] in multiset(all); }
      var l :| 0 <= l < |cs| && cs[l] == all[k];
    }
  }

  /** A matrix that fails the `is_dag` check has a candidate, so the loop removes at least one. */
  lemma NotDagRemovesSome(m: Matrix)
    requires !IsDag(m)
    ensures RemovedCount(m) >= 1
  {
    var cs := SortedCandidates(m);
    SortedCandidatesExact(m);
    if cs == [] {
      assert Edgeless(m);
      EdgelessIsDag(m);
    }
    assert cs[..0] == [];
  }

  /**
    `threshold_till_dag` on matrix values: unchanged with threshold 0 when
    already a DAG; otherwise the sorted prefix the loop removes, with the
    magnitude of the last removed candidate.
  */
  function Prune(m: Matrix): (p: Pruned)
  {
    if IsDag(m) then Pruned(m, 0.0)
    else
      var cs := SortedCandidates(m);
      var n := RemovedCount(m);
      NotDagRemovesSome(m);
      Pruned(ZeroAll(m, cs[..n]), Abs(cs[n - 1].weight))
  }

  /** `Prune` on a matrix that fails the `is_dag` check: at least one removal, and its magnitude. */
  lemma PruneNotDag(m: Matrix)
    requires !IsDag(m)
    ensures RemovedCount(m) >= 1
    ensures Prune(m) == Pruned(ZeroAll(m, SortedCandidates(m)[..RemovedCount(m)]),
                               Abs(SortedCandidates(m)[RemovedCount(m) - 1].weight))
  {
    NotDagRemovesSome(m);
  }

  /**
    The output differs from the input exactly in the positions of the first
    `RemovedCount(m)` sorted candidates, which are zeroed; no candidate is
    removed from a matrix that is already a DAG, and at least one from one
    that is not.
  */
  lemma PruneRemovesSortedPrefix(m: Matrix)
    ensures RemovedCount(m) <= |SortedCandidates(m)|
    ensures IsDag(m) <==> RemovedCount(m) == 0
    ensures |Prune(m).dag| == |m| && forall r :: 0 <= r < |m| ==> |Prune(m).dag[r]| == |m[r]|
    ensures forall r, c :: 0 <= r < |m| && 0 <= c < |m[r]| ==>
              Prune(m).dag[r][c] == if Hits(SortedCandidates(m)[..RemovedCount(m)], r, c) then 0.0 else m[r][c]
  {
    var cs, n := SortedCandidates(m), RemovedCount(m);
    assert cs[..0] == [];
    if !IsDag(m) {
      NotDagRemovesSome(m);
    }
    forall r, c | 0 <= r < |m| && 0 <= c < |m[r]|
      ensures Prune(m).dag[r][c] == if Hits(cs[..n], r, c) then 0.0 else m[r][c]
    {
      ZeroAllAt(m, cs[..n], r, c);
    }
  }

  /** Only writes of zero: zero entries stay zero, nonzero output entries keep the input's weight. */
  lemma PruneSubgraph(m: Matrix)
    ensures |Prune(m).dag| == |m| && forall r :: 0 <= r < |m| ==> |Prune(m).dag[r]| == |m[r]|
    ensures forall r, c :: 0 <= r < |m| && 0 <= c < |m[r]| && m[r][c] == 0.0 ==> Prune(m).dag[r][c] == 0.0
    ensures forall r, c :: 0 <= r < |m| && 0 <= c < |m[r]| && Prune(m).dag[r][c] != 0.0 ==> Prune(m).dag[r][c] == m[r][c]
  {
    PruneRemovesSortedPrefix(m);
  }

  /** The output has no directed cycle, and passes the `is_dag` check. */
  lemma PruneAcyclic(m: Matrix)
    ensures IsDag(Prune(m).dag) && Acyclic(Prune(m).dag)
  {
    var cs, n := SortedCandidates(m), RemovedCount(m);
    var out := Prune(m).dag;
    if !IsDag(m) && n == |cs| {
      // every candidate was removed: nothing nonzero is left
      PruneRemovesSortedPrefix(m);
      SortedCandidatesExact(m);
      assert cs[..n] == cs;
      assert forall r, c :: 0 <= r < |out| && 0 <= c < |out[r]| ==> out[r][c] == 0.0;
      EdgelessIsDag(out);
    }
    IsDagCorrect(out);
  }

  /**
    `dag_thres` is the magnitude of the last removed candidate (0 when none
    is removed); no removed candidate is heavier and no surviving edge is
    lighter.
  */
  lemma PruneThreshold(m: Matrix)
    ensures IsDag(m) ==> Prune(m).thres == 0.0
    ensures !IsDag(m) ==> 1 <= RemovedCount(m) && Prune(m).thres == Abs(SortedCandidates(m)[RemovedCount(m) - 1].weight)
    ensures forall k :: 0 <= k < RemovedCount(m) ==> Abs(SortedCandidates(m)[k].weight) <= Prune(m).thres
    ensures forall r, c :: 0 <= r < |m| && 0 <= c < |m[r]| && Prune(m).dag[r][c] != 0.0 ==>
              Abs(Prune(m).dag[r][c]) >= Prune(m).thres
  {
    var cs, n := SortedCandidates(m), RemovedCount(m);
    PruneRemovesSortedPrefix(m);
    SortedCandidatesExact(m);
    if !IsDag(m) {
      var out, thres := Prune(m).dag, Prune(m).thres;
      forall r, c | 0 <= r < |m| && 0 <= c < |m[r]| && out[r][c] != 0.0
        ensures Abs(out[r][c]) >= thres
      {
        // a surviving edge is a candidate outside the removed prefix
        var x :| x in cs && x.row == r && x.col == c;
        SurvivorNoLighter(cs, n, x);
      }
    }
  }

  /** In a sorted sequence, an element outside the first `n` is no lighter than the `n`-th. */
  lemma SurvivorNoLighter(cs: seq<Candidate>, n: nat, x: Candidate)
    requires SortedByAbs(cs) && 1 <= n <= |cs|
    requires x in cs && x !in cs[..n]
    ensures Abs(x.weight) >= Abs(cs[n - 1].weight)
  {
    var k :| 0 <= k < |cs| && cs[k] == x;
    assert forall i :: 0 <= i < n ==> cs[i] == cs[..n][i];
    assert n <= k;
  }

  /** In a sorted sequence, an element outside the first `i` is no lighter than the `i`-th. */
  lemma OutsidePrefixNoLighter(cs: seq<Candidate>, i: nat, x: Candidate)
    requires SortedByAbs(cs) && i < |cs|
    requires x in cs && x !in cs[..i]
    ensures Abs(x.weight) >= Abs(cs[i].weight)
  {
    var k :| 0 <= k < |cs| && cs[k] == x;
    assert forall l :: 0 <= l < i ==> cs[l] == cs[..i][l];
    assert i <= k;
  }

  /** Every removed candidate sits at an entry of magnitude at most `dag_thres`. */
  lemma RemovedNoHeavier(m: Matrix)
    ensures forall x :: x in SortedCandidates(m)[..RemovedCount(m)] ==> FoundIn(m, x) && Abs(m[x.row][x.col]) <= Prune(m).thres
  {
    var cs, n := SortedCandidates(m), RemovedCount(m);
    PruneThreshold(m);
    SortedCandidatesExact(m);
    forall x | x in cs[..n] ensures FoundIn(m, x) && Abs(m[x.row][x.col]) <= Prune(m).thres {
      var k :| 0 <= k < n && cs[..n][k] == x;
      assert cs[k] == x;
    }
  }

  /**
    `dag_thres` suffices: zeroing every entry of magnitude at most
    `dag_thres` leaves a graph with no directed cycle.
  */
  lemma PruneThresholdSuffices(m: Matrix)
    ensures Acyclic(ZeroSmall(m, Prune(m).thres))
  {
    var cs, n := SortedCandidates(m), RemovedCount(m);
    var out, thres := Prune(m).dag, Prune(m).thres;
    var low := ZeroSmall(m, thres);
    // every removed candidate sits at an entry of magnitude at most `thres`
    RemovedNoHeavier(m);
    assert |out| == |m| && forall r :: 0 <= r < |m| ==> |out[r]| == |m[r]| by {
      PruneSubgraph(m);
    }
    assert forall r, c :: 0 <= r < |m| && 0 <= c < |m[r]| ==>
             out[r][c] == if Hits(cs[..n], r, c) then 0.0 else m[r][c] by {
      PruneRemovesSortedPrefix(m);
    }
    // so every edge that survives thresholding at `thres` survives pruning too
    forall i: nat, j: nat | Edge(low, i, j)
      ensures Edge(out, i, j)
    {
      assert Abs(m[j][i]) > thres;
      assert !Hits(cs[..n], j, i);
    }
    PruneAcyclic(m);
    SubgraphAcyclic(low, out);
  }

  /**
    Zeroing a prefix of sorted candidates that stops before a candidate
    heavier than `t` leaves only edges that thresholding at `t` keeps.
  */
  lemma ThresholdKeepsSuffix(m: Matrix, cs: seq<Candidate>, k: nat, t: real)
    requires SortedByAbs(cs) && k < |cs| && t < Abs(cs[k].weight)
    requires forall l :: 0 <= l < |cs| ==> FoundIn(m, cs[l])
    requires forall r, c :: 0 <= r < |m| && 0 <= c < |m[r]| && m[r][c] != 0.0 ==> Hits(cs, r, c)
    ensures forall i: nat, j: nat :: Edge(ZeroAll(m, cs[..k]), i, j) ==> Edge(ZeroSmall(m, t), i, j)
  {
    forall i: nat, j: nat | Edge(ZeroAll(m, cs[..k]), i, j)
      ensures Edge(ZeroSmall(m, t), i, j)
    {
      ZeroAllAt(m, cs[..k], j, i);
      var x :| x in cs && x.row == j && x.col == i;
      var l :| 0 <= l < |cs| && cs[l] == x;
      OutsidePrefixNoLighter(cs, k, x);
    }
  }

  /** Thresholding at a non-negative `t` below `dag_thres` keeps a cycle. */
  lemma BelowThresholdCyclic(m: Matrix, t: real)
    requires 0.0 <= t < Prune(m).thres
    ensures !Acyclic(ZeroSmall(m, t))
  {
    var cs, n := SortedCandidates(m), RemovedCount(m);
    assert 1 <= n && Prune(m).thres == Abs(cs[n - 1].weight) by {
      PruneThreshold(m);
    }
    // the graph left before the last removal still has a cycle ...
    var prev := ZeroAll(m, cs[..n - 1]);
    var high := ZeroSmall(m, t);
    assert !Acyclic(prev) by {
      PruneMinimal(m);
    }
    // ... and each of its edges is at least as heavy as `dag_thres`, so thresholding at `t` keeps it
    assert && (forall l :: 0 <= l < |cs| ==> FoundIn(m, cs[l]))
           && (forall r, c :: 0 <= r < |m| && 0 <= c < |m[r]| && m[r][c] != 0.0 ==> Hits(cs, r, c)) by {
      SortedCandidatesExact(m);
    }
    ThresholdKeepsSuffix(m, cs, n - 1, t);
    if Acyclic(high) {
      SubgraphAcyclic(prev, high);
    }
  }

  /**
    `dag_thres` is the least threshold that works: zeroing only the entries
    of magnitude at most a smaller non-negative `t` leaves a cycle.
  */
  lemma PruneThresholdLeast(m: Matrix)
    ensures forall t :: 0.0 <= t < Prune(m).thres ==> !Acyclic(ZeroSmall(m, t))
  {
    forall t | 0.0 <= t < Prune(m).thres
      ensures !Acyclic(ZeroSmall(m, t))
    {
      BelowThresholdCyclic(m, t);
    }
  }

  /**
    Minimality: every shorter prefix of the removed candidates still leaves
    a cycle, so the loop never removes an edge once the graph is a DAG.
  */
  lemma PruneMinimal(m: Matrix)
    ensures forall i :: 0 <= i < RemovedCount(m) ==> !Acyclic(ZeroAll(m, SortedCandidates(m)[..i]))
  {
    var cs := SortedCandidates(m);
    forall i | 0 <= i < RemovedCount(m) ensures !Acyclic(ZeroAll(m, cs[..i])) {
      IsDagCorrect(ZeroAll(m, cs[..i]));
    }
  }

  /** The loop runs at most once per nonzero entry, hence at most `d * d` times. */
  lemma RemovedCountBound(m: Matrix)
    requires IsSquare(m)
    ensures RemovedCount(m) <= |Candidates(m)| <= |m| * |m|
  {
    SortedCandidatesExact(m);
  }

  /** An acyclic matrix comes back unchanged, with threshold 0. */
  lemma PruneAcyclicUnchanged(m: Matrix)
    requires Acyclic(m)
    ensures Prune(m) == Pruned(m, 0.0)
  {
    IsDagCorrect(m);
  }

  /** Pruning twice prunes nothing more the second time, and reports threshold 0. */
  lemma PruneIdempotent(m: Matrix)
    ensures Prune(Prune(m).dag) == Pruned(Prune(m).dag, 0.0)
  {
    PruneAcyclic(m);
  }

  /**
    `threshold_till_dag(B)`: returns `B` itself with threshold 0 when it is
    already a DAG; otherwise prunes a private copy in place, candidate by
    candidate, checking `is_dag` before each removal. The caller's buffer is
    never written (there is no `modifies` clause).
  */
  method ThresholdTillDag(B: array2<real>) returns (R: array2<real>, dagThres: real)
    requires B.Length0 == B.Length1
    ensures IsDag(Snapshot(B)) ==> R == B
    ensures !IsDag(Snapshot(B)) ==> fresh(R)
    ensures Pruned(Snapshot(R), dagThres) == Prune(Snapshot(B))
  {
    if IsDag(Snapshot(B)) {
      return B, 0.0;
    }
    ghost var m := Snapshot(B);
    R := Copy(B);
    var cs := SortByAbs(Candidates(Snapshot(R)));
    assert cs == SortedCandidates(m);
    assert forall k :: 0 <= k < |cs| ==> FoundIn(m, cs[k]) by {
      SortedCandidatesExact(m);
    }
    var n;
    n, dagThres := RemoveUntilDag(R, cs, m);
    assert Snapshot(B) == m;
    assert n == RemovedCount(m);
    PruneNotDag(m);
  }

  /**
    The loop of `threshold_till_dag`: walks `cs` in order, stops as soon as
    the buffer passes the `is_dag` check, and otherwise zeroes the next
    candidate and records its magnitude. Returns how many it removed.
  */
  method RemoveUntilDag(R: array2<real>, cs: seq<Candidate>, ghost m: Matrix) returns (n: nat, dagThres: real)
    requires Snapshot(R) == m
    requires forall k :: 0 <= k < |cs| ==> FoundIn(m, cs[k])
    modifies R
    ensures n == StopIndex(m, cs, 0)
    ensures Snapshot(R) == ZeroAll(m, cs[..n])
    ensures n > 0 ==> dagThres == Abs(cs[n - 1].weight)
  {
    assert cs[..0] == [];
    // `dag_thres` is first assigned by the first removal
    dagThres := 0.0;
    n := 0;
    while n < |cs|
      invariant n <= |cs|
      invariant Snapshot(R) == ZeroAll(m, cs[..n])
      invariant StopIndex(m, cs, n) == StopIndex(m, cs, 0)
      invariant n > 0 ==> dagThres == Abs(cs[n - 1].weight)
    {
      if IsDag(Snapshot(R)) {
        break;
      }
      var c := cs[n];
      assert FoundIn(m, c);
      ghost var before := Snapshot(R);
      R[c.row, c.col] := 0.0;
      ZeroStep(m, cs, n, before, Snapshot(R));
      dagThres := Abs(c.weight);
      n := n + 1;
      assert cs[n - 1] == c;
    }
  }

  /** Zeroing candidate `k` of a buffer that held the first `k` removals yields the first `k + 1`. */
  lemma ZeroStep(m: Matrix, cs: seq<Candidate>, k: nat, before: Matrix, after: Matrix)
    requires k < |cs| && before == ZeroAll(m, cs[..k])
    requires cs[k].row < |m| && cs[k].col < |m[cs[k].row]|
    requires |after| == |before| && forall r :: 0 <= r < |after| ==> |after[r]| == |before[r]|
    requires forall r, c :: 0 <= r < |after| && 0 <= c < |after[r]| ==>
               after[r][c] == if r == cs[k].row && c == cs[k].col then 0.0 else before[r][c]
    ensures after == ZeroAll(m, cs[..k + 1])
  {
    var z := ZeroAt(before, cs[k]);
    assert SameEntries(after, z);
    SameEntriesEqual(after, z);
    ZeroAllSnoc(m, cs, k);
  }

  /** Zeroing the first `k + 1` candidates is zeroing the first `k`, then candidate `k`. */
  lemma ZeroAllSnoc(m: Matrix, cs: seq<Candidate>, k: nat)
    requires k < |cs|
    ensures ZeroAll(m, cs[..k + 1]) == ZeroAt(ZeroAll(m, cs[..k]), cs[k])
  {
    assert cs[..k + 1][..k] == cs[..k];
  }

  /**
    `B[np.abs(B) <= graph_thres] = 0` on matrix values: entries of magnitude
    at most `t` become zero, the others stay.
  */
  function ZeroSmall(m: Matrix, t: real): (m': Matrix)
  {
    seq(|m|, r requires 0 <= r < |m| =>
      seq(|m[r]|, c requires 0 <= c < |m[r]| => if Abs(m[r][c]) <= t then 0.0 else m[r][c]))
  }

  /** What `postprocess` returns: the thresholded matrix, pruned to a DAG. */
  function PostprocessResult(m: Matrix, t: real): Matrix {
    Prune(ZeroSmall(m, t)).dag
  }

  /**
    `postprocess(B, graph_thres)`: thresholds a private copy in place with the
    inclusive test `|v| <= graph_thres`, then keeps only the matrix that
    `threshold_till_dag` returns.
  */
  method Postprocess(B: array2<real>, graphThres: real := 0.3) returns (R: array2<real>)
    requires B.Length0 == B.Length1
    ensures fresh(R)
    ensures Snapshot(R) == PostprocessResult(Snapshot(B), graphThres)
  {
    var C := Copy(B);
    forall r, c | 0 <= r < C.Length0 && 0 <= c < C.Length1 && Abs(C[r, c]) <= graphThres {
      C[r, c] := 0.0;
    }
    SameEntriesEqual(Snapshot(C), ZeroSmall(Snapshot(B), graphThres));
    var dagThres;
    R, dagThres := ThresholdTillDag(C);
  }

  /**
    The output of `postprocess` has the input's shape; every entry of
    magnitude at most the threshold (the boundary included) is zero; every
    nonzero entry keeps the input's weight and exceeds the threshold; and
    the graph is acyclic.
  */
  lemma PostprocessSound(m: Matrix, t: real)
    ensures |PostprocessResult(m, t)| == |m|
    ensures forall r :: 0 <= r < |m| ==> |PostprocessResult(m, t)[r]| == |m[r]|
    ensures forall r, c :: 0 <= r < |m| && 0 <= c < |m[r]| && Abs(m[r][c]) <= t ==> PostprocessResult(m, t)[r][c] == 0.0
    ensures forall r, c :: 0 <= r < |m| && 0 <= c < |m[r]| && PostprocessResult(m, t)[r][c] != 0.0 ==>
              PostprocessResult(m, t)[r][c] == m[r][c] && Abs(m[r][c]) > t
    ensures Acyclic(PostprocessResult(m, t))
  {
    PruneSubgraph(ZeroSmall(m, t));
    PruneAcyclic(ZeroSmall(m, t));
  }

  /**
    When the thresholded graph is already acyclic, `postprocess` removes
    exactly the entries of magnitude at most the threshold and nothing else.
  */
  lemma PostprocessOnlyThresholds(m: Matrix, t: real)
    requires Acyclic(ZeroSmall(m, t))
    ensures PostprocessResult(m, t) == ZeroSmall(m, t)
  {
    PruneAcyclicUnchanged(ZeroSmall(m, t));
  }

  // ---------------------------------------------------------------------------
  // A worked example: the three-cycle `0 -> 1 -> 2 -> 0` with weights 5, 3, 1

  /** Edges `0 -> 1` (weight 5), `1 -> 2` (weight 3) and `2 -> 0` (weight 1). */
  const ThreeCycle: Matrix := [[0.0, 0.0, 1.0], [5.0, 0.0, 0.0], [0.0, 3.0, 0.0]]

  /** `ThreeCycle` without its weakest edge `2 -> 0`. */
  const ThreeCycleCut: Matrix := [[0.0, 0.0, 0.0], [5.0, 0.0, 0.0], [0.0, 3.0, 0.0]]

  /** The nonzero entries of `ThreeCycle` in row-major order. */
  lemma ThreeCycleCandidates()
    ensures Candidates(ThreeCycle)
         == [Candidate(1.0, 0, 2), Candidate(5.0, 1, 0), Candidate(3.0, 2, 1)]
  {
    var m := ThreeCycle;
    var a, b, c := Candidate(1.0, 0, 2), Candidate(5.0, 1, 0), Candidate(3.0, 2, 1);
    assert RowScan(m, 0, 3) == [] && RowScan(m, 0, 2) == [a];
    assert RowScan(m, 0, 1) == [a] && RowScan(m, 0, 0) == [a];
    assert RowScan(m, 1, 1) == RowScan(m, 1, 2) == RowScan(m, 1, 3) == [];
    assert RowScan(m, 1, 0) == [b];
    assert RowScan(m, 2, 2) == RowScan(m, 2, 3) == [];
    assert RowScan(m, 2, 1) == [c] && RowScan(m, 2, 0) == [c];
    assert Scan(m, 3) == [] && Scan(m, 2) == [c] && Scan(m, 1) == [b, c];
  }

  /** The weight-5 candidate goes after the weight-3 one. */
  lemma ThreeCycleSortTail()
    ensures SortByAbs([Candidate(5.0, 1, 0), Candidate(3.0, 2, 1)])
         == [Candidate(3.0, 2, 1), Candidate(5.0, 1, 0)]
  {
    var b, c := Candidate(5.0, 1, 0), Candidate(3.0, 2, 1);
    assert [b, c][1..] == [c] && [c][1..] == [];
    assert SortByAbs([c]) == [c];
    assert Abs(b.weight) == 5.0 && Abs(c.weight) == 3.0;
    assert InsertByAbs(b, [c]) == [c] + InsertByAbs(b, []);
  }

  /** Sorting the three candidates of `ThreeCycle` by magnitude, stably. */
  lemma ThreeCycleSort()
    ensures SortByAbs([Candidate(1.0, 0, 2), Candidate(5.0, 1, 0), Candidate(3.0, 2, 1)])
         == [Candidate(1.0, 0, 2), Candidate(3.0, 2, 1), Candidate(5.0, 1, 0)]
  {
    var a, b, c := Candidate(1.0, 0, 2), Candidate(5.0, 1, 0), Candidate(3.0, 2, 1);
    assert [a, b, c][1..] == [b, c];
    ThreeCycleSortTail();
    assert Abs(a.weight) == 1.0 && Abs(c.weight) == 3.0;
    assert InsertByAbs(a, [c, b]) == [a] + [c, b];
  }

  /** The loop visits the weight-1 entry first, then weight 3, then weight 5. */
  lemma ThreeCycleSorted()
    ensures SortedCandidates(ThreeCycle)
         == [Candidate(1.0, 0, 2), Candidate(3.0, 2, 1), Candidate(5.0, 1, 0)]
  {
    ThreeCycleCandidates();
    ThreeCycleSort();
  }

  /** The input is a cycle, and cutting its weakest edge leaves a DAG. */
  lemma ThreeCycleDags()
    ensures !IsDag(ThreeCycle)
    ensures ZeroAll(ThreeCycle, [Candidate(1.0, 0, 2)]) == ThreeCycleCut
    ensures IsDag(ThreeCycleCut)
  {
    assert IsCycle(ThreeCycle, [0, 1, 2, 0]);
    IsDagCorrect(ThreeCycle);
    var cut := [Candidate(1.0, 0, 2)];
    assert cut[..0] == [];
    assert ZeroAll(ThreeCycle, cut) == ZeroAt(ThreeCycle, cut[0]);
    assert ThreeCycle[0][2 := 0.0] == ThreeCycleCut[0];
    // every remaining edge goes from a lower to a higher node
    forall i: nat, j: nat | Edge(ThreeCycleCut, i, j)
      ensures i < j
    {
      assert j < 3 && i < 3;
    }
    TopologicalOrderAcyclic(ThreeCycleCut, (i: nat) => i);
    IsDagCorrect(ThreeCycleCut);
  }

  /** Only the weight-1 edge is removed, and the threshold is 1. */
  lemma ThreeCycleExample()
    ensures Prune(ThreeCycle) == Pruned(ThreeCycleCut, 1.0)
  {
    var cs := SortedCandidates(ThreeCycle);
    ThreeCycleSorted();
    ThreeCycleDags();
    assert cs[..0] == [] && cs[..1] == [Candidate(1.0, 0, 2)];
    assert RemovedCount(ThreeCycle) == 1;
    PruneNotDag(ThreeCycle);
  }
}
