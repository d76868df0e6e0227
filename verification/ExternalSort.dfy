/** The low-memory builder's tables: external sort by (height, hash), and search by hash. */
module ExternalSort {

  /** One projection row; hashes are compared as the byte order of their storage. */
  datatype Row = Row(hash: nat, hashPrev: nat, height: int, recordId: nat)

  predicate Less(a: Row, b: Row) {
    a.height < b.height || (a.height == b.height && a.hash < b.hash)
  }

  predicate Leq(a: Row, b: Row) { !Less(b, a) }

  ghost predicate Sorted(rows: seq<Row>) {
    forall i, j :: 0 <= i < j < |rows| ==> Leq(rows[i], rows[j])
  }

  ghost predicate AllSorted(runs: seq<seq<Row>>) {
    forall r :: 0 <= r < |runs| ==> Sorted(runs[r])
  }

  /** All rows of all runs, with multiplicity. */
  ghost function Pool(runs: seq<seq<Row>>): multiset<Row> {
    if runs == [] then multiset{} else multiset(runs[0]) + Pool(runs[1..])
  }

  lemma {:induction false} PoolAppend(runs: seq<seq<Row>>, run: seq<Row>)
    ensures Pool(runs + [run]) == Pool(runs) + multiset(run)
  {
    if runs == [] {
      assert runs + [run] == [run];
      assert [run][1..] == [];
    } else {
      assert (runs + [run])[1..] == runs[1..] + [run];
      PoolAppend(runs[1..], run);
    }
  }

  // ---------------------------------------------------------------- sorting one chunk

  lemma InsertedSorted(rows: seq<Row>, x: Row, k: nat)
    requires Sorted(rows) && k <= |rows|
    requires forall i :: k <= i < |rows| ==> Less(x, rows[i])
    requires k > 0 ==> Leq(rows[k - 1], x)
    ensures Sorted(rows[..k] + [x] + rows[k..])
  {
    var out := rows[..k] + [x] + rows[k..];
    forall i, j | 0 <= i < j < |out| ensures Leq(out[i], out[j]) {
      if j == k { assert i < k - 1 ==> Leq(rows[i], rows[k - 1]); }
    }
  }

  /** Where a row belongs in a sorted chunk. */
  method InsertRow(rows: seq<Row>, x: Row) returns (out: seq<Row>)
    requires Sorted(rows)
    ensures Sorted(out)
    ensures multiset(out) == multiset(rows) + multiset{x}
  {
    var k := |rows|;
    while k > 0 && Less(x, rows[k - 1])
      invariant 0 <= k <= |rows|
      invariant forall i :: k <= i < |rows| ==> Less(x, rows[i])
    {
      k := k - 1;
    }
    InsertedSorted(rows, x, k);
    out := rows[..k] + [x] + rows[k..];
    assert rows == rows[..k] + rows[k..];
  }

  /** std::sort of a chunk. */
  method SortChunk(chunk: seq<Row>) returns (out: seq<Row>)
    ensures Sorted(out)
    ensures multiset(out) == multiset(chunk) && |out| == |chunk|
  {
    out := [];
    var i := 0;
    while i < |chunk|
      invariant 0 <= i <= |chunk|
      invariant Sorted(out)
      invariant multiset(out) == multiset(chunk[..i])
    {
      out := InsertRow(out, chunk[i]);
      assert chunk[..i + 1] == chunk[..i] + [chunk[i]];
      i := i + 1;
    }
    assert chunk[..i] == chunk;
    assert |multiset(out)| == |multiset(chunk)|;
  }

  lemma EmptyPool()
    ensures Pool([]) == multiset{}
  {
  }

  /** Cut the rows into sorted runs of at most kChunk rows. */
  method MakeRuns(rows: seq<Row>, kChunk: nat) returns (runs: seq<seq<Row>>)
    requires kChunk > 0
    ensures AllSorted(runs)
    ensures Pool(runs) == multiset(rows)
    ensures forall r :: 0 <= r < |runs| ==> 0 < |runs[r]| <= kChunk && (r < |runs| - 1 ==> |runs[r]| == kChunk)
  {
    hide Sorted, Pool;
    runs := [];
    EmptyPool();
    var chunk: seq<Row> := [];
    var i := 0;
    while i < |rows|
      invariant 0 <= i <= |rows|
      invariant AllSorted(runs)
      invariant forall r :: 0 <= r < |runs| ==> |runs[r]| == kChunk
      invariant |chunk| < kChunk
      invariant Pool(runs) + multiset(chunk) == multiset(rows[..i])
    {
      chunk := chunk + [rows[i]];
      assert rows[..i + 1] == rows[..i] + [rows[i]];
      i := i + 1;
      if |chunk| >= kChunk {
        var run := SortChunk(chunk);
        PoolAppend(runs, run);
        runs := runs + [run];
        chunk := [];
      }
    }
    assert rows[..i] == rows;
    if chunk != [] {
      var run := SortChunk(chunk);
      PoolAppend(runs, run);
      runs := runs + [run];
    }
  }

  // ---------------------------------------------------------------- k-way merge

  /** What is left of each run: its head is the next row to read. */
  ghost predicate Minimal(rest: seq<seq<Row>>, best: int) {
    && 0 <= best < |rest| && rest[best] != []
    && forall r :: 0 <= r < |rest| && rest[r] != [] ==> Leq(rest[best][0], rest[r][0])
  }

  method BestHead(rest: seq<seq<Row>>) returns (best: int)
    ensures best == -1 <==> forall r :: 0 <= r < |rest| ==> rest[r] == []
    ensures best != -1 ==> Minimal(rest, best)
  {
    best := -1;
    var r := 0;
    while r < |rest|
      invariant 0 <= r <= |rest|
      invariant best == -1 <==> forall q :: 0 <= q < r ==> rest[q] == []
      invariant best != -1 ==> 0 <= best < r && rest[best] != []
      invariant best != -1 ==> forall q :: 0 <= q < r && rest[q] != [] ==> Leq(rest[best][0], rest[q][0])
    {
      if rest[r] != [] && (best < 0 || Less(rest[r][0], rest[best][0])) {
        best := r;
      }
      r := r + 1;
    }
  }

  lemma {:induction false} PoolEmpty(rest: seq<seq<Row>>)
    requires forall r :: 0 <= r < |rest| ==> rest[r] == []
    ensures Pool(rest) == multiset{}
  {
    if rest != [] {
      PoolEmpty(rest[1..]);
    }
  }

  lemma {:induction false} PoolPop(rest: seq<seq<Row>>, b: nat)
    requires b < |rest| && rest[b] != []
    ensures Pool(rest) == Pool(rest[b := rest[b][1..]]) + multiset{rest[b][0]}
  {
    var rest' := rest[b := rest[b][1..]];
    if b == 0 {
      assert rest[0] == [rest[0][0]] + rest[0][1..];
      assert rest'[1..] == rest[1..];
    } else {
      assert rest'[1..] == rest[1..][b - 1 := rest[b][1..]];
      PoolPop(rest[1..], b - 1);
    }
  }

  /** Every row left comes after a given row. */
  ghost predicate After(rest: seq<seq<Row>>, x: Row) {
    forall r, i :: 0 <= r < |rest| && 0 <= i < |rest[r]| ==> Leq(x, rest[r][i])
  }

  lemma MinimalBeforeAll(rest: seq<seq<Row>>, best: int)
    requires AllSorted(rest) && Minimal(rest, best)
    ensures After(rest, rest[best][0])
  {
    forall r, i | 0 <= r < |rest| && 0 <= i < |rest[r]| ensures Leq(rest[best][0], rest[r][i]) {
      assert Leq(rest[best][0], rest[r][0]);
      assert Sorted(rest[r]);
    }
  }

  lemma PopKeepsSorted(rest: seq<seq<Row>>, b: nat)
    requires AllSorted(rest) && b < |rest| && rest[b] != []
    ensures AllSorted(rest[b := rest[b][1..]])
    ensures forall x :: After(rest, x) ==> After(rest[b := rest[b][1..]], x)
  {
    var rest' := rest[b := rest[b][1..]];
    forall r | 0 <= r < |rest'| ensures Sorted(rest'[r]) { assert Sorted(rest[r]); }
    forall x | After(rest, x) ensures After(rest', x) {
      forall r, i | 0 <= r < |rest'| && 0 <= i < |rest'[r]| ensures Leq(x, rest'[r][i]) {
        assert rest'[r][i] == if r == b then rest[r][i + 1] else rest[r][i];
      }
    }
  }

  ghost predicate Merged(out: seq<Row>, rest: seq<seq<Row>>) {
    && Sorted(out) && AllSorted(rest)
    && (|out| > 0 ==> After(rest, out[|out| - 1]))
  }

  lemma MergeStep(out: seq<Row>, rest: seq<seq<Row>>, best: int)
    requires Merged(out, rest) && Minimal(rest, best)
    ensures Merged(out + [rest[best][0]], rest[best := rest[best][1..]])
  {
    MinimalBeforeAll(rest, best);
    PopKeepsSorted(rest, best);
    var x := rest[best][0];
    var out' := out + [x];
    forall i, j | 0 <= i < j < |out'| ensures Leq(out'[i], out'[j]) {
      if j == |out| {
        assert Leq(out[|out| - 1], x);
        assert i < |out| - 1 ==> Leq(out[i], out[|out| - 1]);
      }
    }
  }

  /** Merge the runs, always taking the least head. */
  method MergeRuns(runs: seq<seq<Row>>) returns (out: seq<Row>)
    requires AllSorted(runs)
    ensures Sorted(out)
    ensures multiset(out) == Pool(runs)
  {
    out := [];
    var rest := runs;
    while true
      invariant Merged(out, rest)
      invariant multiset(out) + Pool(rest) == Pool(runs)
      decreases |Pool(rest)|
    {
      var best := BestHead(rest);
      if best < 0 {
        PoolEmpty(rest);
        break;
      }
      MergeStep(out, rest, best);
      PoolPop(rest, best);
      out := out + [rest[best][0]];
      rest := rest[best := rest[best][1..]];
    }
  }

  /** For any chunk size: the same rows, sorted by (height, hash). */
  method ExternalHeightSort(rows: seq<Row>, kChunk: nat) returns (out: seq<Row>)
    requires kChunk > 0
    ensures Sorted(out)
    ensures forall i, j :: 0 <= i < j < |out| ==>
              out[i].height < out[j].height || (out[i].height == out[j].height && out[i].hash <= out[j].hash)
    ensures multiset(out) == multiset(rows)
  {
    var runs := MakeRuns(rows, kChunk);
    out := MergeRuns(runs);
  }

  // ---------------------------------------------------------------- search by hash

  ghost predicate HashAscending(rows: seq<Row>) {
    forall i, j :: 0 <= i < j < |rows| ==> rows[i].hash < rows[j].hash
  }

  /** BinSearchFixed: a row with the hash is found exactly when there is one. */
  method BinSearchFixed(rows: seq<Row>, target: nat) returns (found: bool, row: Row)
    requires HashAscending(rows)
    ensures found <==> exists r :: r in rows && r.hash == target
    ensures found ==> row in rows && row.hash == target
  {
    row := Row(0, 0, 0, 0);
    var lo, hi := 0, |rows|;
    while lo < hi
      invariant 0 <= lo <= hi <= |rows|
      invariant forall i :: 0 <= i < lo ==> rows[i].hash < target
      invariant forall i :: hi <= i < |rows| ==> target < rows[i].hash
    {
      var mid := lo + (hi - lo) / 2;
      row := rows[mid];
      if row.hash == target {
        return true, row;
      }
      if row.hash < target {
        lo := mid + 1;
      } else {
        hi := mid;
      }
    }
    found := false;
  }
}
