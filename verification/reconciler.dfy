/**
 * The reconciler: the two pure functions that compare the applied history
 * with the migrations discovered on disk. `Diff` computes what `up` and
 * `status` still have to run; `Pluck` finds the files `down` rolls back.
 * Both mirror the index-driven loops of the program, one recursive step per
 * loop iteration.
 */
module Reconciler {
  import opened Wrappers
  import opened Migration

  // ---------------------------------------------------------------------
  // diff
  // ---------------------------------------------------------------------

  /** The first `n` history rows name the first `n` files, position by position. */
  predicate Agree(prevs: seq<Record>, nexts: seq<MigrationFile>, n: nat) {
    n <= |prevs| && n <= |nexts| &&
    forall k :: 0 <= k < n ==> prevs[k].name == nexts[k].name
  }

  /** `k` is the first position where history and disk disagree. */
  predicate MismatchAt(prevs: seq<Record>, nexts: seq<MigrationFile>, k: int) {
    0 <= k && Agree(prevs, nexts, k) && k < |prevs| && k < |nexts| && prevs[k].name != nexts[k].name
  }

  /**
   * One iteration of the `diff` loop at index `i`, having collected `out`:
   * past the end of the history every file is pending; a matching name is
   * skipped; a differing name throws.
   */
  function DiffFrom(prevs: seq<Record>, nexts: seq<MigrationFile>, i: nat, out: seq<MigrationFile>)
    : (r: Result<seq<MigrationFile>, Error>)
    requires i <= |nexts|
    requires Agree(prevs, nexts, Min(i, |prevs|))
    requires out == nexts[Min(i, |prevs|)..i]
    ensures r.Success? <==> Agree(prevs, nexts, Min(|prevs|, |nexts|))
    ensures r.Success? ==> r.value == nexts[Min(|prevs|, |nexts|)..]
    ensures r.Failure? ==>
      exists k :: i <= k && MismatchAt(prevs, nexts, k) && r.error == Mismatch(nexts[k].name, prevs[k].name)
    decreases |nexts| - i
  {
    if i == |nexts| then
      Success(out)
    else if i >= |prevs| then
      DiffFrom(prevs, nexts, i + 1, out + [nexts[i]])
    else if nexts[i].name == prevs[i].name then
      DiffFrom(prevs, nexts, i + 1, out)
    else
      assert MismatchAt(prevs, nexts, i);
      Failure(Mismatch(nexts[i].name, prevs[i].name))
  }

  /**
   * `diff(prevs, nexts)`: succeeds exactly when the history is aligned with
   * the discovered files on every index both have, and then returns the
   * files past the end of the history, in disk order (nothing when the
   * history is as long as the disk listing or longer). Otherwise it throws
   * at the first disagreeing index, naming the file and the applied row.
   */
  function Diff(prevs: seq<Record>, nexts: seq<MigrationFile>): (r: Result<seq<MigrationFile>, Error>)
    ensures r.Success? <==> Agree(prevs, nexts, Min(|prevs|, |nexts|))
    ensures r.Success? ==> r.value == nexts[Min(|prevs|, |nexts|)..]
    ensures |prevs| >= |nexts| && r.Success? ==> r.value == []
    ensures r.Failure? ==>
      exists k :: MismatchAt(prevs, nexts, k) && r.error == Mismatch(nexts[k].name, prevs[k].name)
  {
    DiffFrom(prevs, nexts, 0, [])
  }

  /** There is at most one first mismatch. */
  lemma MismatchUnique(prevs: seq<Record>, nexts: seq<MigrationFile>, k: int, k': int)
    requires MismatchAt(prevs, nexts, k) && MismatchAt(prevs, nexts, k')
    ensures k == k'
  {
  }

  /**
   * History rows at indices at or beyond the number of discovered files are
   * never looked at: extending such a history changes nothing, so a longer
   * history with a matching prefix yields an empty pending list, not an error.
   */
  lemma DiffIgnoresExtraHistory(prevs: seq<Record>, extra: seq<Record>, nexts: seq<MigrationFile>)
    requires |prevs| >= |nexts|
    ensures Diff(prevs + extra, nexts) == Diff(prevs, nexts)
  {
    var r, r' := Diff(prevs, nexts), Diff(prevs + extra, nexts);
    assert Agree(prevs, nexts, |nexts|) <==> Agree(prevs + extra, nexts, |nexts|) by {
      assert forall k :: 0 <= k < |nexts| ==> (prevs + extra)[k] == prevs[k];
    }
    if r.Failure? {
      var k :| MismatchAt(prevs, nexts, k) && r.error == Mismatch(nexts[k].name, prevs[k].name);
      var k' :| MismatchAt(prevs + extra, nexts, k') && r'.error == Mismatch(nexts[k'].name, (prevs + extra)[k'].name);
      assert MismatchAt(prevs, nexts, k') by {
        assert forall m :: 0 <= m <= k' ==> (prevs + extra)[m] == prevs[m];
      }
      MismatchUnique(prevs, nexts, k, k');
    }
  }

  /**
   * When the history is exactly the first `n` discovered files, the pending
   * list is the rest of the disk listing, in order.
   */
  lemma DiffOfAppliedPrefix(nexts: seq<MigrationFile>, n: nat)
    requires n <= |nexts|
    ensures Diff(Records(nexts[..n]), nexts) == Success(nexts[n..])
  {
    assert Agree(Records(nexts[..n]), nexts, n);
  }

  /**
   * Applying the pending list catches the history up: once its rows are
   * recorded after the existing history, `diff` has nothing left to run.
   */
  lemma DiffCatchUp(prevs: seq<Record>, nexts: seq<MigrationFile>)
    requires Diff(prevs, nexts).Success?
    ensures Diff(prevs + Records(Diff(prevs, nexts).value), nexts) == Success([])
  {
    var pending := Diff(prevs, nexts).value;
    var h := prevs + Records(pending);
    var n := Min(|prevs|, |nexts|);
    assert pending == nexts[n..];
    if |prevs| < |nexts| {
      assert |h| == |nexts|;
      forall k | 0 <= k < |nexts|
        ensures h[k].name == nexts[k].name
      {
        if k >= |prevs| {
          assert h[k] == Records(pending)[k - |prevs|];
        }
      }
      assert Agree(h, nexts, Min(|h|, |nexts|));
    } else {
      assert pending == [];
      assert h == prevs + [];
    }
  }

  // ---------------------------------------------------------------------
  // pluck
  // ---------------------------------------------------------------------

  /**
   * The inner scan of `pluck` and of `findIndex`: the first index at or
   * after `j` whose file carries `name`, or `None` when the scan runs off the end.
   */
  function FindFrom(name: string, files: seq<MigrationFile>, j: nat): (r: Option<nat>)
    ensures r.Some? ==> j <= r.value < |files| && files[r.value].name == name
    ensures r.Some? ==> forall m :: j <= m < r.value ==> files[m].name != name
    ensures r.None? <==> forall m :: j <= m < |files| ==> files[m].name != name
    decreases |files| - j
  {
    if j >= |files| then None
    else if files[j].name == name then Some(j)
    else FindFrom(name, files, j + 1)
  }

  /** A file named `name` at `k`, with none before it from `j` on, is where the scan from `j` stops. */
  lemma FindFromStopsAt(name: string, files: seq<MigrationFile>, j: nat, k: nat)
    requires j <= k < |files| && files[k].name == name
    requires forall m :: j <= m < k ==> files[m].name != name
    ensures FindFrom(name, files, j) == Some(k)
  {
  }

  /** Target `i` has a file of its name at index `i` or later. */
  predicate Locatable(prevs: seq<Record>, nexts: seq<MigrationFile>, i: int) {
    0 <= i < |prevs| && exists k :: i <= k < |nexts| && nexts[k].name == prevs[i].name
  }

  /** Index `j` is where the scan for target `i`, started at index `i`, stops. */
  predicate FirstMatch(prevs: seq<Record>, nexts: seq<MigrationFile>, i: int, j: int) {
    0 <= i < |prevs| && i <= j < |nexts| && nexts[j].name == prevs[i].name &&
    forall m :: i <= m < j ==> nexts[m].name != prevs[i].name
  }

  /** `i` is the first target that has no file at index `i` or later. */
  predicate FirstMissing(prevs: seq<Record>, nexts: seq<MigrationFile>, i: int) {
    0 <= i < |prevs| && !Locatable(prevs, nexts, i) &&
    forall m :: 0 <= m < i ==> Locatable(prevs, nexts, m)
  }

  /** Entry `k` of `out` is the file where the scan for target `k` stops. */
  ghost predicate MatchedAt(prevs: seq<Record>, nexts: seq<MigrationFile>, out: seq<MigrationFile>, k: int) {
    0 <= k < |out| && exists j :: FirstMatch(prevs, nexts, k, j) && out[k] == nexts[j]
  }

  /** The files matched so far: entry `k` is the first match of target `k`. */
  ghost predicate Plucked(prevs: seq<Record>, nexts: seq<MigrationFile>, out: seq<MigrationFile>) {
    |out| <= |prevs| && forall k :: 0 <= k < |out| ==> MatchedAt(prevs, nexts, out, k)
  }

  /** The scan for a target stops at one place only. */
  lemma FirstMatchUnique(prevs: seq<Record>, nexts: seq<MigrationFile>, i: int, j: int, j': int)
    requires FirstMatch(prevs, nexts, i, j) && FirstMatch(prevs, nexts, i, j')
    ensures j == j'
  {
  }

  /**
   * One iteration of the outer `pluck` loop at target `i`: scan `nexts` from
   * index `i` (not from past the previous match) for the target's name; a
   * miss throws and discards what was collected.
   */
  function PluckFrom(prevs: seq<Record>, nexts: seq<MigrationFile>, i: nat, out: seq<MigrationFile>)
    : (r: Result<seq<MigrationFile>, Error>)
    requires i <= |prevs|
    requires |out| == i && Plucked(prevs, nexts, out)
    requires forall m :: 0 <= m < i ==> Locatable(prevs, nexts, m)
    ensures r.Success? <==> forall m :: 0 <= m < |prevs| ==> Locatable(prevs, nexts, m)
    ensures r.Success? ==> |r.value| == |prevs| && Plucked(prevs, nexts, r.value)
    ensures r.Failure? ==>
      exists m :: i <= m && FirstMissing(prevs, nexts, m) && r.error == MissingFile(prevs[m].name)
    decreases |prevs| - i
  {
    if i == |prevs| then
      Success(out)
    else
      match FindFrom(prevs[i].name, nexts, i)
      case None =>
        assert FirstMissing(prevs, nexts, i);
        Failure(MissingFile(prevs[i].name))
      case Some(j) =>
        assert FirstMatch(prevs, nexts, i, j);
        assert Locatable(prevs, nexts, i);
        PluckedExtend(prevs, nexts, out, j);
        PluckFrom(prevs, nexts, i + 1, out + [nexts[j]])
  }

  /** Appending the first match of the next target keeps the collected list well formed. */
  lemma PluckedExtend(prevs: seq<Record>, nexts: seq<MigrationFile>, out: seq<MigrationFile>, j: int)
    requires Plucked(prevs, nexts, out) && FirstMatch(prevs, nexts, |out|, j)
    ensures Plucked(prevs, nexts, out + [nexts[j]])
  {
    var out' := out + [nexts[j]];
    forall k | 0 <= k < |out'|
      ensures MatchedAt(prevs, nexts, out', k)
    {
      if k < |out| {
        assert MatchedAt(prevs, nexts, out, k);
        var j' :| FirstMatch(prevs, nexts, k, j') && out[k] == nexts[j'];
        assert out'[k] == out[k];
      } else {
        assert FirstMatch(prevs, nexts, k, j) && out'[k] == nexts[j];
      }
    }
  }

  /**
   * `pluck(prevs, nexts)`: succeeds exactly when every target `i` has a file
   * of its name at index `i` or later, and then returns one file per target,
   * in target order, each the first such file; otherwise it throws naming
   * the first target without one, and returns no partial list. With no
   * targets it returns `[]` whatever `nexts` is.
   */
  function Pluck(prevs: seq<Record>, nexts: seq<MigrationFile>): (r: Result<seq<MigrationFile>, Error>)
    ensures r.Success? <==> forall m :: 0 <= m < |prevs| ==> Locatable(prevs, nexts, m)
    ensures r.Success? ==> |r.value| == |prevs|
    ensures r.Success? ==> forall k :: 0 <= k < |prevs| ==> r.value[k].name == prevs[k].name
    ensures r.Success? ==> Plucked(prevs, nexts, r.value)
    ensures r.Failure? ==>
      exists m :: FirstMissing(prevs, nexts, m) && r.error == MissingFile(prevs[m].name)
  {
    var r := PluckFrom(prevs, nexts, 0, []);
    PluckedNames(prevs, nexts, r);
    r
  }

  lemma PluckedNames(prevs: seq<Record>, nexts: seq<MigrationFile>, r: Result<seq<MigrationFile>, Error>)
    requires r.Success? ==> |r.value| == |prevs| && Plucked(prevs, nexts, r.value)
    ensures r.Success? ==> forall k :: 0 <= k < |prevs| ==> r.value[k].name == prevs[k].name
  {
    if r.Success? {
      forall k | 0 <= k < |prevs|
        ensures r.value[k].name == prevs[k].name
      {
        assert MatchedAt(prevs, nexts, r.value, k);
        var j :| FirstMatch(prevs, nexts, k, j) && r.value[k] == nexts[j];
      }
    }
  }

  /**
   * When the targets name the candidates position by position, each target
   * is found at its own index, so `pluck` returns that prefix of the
   * candidates.
   */
  lemma PluckAligned(prevs: seq<Record>, nexts: seq<MigrationFile>)
    requires Agree(prevs, nexts, |prevs|)
    ensures Pluck(prevs, nexts) == Success(nexts[..|prevs|])
  {
    forall m | 0 <= m < |prevs|
      ensures Locatable(prevs, nexts, m)
    {
      assert nexts[m].name == prevs[m].name;
    }
    var out := Pluck(prevs, nexts).value;
    forall k | 0 <= k < |prevs|
      ensures out[k] == nexts[k]
    {
      assert MatchedAt(prevs, nexts, out, k);
      var j :| FirstMatch(prevs, nexts, k, j) && out[k] == nexts[j];
      if j != k {
        assert nexts[k].name == prevs[k].name;
      }
    }
    assert out == nexts[..|prevs|];
  }

  /**
   * A file placed before index `i` is never found for target `i`, even when
   * nothing else matched it: the history `[a, b]` against the files `[b, a]`
   * fails on `b`.
   */
  lemma PluckNeverLooksBefore()
    ensures Pluck([Record("a"), Record("b")], [MigrationFile("b", "/b"), MigrationFile("a", "/a")])
         == Failure(MissingFile("b"))
  {
  }

  /**
   * The scan for target `i` restarts at index `i` rather than just past the
   * previous match, so matches need not advance: targets `[x, y, z]` against
   * files `[x, w, z, y]` find `y` at index 3 and then `z` at index 2.
   */
  lemma PluckRestartsAtTargetIndex()
    ensures Pluck([Record("x"), Record("y"), Record("z")],
                  [MigrationFile("x", "/x"), MigrationFile("w", "/w"), MigrationFile("z", "/z"), MigrationFile("y", "/y")])
         == Success([MigrationFile("x", "/x"), MigrationFile("y", "/y"), MigrationFile("z", "/z")])
  {
    var targets := [Record("x"), Record("y"), Record("z")];
    var files := [MigrationFile("x", "/x"), MigrationFile("w", "/w"), MigrationFile("z", "/z"), MigrationFile("y", "/y")];
    var expected := [files[0], files[3], files[2]];
    assert FirstMatch(targets, files, 0, 0);
    assert FirstMatch(targets, files, 1, 3);
    assert FirstMatch(targets, files, 2, 2);
    var r := Pluck(targets, files);
    assert Locatable(targets, files, 0) && Locatable(targets, files, 1) && Locatable(targets, files, 2);
    assert r.Success?;
    forall k | 0 <= k < 3
      ensures r.value[k] == expected[k]
    {
      assert MatchedAt(targets, files, r.value, k);
      var j :| FirstMatch(targets, files, k, j) && r.value[k] == files[j];
      if k == 0 {
        FirstMatchUnique(targets, files, k, j, 0);
      } else if k == 1 {
        FirstMatchUnique(targets, files, k, j, 3);
      } else {
        FirstMatchUnique(targets, files, k, j, 2);
      }
    }
    assert r.value == expected;
  }
}
