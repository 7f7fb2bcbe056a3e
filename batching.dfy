/** Bulk deletion in batches of at most 1000 operations, as `deleteAll`,
    `deletePrefix` and `deleteRecursively` submit them: keys accumulate and
    a batch goes out whenever 1000 have gathered; a final batch takes the
    remainder. */
module Batching {
  import opened Common

  /** The number of operations after which a batch is submitted. */
  const BatchSize: nat := 1000

  /** The batches submitted while the keys `v` were visited: one per
      complete group of 1000. */
  function FullChunks<T>(v: seq<T>): (r: seq<seq<T>>)
    ensures |r| == |v| / BatchSize
    ensures forall i :: 0 <= i < |r| ==> r[i] == v[i * BatchSize..(i + 1) * BatchSize]
  {
    seq(|v| / BatchSize, i requires 0 <= i < |v| / BatchSize => v[i * BatchSize..(i + 1) * BatchSize])
  }

  /** The keys still waiting after the last complete group. */
  function Remainder<T>(v: seq<T>): (r: seq<T>)
    ensures |r| == |v| % BatchSize
  {
    v[|v| / BatchSize * BatchSize..]
  }

  /** Every batch submitted for `v`: the complete groups, then the remainder
      when there is one. */
  function Chunks<T>(v: seq<T>): seq<seq<T>>
  {
    FullChunks(v) + (if Remainder(v) == [] then [] else [Remainder(v)])
  }

  /** Concatenation of batches. */
  function Flatten<T>(ss: seq<seq<T>>): seq<T>
  {
    if ss == [] then [] else Flatten(ss[..|ss| - 1]) + ss[|ss| - 1]
  }

  /** The complete groups of a prefix are a prefix of the complete groups. */
  lemma FullChunksOfPrefix<T>(u: seq<T>, v: seq<T>)
    requires |u| <= |v| && v[..|u|] == u
    ensures |FullChunks(u)| <= |FullChunks(v)|
    ensures FullChunks(u) == FullChunks(v)[..|FullChunks(u)|]
    ensures FullChunks(u) == Chunks(v)[..|FullChunks(u)|]
  {
    var a, b := FullChunks(u), FullChunks(v);
    assert |u| / BatchSize <= |v| / BatchSize;
    forall i | 0 <= i < |a| ensures a[i] == b[i] {
      assert (i + 1) * BatchSize <= |u|;
      assert u[i * BatchSize..(i + 1) * BatchSize] == v[i * BatchSize..(i + 1) * BatchSize];
    }
  }

  /** Visiting one more key either completes a group, which is then
      submitted, or joins the remainder. */
  lemma Visit<T>(v: seq<T>, x: T)
    ensures |Remainder(v) + [x]| >= BatchSize <==> |v + [x]| % BatchSize == 0
    ensures |v + [x]| % BatchSize == 0 ==>
      FullChunks(v + [x]) == FullChunks(v) + [Remainder(v) + [x]] && Remainder(v + [x]) == []
    ensures |v + [x]| % BatchSize != 0 ==>
      FullChunks(v + [x]) == FullChunks(v) && Remainder(v + [x]) == Remainder(v) + [x]
  {
    var w := v + [x];
    var k := |v| / BatchSize;
    if |w| % BatchSize == 0 {
      assert |w| / BatchSize == k + 1;
      var r := FullChunks(w);
      assert r[k] == Remainder(v) + [x];
      FullChunksOfPrefix(v, w);
      assert r == r[..k] + [r[k]];
    } else {
      assert |w| / BatchSize == k;
      FullChunksOfPrefix(v, w);
      assert FullChunks(w)[..k] == FullChunks(w);
    }
  }

  lemma {:induction false} FlattenAppend<T>(ss: seq<seq<T>>, t: seq<seq<T>>)
    ensures Flatten(ss + t) == Flatten(ss) + Flatten(t)
    decreases |t|
  {
    if t == [] {
      assert ss + t == ss;
    } else {
      var u, x := t[..|t| - 1], t[|t| - 1];
      assert (ss + t)[..|ss + t| - 1] == ss + u;
      assert (ss + t)[|ss + t| - 1] == x;
      FlattenAppend(ss, u);
      calc {
        Flatten(ss + t);
        Flatten(ss + u) + x;
        Flatten(ss) + Flatten(u) + x;
        Flatten(ss) + (Flatten(u) + x);
        Flatten(ss) + Flatten(t);
      }
    }
  }

  lemma {:induction false} FlattenFullChunks<T>(v: seq<T>, k: nat)
    requires k <= |v| / BatchSize
    ensures Flatten(FullChunks(v)[..k]) == v[..k * BatchSize]
  {
    if k > 0 {
      var r := FullChunks(v);
      assert r[..k][..k - 1] == r[..k - 1];
      FlattenFullChunks(v, k - 1);
      assert v[..k * BatchSize] == v[..(k - 1) * BatchSize] + r[k - 1];
    }
  }

  /** The batches submitted for `v`, taken together, are exactly `v`: every
      key is deleted once, in listing order. */
  lemma ChunksFlatten<T>(v: seq<T>)
    ensures Flatten(Chunks(v)) == v
  {
    var k := |v| / BatchSize;
    FlattenFullChunks(v, k);
    assert FullChunks(v)[..k] == FullChunks(v);
    var r := Remainder(v);
    assert v[..k * BatchSize] + r == v;
    if r == [] {
      assert Chunks(v) == FullChunks(v);
    } else {
      assert Chunks(v) == FullChunks(v) + [r];
      FlattenAppend(FullChunks(v), [r]);
      assert [r][..0] == [];
    }
  }

  /** `ceil(n/1000)` batches; every one holds 1000 keys except possibly the
      last, which holds at least one. */
  lemma ChunksShape<T>(v: seq<T>)
    ensures |Chunks(v)| == (|v| + BatchSize - 1) / BatchSize
    ensures forall i :: 0 <= i < |Chunks(v)| ==> 1 <= |Chunks(v)[i]| <= BatchSize
    ensures forall i :: 0 <= i < |Chunks(v)| - 1 ==> |Chunks(v)[i]| == BatchSize
    ensures v == [] <==> Chunks(v) == []
  {
    var c := Chunks(v);
    forall i | 0 <= i < |c| ensures 1 <= |c[i]| <= BatchSize {
      if i < |FullChunks(v)| {
        assert c[i] == FullChunks(v)[i];
      }
    }
    forall i | 0 <= i < |c| - 1 ensures |c[i]| == BatchSize {
      assert c[i] == FullChunks(v)[i];
    }
  }

  /** Index of the first failed outcome, or the number of outcomes when none
      failed. */
  function FirstFailure<E>(outs: seq<Result<(), E>>): (m: nat)
    ensures m <= |outs|
    ensures m < |outs| ==> outs[m].Err?
    ensures forall i :: 0 <= i < m ==> outs[i].Ok?
  {
    if outs == [] then 0
    else if outs[0].Err? then 0
    else 1 + FirstFailure(outs[1..])
  }

  /** The first failure is the one every earlier outcome precedes
      successfully. The batch-failure lemmas use it to find the batch that
      stops the run (`BulkRunBatchFails`, `BulkRunLastBatch`,
      `RecursiveRunStops`, `RecursiveRunCompletes`). */
  lemma FirstFailureAt<E>(outs: seq<Result<(), E>>, c: nat)
    requires c < |outs| && outs[c].Err?
    requires forall i :: 0 <= i < c ==> outs[i].Ok?
    ensures FirstFailure(outs) == c
  {
  }

  /** The batches a bulk deletion submitted and how it ended. */
  datatype BatchRun<T, E> = BatchRun(sent: seq<seq<T>>, result: Result<(), E>)

  /** Submitting `chunks` one after the other, where the i-th submission
      ends as `outs[i]`: the run stops after the first failed submission
      and reports its failure; when every submission succeeds it ends as
      `tail`. */
  function RunBatches<T, E>(chunks: seq<seq<T>>, outs: seq<Result<(), E>>, tail: Result<(), E>)
    : BatchRun<T, E>
    requires |outs| == |chunks|
  {
    var m := FirstFailure(outs);
    if m < |chunks| then BatchRun(chunks[..m + 1], outs[m]) else BatchRun(chunks, tail)
  }

  /** A run submits a prefix of its batches; it succeeds exactly when every
      batch was submitted successfully and the tail succeeded; otherwise the
      error is that of the last submitted batch, or of the tail after all
      batches succeeded. */
  lemma RunBatchesSpec<T, E>(chunks: seq<seq<T>>, outs: seq<Result<(), E>>, tail: Result<(), E>)
    requires |outs| == |chunks|
    ensures var r := RunBatches(chunks, outs, tail);
      |r.sent| <= |chunks| && r.sent == chunks[..|r.sent|]
      && (r.result.Ok? <==> tail.Ok? && forall i :: 0 <= i < |outs| ==> outs[i].Ok?)
      && (forall i :: 0 <= i < |r.sent| - 1 ==> outs[i].Ok?)
      && (r.result.Err? ==>
            if |r.sent| < |chunks| || (r.sent != [] && outs[|r.sent| - 1].Err?)
            then r.result == outs[|r.sent| - 1]
            else r.sent == chunks && r.result == tail)
  {
  }

  /** A bulk deletion of `ops` as `deleteAll` and `deletePrefix` run it:
      batches go out as the listing delivers keys, `verdict(i, batch)` is how
      the i-th batch call ends, and a listing that fails with `listError`
      stops before the remainder is submitted. */
  function BulkRun<T, E>(ops: seq<T>, listError: Option<E>, verdict: (nat, seq<T>) -> Result<(), E>)
    : BatchRun<T, E>
  {
    var chunks := if listError.Some? then FullChunks(ops) else Chunks(ops);
    var outs := seq(|chunks|, i requires 0 <= i < |chunks| => verdict(i, chunks[i]));
    RunBatches(chunks, outs, if listError.Some? then Err(listError.value) else Ok(()))
  }

  /** A bulk deletion that succeeds submitted every operation exactly once,
      in order, in batches of 1 to 1000; one that fails submitted a prefix
      of those batches. */
  lemma BulkRunSpec<T, E>(ops: seq<T>, listError: Option<E>, verdict: (nat, seq<T>) -> Result<(), E>)
    ensures var r := BulkRun(ops, listError, verdict);
      (r.result.Ok? ==>
         listError.None? && Flatten(r.sent) == ops
         && forall i :: 0 <= i < |r.sent| ==> 1 <= |r.sent[i]| <= BatchSize)
      && |r.sent| <= |Chunks(ops)| && r.sent == Chunks(ops)[..|r.sent|]
  {
    var chunks := if listError.Some? then FullChunks(ops) else Chunks(ops);
    var outs := seq(|chunks|, i requires 0 <= i < |chunks| => verdict(i, chunks[i]));
    RunBatchesSpec(chunks, outs, if listError.Some? then Err(listError.value) else Ok(()));
    ChunksFlatten(ops);
    ChunksShape(ops);
  }

  /** A failed listing ends the run with its error once every complete
      batch was accepted. */
  lemma BulkRunListFails<T, E>(ops: seq<T>, e: E, verdict: (nat, seq<T>) -> Result<(), E>)
    requires forall c :: 0 <= c < |FullChunks(ops)| ==> verdict(c, FullChunks(ops)[c]).Ok?
    ensures BulkRun(ops, Some(e), verdict) == BatchRun(FullChunks(ops), Err(e))
  {
  }

  /** A batch call that fails once the operations `visited` have gathered
      ends the run with its failure. */
  lemma BulkRunBatchFails<T, E>(ops: seq<T>, listError: Option<E>, verdict: (nat, seq<T>) -> Result<(), E>,
                                visited: seq<T>, sent: seq<seq<T>>)
    requires visited <= ops && visited != [] && |visited| % BatchSize == 0
    requires sent == FullChunks(visited) && sent != []
    requires forall c :: 0 <= c < |sent| - 1 ==> verdict(c, sent[c]).Ok?
    requires verdict(|sent| - 1, sent[|sent| - 1]).Err?
    ensures BulkRun(ops, listError, verdict) == BatchRun(sent, verdict(|sent| - 1, sent[|sent| - 1]))
  {
    var chunks := if listError.Some? then FullChunks(ops) else Chunks(ops);
    var outs := seq(|chunks|, i requires 0 <= i < |chunks| => verdict(i, chunks[i]));
    FullChunksOfPrefix(visited, ops);
    assert |visited| / BatchSize >= 1;
    assert chunks[..|sent|] == sent;
    var k := |sent| - 1;
    forall i | 0 <= i <= k
      ensures outs[i] == verdict(i, sent[i])
    {
      assert chunks[i] == chunks[..|sent|][i];
    }
    FirstFailureAt(outs, k);
    assert chunks[..k + 1] == sent;
  }

  /** A listing that ends with a page is followed by the submission of the
      remainder, when there is one, which decides the run. */
  lemma BulkRunLastBatch<T, E>(ops: seq<T>, verdict: (nat, seq<T>) -> Result<(), E>)
    requires forall c :: 0 <= c < |FullChunks(ops)| ==> verdict(c, FullChunks(ops)[c]).Ok?
    ensures var k := |FullChunks(ops)|;
      BulkRun(ops, None, verdict) ==
        if Remainder(ops) == [] then BatchRun(FullChunks(ops), Ok(()))
        else BatchRun(FullChunks(ops) + [Remainder(ops)], verdict(k, Remainder(ops)))
  {
    var chunks := Chunks(ops);
    var outs := seq(|chunks|, i requires 0 <= i < |chunks| => verdict(i, chunks[i]));
    var k := |FullChunks(ops)|;
    assert forall i :: 0 <= i < k ==> outs[i].Ok?;
    if Remainder(ops) == [] {
      assert |chunks| == k;
    } else if verdict(k, Remainder(ops)).Err? {
      FirstFailureAt(outs, k);
      assert chunks[..k + 1] == chunks;
    } else {
      assert |chunks| == k + 1 && outs[k].Ok?;
      assert verdict(k, Remainder(ops)).value == ();
    }
  }
}
