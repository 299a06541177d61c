/** The multi-worker driver of main.js (`processMultipleWorkers`): the image
    list is cut into `ceil(n / numWorkers)`-sized contiguous shards, empty
    shards are skipped, each shard goes to its own shard worker, and the
    per-shard result lists are concatenated in shard order. */
module Sharding {
  import opened Messages
  import ShardWorker

  /** `Math.ceil(n / numWorkers)` for a non-negative count. */
  function ImagesPerWorker(n: nat, numWorkers: nat): (per: nat)
    requires numWorkers > 0
    ensures per * numWorkers >= n
    ensures per > 0 ==> (per - 1) * numWorkers < n
  {
    var q := (n + numWorkers - 1) / numWorkers;
    var r := (n + numWorkers - 1) % numWorkers;
    assert n + numWorkers - 1 == q * numWorkers + r && 0 <= r < numWorkers;
    assert q > 0 ==> (q - 1) * numWorkers == q * numWorkers - numWorkers;
    q
  }

  /** `s.slice(start, end)` for non-negative bounds. */
  function Slice<T>(s: seq<T>, start: nat, end: nat): seq<T>
  {
    var lo := if start < |s| then start else |s|;
    var hi := if end < |s| then end else |s|;
    if lo < hi then s[lo..hi] else []
  }

  /** Both bounds of a slice are clipped to the length, a start at or after
      the end gives the empty list, and otherwise the slice holds the
      elements from `start` on, in order. */
  lemma SliceClips<T>(s: seq<T>, start: nat, end: nat)
    ensures var r := Slice(s, start, end);
      && (start < |s| && start < end ==> |r| == (if end < |s| then end else |s|) - start)
      && (start >= |s| || start >= end ==> r == [])
      && (forall k :: 0 <= k < |r| ==> start + k < |s| && r[k] == s[start + k])
  {
  }

  /** `i * per`, the first index of shard `i`, built up one shard at a time
      (see OffsetIsProduct). */
  function Offset(i: nat, per: nat): nat
  {
    if i == 0 then 0 else Offset(i - 1, per) + per
  }

  lemma {:induction false} OffsetIsProduct(i: nat, per: nat)
    ensures Offset(i, per) == i * per
  {
    if i > 0 {
      OffsetIsProduct(i - 1, per);
      assert i * per == (i - 1) * per + per;
    }
  }

  lemma {:induction false} OffsetMonotone(a: nat, b: nat, per: nat)
    requires a <= b
    ensures Offset(a, per) <= Offset(b, per)
    decreases b
  {
    if a < b {
      OffsetMonotone(a, b - 1, per);
    }
  }

  /** Shard `i`: `s.slice(i * per, i * per + per)`. */
  function Shard<T>(s: seq<T>, per: nat, i: nat): seq<T>
  {
    Slice(s, Offset(i, per), Offset(i, per) + per)
  }

  /** The shards handed out by loop iterations `0 .. k-1`, empty ones skipped. */
  function ShardsUpTo<T>(s: seq<T>, per: nat, k: nat): seq<seq<T>>
  {
    if k == 0 then []
    else
      var prev := ShardsUpTo(s, per, k - 1);
      if |Shard(s, per, k - 1)| == 0 then prev else prev + [Shard(s, per, k - 1)]
  }

  /** The shards of `processMultipleWorkers`, in worker order. */
  function Shards<T>(s: seq<T>, numWorkers: nat): seq<seq<T>>
  {
    // with no workers the loop does not run, whatever the shard size
    if numWorkers == 0 then [] else ShardsUpTo(s, ImagesPerWorker(|s|, numWorkers), numWorkers)
  }

  /** `results.flat()` on a list of lists. */
  function Flatten<T>(ss: seq<seq<T>>): (r: seq<T>)
  {
    if ss == [] then [] else Flatten(ss[..|ss| - 1]) + ss[|ss| - 1]
  }

  /** The loop at the head of `processMultipleWorkers`: for each worker index,
      take its slice and keep it only when it is non-empty. */
  method PlanShards<T>(images: seq<T>, numWorkers: nat) returns (shards: seq<seq<T>>)
    ensures shards == Shards(images, numWorkers)
  {
    var per := if numWorkers == 0 then 0 else ImagesPerWorker(|images|, numWorkers);
    shards := [];
    for i := 0 to numWorkers
      invariant shards == ShardsUpTo(images, per, i)
    {
      var startIdx := i * per;
      var endIdx := startIdx + per;
      var workerImages := Slice(images, startIdx, endIdx);
      OffsetIsProduct(i, per);
      assert workerImages == Shard(images, per, i);
      if |workerImages| == 0 {
        continue;
      }
      shards := shards + [workerImages];
    }
  }

  /** Shard `i` is empty exactly when it starts at or after the end of the
      input; otherwise it is the slice from its offset, clipped to the end. */
  lemma ShardBounds<T>(s: seq<T>, per: nat, i: nat)
    requires per > 0 || |s| == 0
    ensures var lo := Offset(i, per);
      && (|Shard(s, per, i)| == 0 <==> lo >= |s|)
      && (lo < |s| ==> Shard(s, per, i) == s[lo..if lo + per < |s| then lo + per else |s|])
  {
  }

  /** The shape part of the shard loop's invariant: after `k` iterations the
      `c` kept shards are exactly shards `0 .. c-1`, all non-empty, and once a
      shard is skipped the input is used up. */
  ghost predicate ShapeAfter<T>(s: seq<T>, per: nat, k: nat)
  {
    var ss := ShardsUpTo(s, per, k);
    && |ss| <= k
    && (forall j :: 0 <= j < |ss| ==> ss[j] == Shard(s, per, j) && ss[j] != [])
    && (|ss| < k ==> Offset(|ss|, per) >= |s|)
  }

  /** One step of ShardsUpToShape, for an iteration that skips its shard. */
  lemma ShapeSkip<T>(s: seq<T>, per: nat, k: nat)
    requires per > 0 || |s| == 0
    requires k > 0 && |Shard(s, per, k - 1)| == 0 && ShapeAfter(s, per, k - 1)
    ensures ShapeAfter(s, per, k)
  {
    ShardBounds(s, per, k - 1);
    assert ShardsUpTo(s, per, k) == ShardsUpTo(s, per, k - 1);
  }

  /** One step of ShardsUpToShape, for an iteration that keeps its shard. */
  lemma ShapeKeep<T>(s: seq<T>, per: nat, k: nat)
    requires per > 0 || |s| == 0
    requires k > 0 && |Shard(s, per, k - 1)| != 0 && ShapeAfter(s, per, k - 1)
    ensures ShapeAfter(s, per, k)
  {
    var prev := ShardsUpTo(s, per, k - 1);
    var c := |prev|;
    assert c == k - 1 by {
      ShardBounds(s, per, k - 1);
      if c < k - 1 {
        OffsetMonotone(c, k - 1, per);
      }
    }
    var ss := prev + [Shard(s, per, k - 1)];
    assert ShardsUpTo(s, per, k) == ss;
    assert forall j :: 0 <= j < c ==> ss[j] == prev[j];
  }

  lemma {:induction false} ShardsUpToShape<T>(s: seq<T>, per: nat, k: nat)
    requires per > 0 || |s| == 0
    ensures ShapeAfter(s, per, k)
  {
    if k > 0 {
      ShardsUpToShape(s, per, k - 1);
      if |Shard(s, per, k - 1)| == 0 {
        ShapeSkip(s, per, k);
      } else {
        ShapeKeep(s, per, k);
      }
    }
  }

  lemma FlattenLast<T>(ss: seq<seq<T>>, x: seq<T>)
    ensures Flatten(ss + [x]) == Flatten(ss) + x
  {
    assert (ss + [x])[..|ss|] == ss;
  }

  lemma FlattenStep<T>(s: seq<T>, prev: seq<seq<T>>, sh: seq<T>, lo: nat, per: nat)
    requires lo < |s| && Flatten(prev) == s[..lo]
    requires sh == s[lo..if lo + per < |s| then lo + per else |s|]
    ensures Flatten(prev + [sh]) == s[..if lo + per < |s| then lo + per else |s|]
  {
    FlattenLast(prev, sh);
    var hi := if lo + per < |s| then lo + per else |s|;
    assert s[..lo] + s[lo..hi] == s[..hi];
  }

  /** How far into the input the first `c` shards reach. */
  function Covered(n: nat, per: nat, c: nat): nat
  {
    if Offset(c, per) < n then Offset(c, per) else n
  }

  /** A kept shard is the next one in line: the `c`-th shard, where `c`
      shards were kept before it, and it starts inside the input. */
  lemma KeptShard<T>(s: seq<T>, per: nat, k: nat)
    requires per > 0 || |s| == 0
    requires k > 0 && |Shard(s, per, k - 1)| != 0
    ensures var prev := ShardsUpTo(s, per, k - 1);
      && ShardsUpTo(s, per, k) == prev + [Shard(s, per, |prev|)]
      && Offset(|prev|, per) < |s|
  {
    var prev := ShardsUpTo(s, per, k - 1);
    var sh := Shard(s, per, k - 1);
    assert ShardsUpTo(s, per, k) == prev + [sh];
    ShardsUpToShape(s, per, k);
    assert sh == Shard(s, per, |prev|) by { assert (prev + [sh])[|prev|] == sh; }
    ShardBounds(s, per, |prev|);
  }

  /** One step of ShardsUpToFlatten: a kept shard extends the covered prefix. */
  lemma FlattenGrow<T>(s: seq<T>, per: nat, prev: seq<seq<T>>)
    requires per > 0 && Offset(|prev|, per) < |s|
    requires Flatten(prev) == s[..Covered(|s|, per, |prev|)]
    ensures Flatten(prev + [Shard(s, per, |prev|)]) == s[..Covered(|s|, per, |prev| + 1)]
  {
    var c := |prev|;
    ShardBounds(s, per, c);
    FlattenStep(s, prev, Shard(s, per, c), Offset(c, per), per);
  }

  /** The coverage part of the shard loop's invariant: the kept shards,
      concatenated, are the prefix of the input they cover. */
  lemma {:induction false} ShardsUpToFlatten<T>(s: seq<T>, per: nat, k: nat)
    requires per > 0 || |s| == 0
    ensures Flatten(ShardsUpTo(s, per, k)) == s[..Covered(|s|, per, |ShardsUpTo(s, per, k)|)]
  {
    if k == 0 {
      assert s[..0] == [];
    } else {
      ShardsUpToFlatten(s, per, k - 1);
      if |Shard(s, per, k - 1)| == 0 {
        assert ShardsUpTo(s, per, k) == ShardsUpTo(s, per, k - 1);
      } else {
        KeptShard(s, per, k);
        FlattenGrow(s, per, ShardsUpTo(s, per, k - 1));
      }
    }
  }

  /** The last worker's shard ends at or after the end of the input. */
  lemma WorkersCoverInput(n: nat, numWorkers: nat)
    requires numWorkers > 0
    ensures Offset(numWorkers, ImagesPerWorker(n, numWorkers)) >= n
  {
    OffsetIsProduct(numWorkers, ImagesPerWorker(n, numWorkers));
  }

  /** Concatenating the shards in index order gives back the input. */
  lemma ShardsCoverInput<T>(images: seq<T>, numWorkers: nat)
    requires numWorkers > 0
    ensures Flatten(Shards(images, numWorkers)) == images
  {
    var per := ImagesPerWorker(|images|, numWorkers);
    var ss := ShardsUpTo(images, per, numWorkers);
    assert Offset(|ss|, per) >= |images| by {
      ShardsUpToShape(images, per, numWorkers);
      WorkersCoverInput(|images|, numWorkers);
    }
    ShardsUpToFlatten(images, per, numWorkers);
    assert images[..|images|] == images;
  }

  /** Shard `i` is `s.slice(i * per, i * per + per)`: at most `per` items,
      the `k`-th of them being item `i * per + k` of the input. */
  lemma ShardIsSlice<T>(s: seq<T>, per: nat, i: nat)
    ensures Shard(s, per, i) == Slice(s, i * per, i * per + per)
    ensures |Shard(s, per, i)| <= per
    ensures forall k :: 0 <= k < |Shard(s, per, i)| ==> Shard(s, per, i)[k] == s[i * per + k]
  {
    OffsetIsProduct(i, per);
    SliceClips(s, i * per, i * per + per);
  }

  /** At most `numWorkers` shards are used; every one is non-empty, and the
      `j`-th used shard is shard `j` itself, so the used shards are the first
      ones, contiguous and in input order (see ShardIsSlice). */
  lemma ShardsAreSlices<T>(images: seq<T>, numWorkers: nat)
    requires numWorkers > 0
    ensures var per := ImagesPerWorker(|images|, numWorkers);
      var ss := Shards(images, numWorkers);
      && |ss| <= numWorkers
      && forall j :: 0 <= j < |ss| ==> ss[j] == Shard(images, per, j) && ss[j] != []
  {
    ShardsUpToShape(images, ImagesPerWorker(|images|, numWorkers), numWorkers);
  }

  /** The demo input: six images over three workers give three shards of two. */
  lemma DemoSharding()
    ensures var images := ["image1.svg", "image2.svg", "image3.svg", "image4.svg", "image5.svg", "image6.svg"];
      ImagesPerWorker(|images|, 3) == 2
      && Shards(images, 3) == [images[0..2], images[2..4], images[4..6]]
  {
    var images := ["image1.svg", "image2.svg", "image3.svg", "image4.svg", "image5.svg", "image6.svg"];
    assert ImagesPerWorker(6, 3) == 2;
    assert Offset(0, 2) == 0 && Offset(1, 2) == 2 && Offset(2, 2) == 4;
    assert Shard(images, 2, 0) == images[0..2];
    assert Shard(images, 2, 1) == images[2..4];
    assert Shard(images, 2, 2) == images[4..6];
  }

  // ---------------------------------------------------------------------
  // Collecting the per-shard results: `Promise.all(promises)` then `flat()`
  // ---------------------------------------------------------------------

  /** `Promise.all` followed by `flat()`: shard results arrive in any order
      (`order` lists the shard index of each arrival, every shard arriving),
      each is stored in its shard's slot, and the slots are flattened in
      shard order once all have arrived. */
  method CollectResults<R>(shardResults: seq<seq<R>>, order: seq<nat>) returns (all: seq<R>)
    requires forall a :: 0 <= a < |order| ==> order[a] < |shardResults|
    requires forall i :: 0 <= i < |shardResults| ==> i in order
    ensures all == Flatten(shardResults)
  {
    var slots: seq<seq<R>> := seq(|shardResults|, _ => []);
    for a := 0 to |order|
      invariant |slots| == |shardResults|
      invariant forall i :: 0 <= i < |slots| && i in order[..a] ==> slots[i] == shardResults[i]
    {
      assert order[..a + 1] == order[..a] + [order[a]];
      slots := slots[order[a] := shardResults[order[a]]];
    }
    assert order[..|order|] == order;
    assert slots == shardResults;
    all := Flatten(slots);
  }

  // ---------------------------------------------------------------------
  // End to end: sharding, per-shard processing, collection
  // ---------------------------------------------------------------------

  /** The records every shard worker returns, given each image's outcome
      sharded the same way as the images. */
  function ShardRecords(imageShards: seq<seq<string>>, outcomeShards: seq<seq<Outcome>>): (r: seq<seq<ImageResult>>)
    requires |imageShards| == |outcomeShards|
    requires forall j :: 0 <= j < |imageShards| ==> |imageShards[j]| == |outcomeShards[j]|
    ensures |r| == |imageShards|
  {
    seq(|imageShards|, j requires 0 <= j < |imageShards| =>
      ShardWorker.Records(imageShards[j], outcomeShards[j], |imageShards[j]|))
  }

  lemma RecordsAppend(a: seq<string>, b: seq<string>, oa: seq<Outcome>, ob: seq<Outcome>)
    requires |a| == |oa| && |b| == |ob|
    ensures ShardWorker.Records(a + b, oa + ob, |a + b|)
         == ShardWorker.Records(a, oa, |a|) + ShardWorker.Records(b, ob, |b|)
  {
    var lhs := ShardWorker.Records(a + b, oa + ob, |a + b|);
    var rhs := ShardWorker.Records(a, oa, |a|) + ShardWorker.Records(b, ob, |b|);
    forall i | 0 <= i < |lhs| ensures lhs[i] == rhs[i] {
      if i >= |a| {
        assert (a + b)[i] == b[i - |a|] && (oa + ob)[i] == ob[i - |a|];
      }
    }
  }

  lemma {:induction false} FlattenShardRecords(imageShards: seq<seq<string>>, outcomeShards: seq<seq<Outcome>>)
    requires |imageShards| == |outcomeShards|
    requires forall j :: 0 <= j < |imageShards| ==> |imageShards[j]| == |outcomeShards[j]|
    ensures |Flatten(imageShards)| == |Flatten(outcomeShards)|
    ensures Flatten(ShardRecords(imageShards, outcomeShards))
         == ShardWorker.Records(Flatten(imageShards), Flatten(outcomeShards), |Flatten(imageShards)|)
    decreases |imageShards|
  {
    if imageShards != [] {
      var n := |imageShards| - 1;
      var is', os' := imageShards[..n], outcomeShards[..n];
      FlattenShardRecords(is', os');
      var rs := ShardRecords(imageShards, outcomeShards);
      assert rs[..n] == ShardRecords(is', os');
      assert Flatten(rs) == Flatten(ShardRecords(is', os')) + rs[n];
      RecordsAppend(Flatten(is'), imageShards[n], Flatten(os'), outcomeShards[n]);
    }
  }

  /** Two inputs of the same length are cut at the same places. */
  lemma {:induction false} ShardsAlign<A, B>(a: seq<A>, b: seq<B>, per: nat, k: nat)
    requires |a| == |b|
    ensures |ShardsUpTo(a, per, k)| == |ShardsUpTo(b, per, k)|
    ensures forall j :: 0 <= j < |ShardsUpTo(a, per, k)| ==>
      |ShardsUpTo(a, per, k)[j]| == |ShardsUpTo(b, per, k)[j]|
  {
    if k > 0 {
      ShardsAlign(a, b, per, k - 1);
    }
  }

  /** The final list of `processMultipleWorkers` has one record per input
      image, in input order, whatever order the shards finish in: it equals
      what a single worker would produce for the whole list. */
  lemma ResultsInInputOrder(images: seq<string>, outcomes: seq<Outcome>, numWorkers: nat)
    requires numWorkers > 0 && |outcomes| == |images|
    ensures var imageShards := Shards(images, numWorkers);
      var outcomeShards := Shards(outcomes, numWorkers);
      && |imageShards| == |outcomeShards|
      && (forall j :: 0 <= j < |imageShards| ==> |imageShards[j]| == |outcomeShards[j]|)
      && Flatten(ShardRecords(imageShards, outcomeShards))
         == ShardWorker.Records(images, outcomes, |images|)
  {
    var per := ImagesPerWorker(|images|, numWorkers);
    ShardsAlign(images, outcomes, per, numWorkers);
    ShardsCoverInput(images, numWorkers);
    ShardsCoverInput(outcomes, numWorkers);
    FlattenShardRecords(Shards(images, numWorkers), Shards(outcomes, numWorkers));
  }
}
