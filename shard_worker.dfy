/** The static-shard worker script (worker.js): it is handed a list of image
    names, processes them one after another, turns each failure into a
    "failed" record, posts a progress message after every success and one
    final message with all records. */
module ShardWorker {
  import opened Messages

  // ---------------------------------------------------------------------
  // The output-name rule: "resized_" + name.replace("svg", "jpg")
  // ---------------------------------------------------------------------

  predicate OccursAt(s: string, pat: string, j: nat)
  {
    j + |pat| <= |s| && s[j..j + |pat|] == pat
  }

  /** The first position at which `pat` occurs in `s`, as `indexOf` finds it. */
  function IndexOf(s: string, pat: string): (r: Option<nat>)
    ensures r.Some? ==> OccursAt(s, pat, r.value)
    ensures r.Some? ==> forall j :: 0 <= j < r.value ==> !OccursAt(s, pat, j)
    ensures r.None? ==> forall j :: 0 <= j <= |s| ==> !OccursAt(s, pat, j)
    decreases |s|
  {
    if |pat| > |s| then None
    else if s[..|pat|] == pat then Some(0)
    else
      match IndexOf(s[1..], pat)
      case None =>
        assert forall j :: 1 <= j <= |s| ==> (OccursAt(s, pat, j) <==> OccursAt(s[1..], pat, j - 1));
        None
      case Some(k) =>
        assert forall j :: 1 <= j <= |s| ==> (OccursAt(s, pat, j) <==> OccursAt(s[1..], pat, j - 1));
        Some(k + 1)
  }

  /** `s.replace(pat, rep)` with a string pattern: only the first occurrence
      is replaced; with no occurrence the string is returned unchanged. */
  function ReplaceFirst(s: string, pat: string, rep: string): string
  {
    match IndexOf(s, pat)
    case None => s
    case Some(i) => s[..i] + rep + s[i + |pat|..]
  }

  const Prefix: string := "resized_"

  /** The `output` name the shard worker reports for `imageName`. */
  function OutputName(imageName: string): string
  {
    Prefix + ReplaceFirst(imageName, "svg", "jpg")
  }

  /** The output name is "resized_" followed by the input name, of the same
      length, where the first "svg" (if any) reads "jpg" and every other
      character is the input's own. */
  lemma OutputNameShape(imageName: string)
    ensures var out := OutputName(imageName);
      && |out| == |Prefix| + |imageName|
      && out[..|Prefix|] == "resized_"
      && match IndexOf(imageName, "svg")
         case None =>
           out[|Prefix|..] == imageName
         case Some(i) =>
           && out[|Prefix| + i..|Prefix| + i + 3] == "jpg"
           && (forall j :: 0 <= j < |imageName| && !(i <= j < i + 3) ==> out[|Prefix| + j] == imageName[j])
  {
    var out := OutputName(imageName);
    match IndexOf(imageName, "svg")
    case None =>
    case Some(i) =>
      var tail := ReplaceFirst(imageName, "svg", "jpg");
      assert tail == imageName[..i] + "jpg" + imageName[i + 3..];
      assert out == Prefix + tail;
      forall j | 0 <= j < |imageName| && !(i <= j < i + 3)
        ensures out[|Prefix| + j] == imageName[j]
      {
        assert out[|Prefix| + j] == tail[j];
      }
  }

  // ---------------------------------------------------------------------
  // Records and messages
  // ---------------------------------------------------------------------

  /** The record `processImage` returns when the resize succeeds. */
  function SuccessRecord(imageName: string, processingTime: int): ImageResult
  {
    ImageResult(imageName, Some(OutputName(imageName)), Some(processingTime), Success, None)
  }

  /** The record the loop pushes for one image, whatever the outcome. */
  function ItemRecord(image: string, outcome: Outcome): ImageResult
  {
    match outcome
    case Done(t) => SuccessRecord(image, t)
    case Threw(msg) => FailedRecord(image, msg)
  }

  /** A record keeps its image as `input`; it is "failed" exactly when the
      call threw, and then has a null output and the error's message;
      otherwise it names the renamed output and has no error. */
  lemma ItemRecordShape(image: string, outcome: Outcome)
    ensures var r := ItemRecord(image, outcome);
      && r.input == image
      && (r.status == Failed <==> outcome.Threw?)
      && (outcome.Threw? ==> r.output == None && r.error == Some(outcome.message) && r.processingTime == None)
      && (outcome.Done? ==> r.output == Some(OutputName(image)) && r.error == None
                            && r.processingTime == Some(outcome.processingTime))
  {
  }

  /** Messages the shard worker posts to the main thread. */
  datatype ShardMessage =
    | Progress(processed: nat, total: nat, current: string)
    | ResultBatch(results: seq<ImageResult>)

  /** The `results` array after the first `k` iterations of the loop. */
  function Records(images: seq<string>, outcomes: seq<Outcome>, k: nat): (r: seq<ImageResult>)
    requires |outcomes| == |images| && k <= |images|
    ensures |r| == k
    ensures forall i :: 0 <= i < k ==> r[i] == ItemRecord(images[i], outcomes[i])
  {
    if k == 0 then []
    else Records(images, outcomes, k - 1) + [ItemRecord(images[k - 1], outcomes[k - 1])]
  }

  /** The progress messages posted during the first `k` iterations. */
  function ProgressPosts(images: seq<string>, outcomes: seq<Outcome>, k: nat): seq<ShardMessage>
    requires |outcomes| == |images| && k <= |images|
  {
    if k == 0 then []
    else
      ProgressPosts(images, outcomes, k - 1)
      + (if outcomes[k - 1].Done? then [Progress(k, |images|, images[k - 1])] else [])
  }

  /** The shard worker's `main`: one record per image, in order, and one
      progress post per successful image, then the final result post. */
  method RunShard(images: seq<string>, outcomes: seq<Outcome>)
    returns (results: seq<ImageResult>, posted: seq<ShardMessage>)
    requires |outcomes| == |images|
    ensures results == Records(images, outcomes, |images|)
    ensures posted == ProgressPosts(images, outcomes, |images|) + [ResultBatch(results)]
  {
    results := [];
    posted := [];
    for i := 0 to |images|
      invariant results == Records(images, outcomes, i)
      invariant posted == ProgressPosts(images, outcomes, i)
    {
      var image := images[i];
      match outcomes[i]
      case Done(t) =>
        results := results + [SuccessRecord(image, t)];
        posted := posted + [Progress(i + 1, |images|, image)];
      case Threw(msg) =>
        results := results + [FailedRecord(image, msg)];
    }
    posted := posted + [ResultBatch(results)];
  }

  /** One record per image, in input order; a failure on one image does not
      stop the later ones, it only marks its own record "failed". */
  lemma RecordsOnePerImage(images: seq<string>, outcomes: seq<Outcome>)
    requires |outcomes| == |images|
    ensures var rs := Records(images, outcomes, |images|);
      && |rs| == |images|
      && (forall i :: 0 <= i < |images| ==> rs[i].input == images[i])
      && (forall i :: 0 <= i < |images| ==> (rs[i].status == Failed <==> outcomes[i].Threw?))
  {
    var rs := Records(images, outcomes, |images|);
    forall i | 0 <= i < |images|
      ensures rs[i].input == images[i] && (rs[i].status == Failed <==> outcomes[i].Threw?)
    {
      ItemRecordShape(images[i], outcomes[i]);
    }
  }

  /** Progress is posted after a successful image and never after a failed
      one: every post names a successful image `processed - 1` among the
      first `k`, with `total` the whole list's length; every successful image
      has its post; and the posts come in image order. */
  lemma {:induction false} ProgressExactlyForSuccesses(images: seq<string>, outcomes: seq<Outcome>, k: nat)
    requires |outcomes| == |images| && k <= |images|
    ensures var ps := ProgressPosts(images, outcomes, k);
      && (forall m :: m in ps ==>
            && m.Progress? && 1 <= m.processed <= k
            && outcomes[m.processed - 1].Done?
            && m.total == |images| && m.current == images[m.processed - 1])
      && (forall i :: 0 <= i < k && outcomes[i].Done? ==> Progress(i + 1, |images|, images[i]) in ps)
      && (forall a, b :: 0 <= a < b < |ps| ==> ps[a].processed < ps[b].processed)
  {
    if k > 0 {
      ProgressExactlyForSuccesses(images, outcomes, k - 1);
      var prev := ProgressPosts(images, outcomes, k - 1);
      var ps := ProgressPosts(images, outcomes, k);
      if outcomes[k - 1].Done? {
        assert ps == prev + [Progress(k, |images|, images[k - 1])];
        forall a, b | 0 <= a < b < |ps| ensures ps[a].processed < ps[b].processed {
          if b < |prev| {
            assert ps[a] == prev[a] && ps[b] == prev[b];
          } else {
            assert ps[a] in prev;
          }
        }
      } else {
        assert ps == prev;
      }
    }
  }

  /** Exactly one "result" message is posted; it is the last one and carries
      the full list of records. */
  lemma OneFinalResult(images: seq<string>, outcomes: seq<Outcome>)
    requires |outcomes| == |images|
    ensures var posted := ProgressPosts(images, outcomes, |images|)
                          + [ResultBatch(Records(images, outcomes, |images|))];
      && (forall j :: 0 <= j < |posted| ==> (posted[j].ResultBatch? <==> j == |posted| - 1))
      && posted[|posted| - 1].results == Records(images, outcomes, |images|)
  {
    var ps := ProgressPosts(images, outcomes, |images|);
    ProgressExactlyForSuccesses(images, outcomes, |images|);
    var posted := ps + [ResultBatch(Records(images, outcomes, |images|))];
    forall j | 0 <= j < |ps| ensures !posted[j].ResultBatch? {
      assert posted[j] == ps[j] && ps[j] in ps;
      assert ps[j].Progress?;
    }
  }
}
