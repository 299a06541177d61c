/** The pool's worker script (pool-worker.js): it posts "ready" once when it
    starts, answers every "process_image" request with exactly one
    "task_complete" carrying the request's `taskId`, turns a failure into a
    "failed" result, and ignores every other request. */
module PoolWorker {
  import opened Messages

  /** The record `processImage` returns when the job succeeds. */
  function SuccessRecord(imageName: string, processingTime: int): ImageResult
  {
    ImageResult(imageName, Some("resized_" + imageName), Some(processingTime), Success, None)
  }

  /** The reply the message handler posts for one request, given what the
      image call did; `None` when the handler posts nothing. */
  function Reply(request: ToWorker, outcome: Outcome): (r: Option<FromWorker>)
    ensures r.Some? <==> request.ProcessImage?
    ensures r.Some? ==> r.value.TaskComplete? && r.value.taskId == request.taskId
  {
    match request
    case ProcessImage(taskId, image, _) =>
      (match outcome
       case Done(t) => Some(TaskComplete(taskId, SuccessRecord(image, t)))
       case Threw(msg) => Some(TaskComplete(taskId, FailedRecord(image, msg))))
    case OtherRequest(_) => None
  }

  /** The result carried by a reply: the request's image as `input`; on
      success the output "resized_" + image and status "success"; on failure
      a null output, status "failed" and the error's message. */
  lemma ReplyResultShape(request: ToWorker, outcome: Outcome)
    requires request.ProcessImage?
    ensures var res := Reply(request, outcome).value.result;
      && res.input == request.image
      && (outcome.Done? ==>
            res.output == Some("resized_" + request.image) && res.status == Success
            && res.error == None && res.processingTime == Some(outcome.processingTime))
      && (outcome.Threw? ==>
            res.output == None && res.status == Failed && res.error == Some(outcome.message))
  {
  }

  /** The requests the handler answers, in arrival order. */
  function Jobs(inbox: seq<ToWorker>): (r: seq<ToWorker>)
    ensures |r| <= |inbox|
    ensures forall m :: m in r ==> m in inbox && m.ProcessImage?
    ensures forall m :: m in inbox && m.ProcessImage? ==> m in r
  {
    if inbox == [] then []
    else
      assert inbox == [inbox[0]] + inbox[1..];
      (if inbox[0].ProcessImage? then [inbox[0]] else []) + Jobs(inbox[1..])
  }

  /** The handler looks at requests one at a time: the jobs of a
      concatenation are the jobs of each part, in order. */
  lemma {:induction false} JobsAppend(a: seq<ToWorker>, b: seq<ToWorker>)
    ensures Jobs(a + b) == Jobs(a) + Jobs(b)
  {
    if a == [] {
      assert a + b == b;
    } else {
      var ab := a + b;
      assert ab[0] == a[0];
      assert ab[1..] == a[1..] + b;
      JobsAppend(a[1..], b);
    }
  }

  /** On one request, the jobs are that request exactly when it is a
      "process_image". */
  lemma JobsSingleton(m: ToWorker)
    ensures Jobs([m]) == if m.ProcessImage? then [m] else []
  {
    assert [m][1..] == [];
  }

  /** The jobs of a non-empty inbox: those before its last request, then
      the last request if it is a "process_image". */
  lemma JobsLast(inbox: seq<ToWorker>)
    requires inbox != []
    ensures var n := |inbox| - 1;
      Jobs(inbox) == Jobs(inbox[..n]) + (if inbox[n].ProcessImage? then [inbox[n]] else [])
  {
    var n := |inbox| - 1;
    var front, last := inbox[..n], [inbox[n]];
    assert inbox == front + last;
    JobsAppend(front, last);
    JobsSingleton(inbox[n]);
  }

  /** The replies posted for the requests of `inbox` in order, the `i`-th
      request's image call having ended as `outcomes[i]`. Requests are
      answered one at a time: the pool never sends a second request to a
      worker before the first is answered. */
  function Replies(inbox: seq<ToWorker>, outcomes: seq<Outcome>): seq<FromWorker>
    requires |outcomes| == |inbox|
  {
    if inbox == [] then []
    else
      var n := |inbox| - 1;
      Replies(inbox[..n], outcomes[..n])
      + (match Reply(inbox[n], outcomes[n]) case Some(m) => [m] case None => [])
  }

  /** Everything the worker posts: "ready" at start, then the replies. */
  function Transcript(inbox: seq<ToWorker>, outcomes: seq<Outcome>): seq<FromWorker>
    requires |outcomes| == |inbox|
  {
    [Ready] + Replies(inbox, outcomes)
  }

  /** One "task_complete" per "process_image" request, in request order, the
      `k`-th carrying the `k`-th request's task id and image; nothing else is
      posted by the handler. */
  lemma {:induction false} RepliesMatchJobs(inbox: seq<ToWorker>, outcomes: seq<Outcome>)
    requires |outcomes| == |inbox|
    ensures var rs, js := Replies(inbox, outcomes), Jobs(inbox);
      && |rs| == |js|
      && forall k :: 0 <= k < |rs| ==>
           && rs[k].TaskComplete?
           && rs[k].taskId == js[k].taskId
           && rs[k].result.input == js[k].image
  {
    if inbox != [] {
      var n := |inbox| - 1;
      RepliesMatchJobs(inbox[..n], outcomes[..n]);
      var rs, js := Replies(inbox, outcomes), Jobs(inbox);
      var rs', js' := Replies(inbox[..n], outcomes[..n]), Jobs(inbox[..n]);
      JobsLast(inbox);
      if inbox[n].ProcessImage? {
        ReplyResultShape(inbox[n], outcomes[n]);
        assert rs == rs' + [Reply(inbox[n], outcomes[n]).value];
        assert js == js' + [inbox[n]];
      } else {
        assert rs == rs' && js == js';
      }
    }
  }

  /** "ready" is posted exactly once, before every reply. */
  lemma ReadyFirstAndOnce(inbox: seq<ToWorker>, outcomes: seq<Outcome>)
    requires |outcomes| == |inbox|
    ensures var t := Transcript(inbox, outcomes);
      && |t| == 1 + |Jobs(inbox)|
      && forall j :: 0 <= j < |t| ==> (t[j] == Ready <==> j == 0)
  {
    RepliesMatchJobs(inbox, outcomes);
    var t := Transcript(inbox, outcomes);
    forall j | 0 < j < |t| ensures t[j] != Ready {
      assert t[j] == Replies(inbox, outcomes)[j - 1];
    }
  }

  /** A request whose type is not "process_image" adds nothing. */
  lemma IgnoredRequest(inbox: seq<ToWorker>, outcomes: seq<Outcome>, other: ToWorker, o: Outcome)
    requires |outcomes| == |inbox| && !other.ProcessImage?
    ensures Transcript(inbox + [other], outcomes + [o]) == Transcript(inbox, outcomes)
  {
    assert (inbox + [other])[..|inbox|] == inbox;
    assert (outcomes + [o])[..|outcomes|] == outcomes;
  }
}
