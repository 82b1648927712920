/** One speaker's sample queue: decoded frames and gap silence go in at the back,
playback takes from the front, and the length is capped. */
module SpeakerQueue {

  const MAX_BUFFER_SAMPLES: nat := 19_200

  type Samples = seq<real>

  datatype QueueOp =
    | Silence(requested: nat)
    | Push(frame: Samples)
    | Drain(needed: nat)
    | Discard

  function Min(a: nat, b: nat): nat {
    if a < b then a else b
  }

  function Zeros(n: nat): (s: Samples)
    ensures |s| == n
    ensures forall i :: 0 <= i < n ==> s[i] == 0.0
  {
    if n == 0 then [] else Zeros(n - 1) + [0.0]
  }

  /** Silence fills at most the free room. */
  function WithSilence(q: Samples, requested: nat): Samples {
    q + Zeros(Min(requested, if |q| < MAX_BUFFER_SAMPLES then MAX_BUFFER_SAMPLES - |q| else 0))
  }

  function Excess(n: nat): nat {
    if n > MAX_BUFFER_SAMPLES then n - MAX_BUFFER_SAMPLES else 0
  }

  /** A frame is always taken; the oldest samples over the cap are dropped. */
  function Pushed(q: Samples, frame: Samples): Samples {
    (q + frame)[Excess(|q| + |frame|)..]
  }

  function Drained(q: Samples, needed: nat): Samples {
    q[Min(|q|, needed)..]
  }

  function After(q: Samples, op: QueueOp): Samples {
    match op
    case Silence(n) => WithSilence(q, n)
    case Push(f) => Pushed(q, f)
    case Drain(n) => Drained(q, n)
    case Discard => []
  }

  /** What an operation appends. */
  function Added(q: Samples, op: QueueOp): Samples {
    match op
    case Silence(_) => WithSilence(q, op.requested)[|q|..]
    case Push(f) => f
    case _ => []
  }

  /** What an operation takes away, oldest first. */
  function Removed(q: Samples, op: QueueOp): Samples {
    match op
    case Silence(_) => []
    case Push(f) => (q + f)[..Excess(|q| + |f|)]
    case Drain(n) => q[..Min(|q|, n)]
    case Discard => q
  }

  function RunQueue(q: Samples, ops: seq<QueueOp>): Samples
    decreases |ops|
  {
    if ops == [] then q else RunQueue(After(q, ops[0]), ops[1..])
  }

  function AllAdded(q: Samples, ops: seq<QueueOp>): Samples
    decreases |ops|
  {
    if ops == [] then [] else Added(q, ops[0]) + AllAdded(After(q, ops[0]), ops[1..])
  }

  function AllRemoved(q: Samples, ops: seq<QueueOp>): Samples
    decreases |ops|
  {
    if ops == [] then [] else Removed(q, ops[0]) + AllRemoved(After(q, ops[0]), ops[1..])
  }

  lemma StepConserves(q: Samples, op: QueueOp)
    ensures q + Added(q, op) == Removed(q, op) + After(q, op)
    ensures |q| <= MAX_BUFFER_SAMPLES ==> |After(q, op)| <= MAX_BUFFER_SAMPLES
  {
    match op
    case Silence(n) => assert WithSilence(q, n) == q + WithSilence(q, n)[|q|..];
    case Push(f) =>
      var all, k := q + f, Excess(|q| + |f|);
      assert all == all[..k] + all[k..];
    case Drain(n) =>
      var k := Min(|q|, n);
      assert q == q[..k] + q[k..];
    case Discard =>
  }

  lemma ConcatAssociates(a: Samples, b: Samples, c: Samples)
    ensures (a + b) + c == a + (b + c)
  {
  }

  lemma ChainConserves(q: Samples, a: Samples, r: Samples, q1: Samples, a': Samples, r': Samples, q2: Samples)
    requires q + a == r + q1 && q1 + a' == r' + q2
    ensures q + (a + a') == (r + r') + q2
  {
    ConcatAssociates(q, a, a');
    ConcatAssociates(r, q1, a');
    ConcatAssociates(r, r', q2);
  }

  /** Everything that was ever queued is accounted for, in order: first what left
  (played, evicted or discarded, oldest first), then what is still queued. The
  queue is a contiguous tail of what was appended and stays within the cap. */
  lemma {:induction false} QueueConserves(q: Samples, ops: seq<QueueOp>)
    ensures q + AllAdded(q, ops) == AllRemoved(q, ops) + RunQueue(q, ops)
    ensures |q| <= MAX_BUFFER_SAMPLES ==> |RunQueue(q, ops)| <= MAX_BUFFER_SAMPLES
    decreases |ops|
  {
    if ops != [] {
      var q1 := After(q, ops[0]);
      StepConserves(q, ops[0]);
      QueueConserves(q1, ops[1..]);
      ChainConserves(q, Added(q, ops[0]), Removed(q, ops[0]), q1, AllAdded(q1, ops[1..]),
                     AllRemoved(q1, ops[1..]), RunQueue(q1, ops[1..]));
    }
  }

  /** Gap silence removes nothing, and appends only zeros. */
  lemma SilenceRemovesNothing(q: Samples, requested: nat)
    ensures q <= WithSilence(q, requested)
    ensures forall i :: |q| <= i < |WithSilence(q, requested)| ==> WithSilence(q, requested)[i] == 0.0
    ensures |WithSilence(q, requested)| == if |q| > 19_200 then |q| else Min(|q| + requested, 19_200)
  {
  }

  /** A frame evicts exactly the oldest samples over the cap: what stays is the
  longest tail that fits, and a frame that fits is never cut. */
  lemma PushEvictsOldest(q: Samples, frame: Samples)
    requires |q| <= MAX_BUFFER_SAMPLES
    ensures |Pushed(q, frame)| == Min(|q| + |frame|, MAX_BUFFER_SAMPLES)
    ensures Pushed(q, frame) == (q + frame)[|q| + |frame| - |Pushed(q, frame)|..]
    ensures |frame| <= MAX_BUFFER_SAMPLES ==> Pushed(q, frame) == q[Excess(|q| + |frame|)..] + frame
  {
  }

  lemma RunShort(q: Samples, a: QueueOp, b: QueueOp)
    ensures RunQueue(q, [a]) == After(q, a)
    ensures RunQueue(q, [a, b]) == After(After(q, a), b)
  {
    assert [a][1..] == [] && [b][1..] == [];
    assert [a, b][1..] == [b];
    assert RunQueue(q, [a, b]) == RunQueue(After(q, a), [b]);
    assert RunQueue(After(q, a), [b]) == RunQueue(After(After(q, a), b), []);
  }

  lemma {:induction false} RunQueueConcat(q: Samples, a: seq<QueueOp>, b: seq<QueueOp>)
    ensures RunQueue(q, a + b) == RunQueue(RunQueue(q, a), b)
    ensures AllAdded(q, a + b) == AllAdded(q, a) + AllAdded(RunQueue(q, a), b)
    ensures AllRemoved(q, a + b) == AllRemoved(q, a) + AllRemoved(RunQueue(q, a), b)
    decreases |a|
  {
    if a == [] {
      assert a + b == b;
    } else {
      assert (a + b)[0] == a[0] && (a + b)[1..] == a[1..] + b;
      var q1 := After(q, a[0]);
      RunQueueConcat(q1, a[1..], b);
      ConcatAssociates(Added(q, a[0]), AllAdded(q1, a[1..]), AllAdded(RunQueue(q, a), b));
      ConcatAssociates(Removed(q, a[0]), AllRemoved(q1, a[1..]), AllRemoved(RunQueue(q, a), b));
    }
  }
}
