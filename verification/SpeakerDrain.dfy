/** Draining all speakers into one mixed chunk.

The speaker map is visited in whatever order; each ring buffer shows its samples
as two slices cut at whatever point. The result depends on neither. */
module SpeakerDrain {
  import opened SpeakerQueue
  import opened AudioMixer

  type Volumes = map<nat, real>

  function Volume(vols: Volumes, k: nat): real {
    if k in vols then vols[k] else 1.0
  }

  function Scaled(x: real, vol: real): real {
    x * vol
  }

  /** What speaker k adds to mixed sample i. */
  function Contribution(b: Buffers, vols: Volumes, k: nat, i: nat): real
    requires k in b
  {
    if i < |b[k]| then Scaled(b[k][i], Volume(vols, k)) else 0.0
  }

  /** Mixed sample i: the sum over the speakers that still have a sample i. */
  ghost function MixSum(b: Buffers, vols: Volumes, keys: set<nat>, i: nat): real
    requires keys <= b.Keys
  {
    if keys == {} then 0.0
    else
      var k :| k in keys;
      Contribution(b, vols, k, i) + MixSum(b, vols, keys - {k}, i)
  }

  ghost function Mixed(b: Buffers, vols: Volumes, needed: nat): (s: Samples)
    ensures |s| == needed
  {
    if needed == 0 then [] else Mixed(b, vols, needed - 1) + [MixSum(b, vols, b.Keys, needed - 1)]
  }

  /** The length of the longest queue. */
  ghost function MaxLen(b: Buffers, keys: set<nat>): (m: nat)
    requires keys <= b.Keys
    ensures forall k <- keys :: |b[k]| <= m
    ensures m > 0 ==> exists k <- keys :: |b[k]| == m
  {
    if keys == {} then 0
    else
      var k :| k in keys;
      var m := MaxLen(b, keys - {k});
      Larger(m, |b[k]|)
  }

  /** The sum does not depend on which speaker comes first. */
  lemma {:induction false} MixSumPick(b: Buffers, vols: Volumes, keys: set<nat>, i: nat, k: nat)
    requires keys <= b.Keys && k in keys
    ensures MixSum(b, vols, keys, i) == Contribution(b, vols, k, i) + MixSum(b, vols, keys - {k}, i)
    decreases |keys|
  {
    var j :| j in keys && MixSum(b, vols, keys, i) == Contribution(b, vols, j, i) + MixSum(b, vols, keys - {j}, i);
    if j != k {
      MixSumPick(b, vols, keys - {j}, i, k);
      MixSumPick(b, vols, keys - {k}, i, j);
      assert keys - {j} - {k} == keys - {k} - {j};
    }
  }

  /** Each mixed sample is the sum of the speakers' samples, each times its volume;
  a speaker without an entry has volume one, and one whose queue has run out adds
  nothing. */
  lemma MixSumIs(b: Buffers, vols: Volumes, keys: set<nat>, i: nat, k: nat)
    requires keys <= b.Keys && k in keys
    ensures MixSum(b, vols, {}, i) == 0.0
    ensures MixSum(b, vols, keys, i) - MixSum(b, vols, keys - {k}, i) ==
            if i >= |b[k]| then 0.0 else if k in vols then b[k][i] * vols[k] else b[k][i]
  {
    MixSumPick(b, vols, keys, i, k);
    if i < |b[k]| && k !in vols {
      TimesOne(b[k][i]);
    }
  }

  lemma TimesOne(x: real)
    ensures Scaled(x, 1.0) == x
  {
  }

  lemma MaxLenPick(b: Buffers, keys: set<nat>, k: nat)
    requires keys <= b.Keys && k in keys
    ensures MaxLen(b, keys) == Larger(MaxLen(b, keys - {k}), |b[k]|)
  {
    var m, m' := MaxLen(b, keys), MaxLen(b, keys - {k});
    if m > 0 {
      var j :| j in keys && |b[j]| == m;
    }
    if m' > 0 {
      var j :| j in keys - {k} && |b[j]| == m';
    }
  }

  /** Past the valid count the mix is silent. */
  lemma {:induction false} SilentPastEnd(b: Buffers, vols: Volumes, keys: set<nat>, i: nat)
    requires keys <= b.Keys && MaxLen(b, keys) <= i
    ensures MixSum(b, vols, keys, i) == 0.0
    decreases |keys|
  {
    if keys != {} {
      var k :| k in keys;
      MixSumPick(b, vols, keys, i, k);
      MaxLenPick(b, keys, k);
      SilentPastEnd(b, vols, keys - {k}, i);
    }
  }

  lemma {:induction false} MixedAt(b: Buffers, vols: Volumes, needed: nat, i: nat)
    requires i < needed
    ensures Mixed(b, vols, needed)[i] == MixSum(b, vols, b.Keys, i)
  {
    if i < needed - 1 {
      MixedAt(b, vols, needed - 1, i);
    }
  }

  /** Add the first n samples of one ring buffer, read as two slices, to the mix. */
  method AddSpeaker(mix: Samples, buf: Samples, vol: real, n: nat) returns (r: Samples)
    requires n <= |buf| && n <= |mix|
    ensures |r| == |mix|
    ensures forall i :: 0 <= i < n ==> r[i] == mix[i] + Scaled(buf[i], vol)
    ensures forall i :: n <= i < |mix| ==> r[i] == mix[i]
  {
    var split: nat :| split <= |buf|;
    var a, b := buf[..split], buf[split..];
    r := mix;
    var fromA := Min(n, |a|);
    for i := 0 to fromA
      invariant |r| == |mix|
      invariant forall j :: 0 <= j < i ==> r[j] == mix[j] + Scaled(buf[j], vol)
      invariant forall j :: i <= j < |mix| ==> r[j] == mix[j]
    {
      r := r[i := r[i] + Scaled(a[i], vol)];
    }
    if fromA < n {
      var fromB := n - fromA;
      for i := 0 to fromB
        invariant |r| == |mix|
        invariant forall j :: 0 <= j < fromA + i ==> r[j] == mix[j] + Scaled(buf[j], vol)
        invariant forall j :: fromA + i <= j < |mix| ==> r[j] == mix[j]
      {
        r := r[fromA + i := r[fromA + i] + Scaled(b[i], vol)];
      }
    }
  }

  ghost predicate MixOf(b: Buffers, vols: Volumes, done: set<nat>, mix: Samples)
    requires done <= b.Keys
  {
    forall i :: 0 <= i < |mix| ==> mix[i] == MixSum(b, vols, done, i)
  }

  ghost predicate DrainedTo(b: Buffers, done: set<nat>, q: Buffers, needed: nat) {
    q.Keys == b.Keys && forall k <- b :: q[k] == if k in done then Drained(b[k], needed) else b[k]
  }

  lemma MixOneMore(b: Buffers, vols: Volumes, done: set<nat>, mix: Samples, k: nat, mix': Samples)
    requires done <= b.Keys && k in b && k !in done && MixOf(b, vols, done, mix) && |mix'| == |mix|
    requires forall i :: 0 <= i < |mix| ==> mix'[i] == mix[i] + Contribution(b, vols, k, i)
    ensures MixOf(b, vols, done + {k}, mix')
  {
    assert (done + {k}) - {k} == done;
    forall i | 0 <= i < |mix| ensures mix'[i] == MixSum(b, vols, done + {k}, i) {
      MixSumPick(b, vols, done + {k}, i, k);
    }
  }

  /** Take up to `needed` samples of one speaker into the mix. */
  method DrainOne(bufs: SpeakerBuffers, k: nat, vols: Volumes, was: Samples, ghost b: Buffers, ghost done: set<nat>)
    returns (mix: Samples, len: nat)
    requires k in b && k !in done && done <= b.Keys
    requires DrainedTo(b, done, bufs.queues, |was|) && MixOf(b, vols, done, was)
    modifies bufs
    ensures len == |b[k]| && |mix| == |was|
    ensures DrainedTo(b, done + {k}, bufs.queues, |was|) && MixOf(b, vols, done + {k}, mix)
  {
    var buf := bufs.queues[k];
    mix, len := was, |buf|;
    if buf != [] {
      var n := Min(|buf|, |was|);
      mix := AddSpeaker(was, buf, Volume(vols, k), n);
      bufs.queues := bufs.queues[k := buf[n..]];
    }
    MixOneMore(b, vols, done, was, k, mix);
  }

  method BatchDrain(bufs: SpeakerBuffers, vols: Volumes, needed: nat)
    returns (mix: Samples, any: bool, maxDrained: nat, maxBefore: nat)
    modifies bufs
    ensures bufs.queues == DrainAll(old(bufs.queues), needed)
    ensures bufs.queues.Keys == old(bufs.queues).Keys
    ensures forall k <- bufs.queues :: bufs.queues[k] == old(bufs.queues)[k][Min(|old(bufs.queues)[k]|, needed)..]
    ensures mix == Mixed(old(bufs.queues), vols, needed)
    ensures forall i: nat | i < needed :: mix[i] == MixSum(old(bufs.queues), vols, old(bufs.queues).Keys, i)
    ensures maxBefore == MaxLen(old(bufs.queues), old(bufs.queues).Keys)
    ensures maxDrained == Min(maxBefore, needed)
    ensures any <==> maxBefore > 0
  {
    mix := Zeros(needed);
    any, maxDrained, maxBefore := false, 0, 0;
    ghost var b, done := bufs.queues, {};
    var todo := bufs.queues.Keys;
    while todo != {}
      invariant done <= b.Keys && todo == b.Keys - done && todo <= b.Keys
      invariant |mix| == needed && DrainedTo(b, done, bufs.queues, needed) && MixOf(b, vols, done, mix)
      invariant maxBefore == MaxLen(b, done) && maxDrained == Min(maxBefore, needed)
      invariant any <==> maxBefore > 0
      decreases todo
    {
      var k :| k in todo;
      var len;
      mix, len := DrainOne(bufs, k, vols, mix, b, done);
      OneFewer(b.Keys, done, k);
      MaxLenPick(b, done + {k}, k);
      todo, done := todo - {k}, done + {k};
      if len > 0 {
        any := true;
        MinOfMax(maxBefore, len, needed);
        maxBefore := Larger(maxBefore, len);
        maxDrained := Larger(maxDrained, Min(len, needed));
      }
    }
    assert done == b.Keys;
    MixedWhole(b, vols, mix);
  }

  function Larger(a: nat, b: nat): nat {
    if a < b then b else a
  }

  lemma MinOfMax(a: nat, b: nat, needed: nat)
    ensures Min(Larger(a, b), needed) == Larger(Min(a, needed), Min(b, needed))
  {
  }

  lemma OneFewer(all: set<nat>, done: set<nat>, k: nat)
    requires k !in done
    ensures (all - done) - {k} == all - (done + {k})
    ensures (done + {k}) - {k} == done
  {
  }

  lemma MixedWhole(b: Buffers, vols: Volumes, mix: Samples)
    requires MixOf(b, vols, b.Keys, mix)
    ensures mix == Mixed(b, vols, |mix|)
  {
    forall i | 0 <= i < |mix| ensures mix[i] == Mixed(b, vols, |mix|)[i] {
      MixedAt(b, vols, |mix|, i);
    }
  }
}
