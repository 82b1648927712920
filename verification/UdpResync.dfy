/** The UDP reader task: it decrypts datagrams, applies nonces that the server
sends, and asks the server for a nonce after a row of failures.

Times are milliseconds of a monotonic clock; what the sockets and channels
deliver is the sequence of events. */
module UdpResync {
  import opened Bytes
  import opened Gf128
  import opened Ocb2Mode
  import opened Ocb2State
  import opened Ocb2Runs
  import Ocb2Delivery

  const FAILURE_THRESHOLD: nat := 50
  const COOLDOWN_MS: nat := 5000
  const U32_MAX: nat := 0xFFFF_FFFF

  /** What becomes of an attempt to queue a request. */
  datatype Channel = Room | Full | Gone

  datatype Event =
    | ServerNonce(nonce: Octets)
    | ResyncChannelClosed
      /** A datagram; the clock when the cooldown is looked at, and when a request
      has been queued; the state of the outbound channel; whether the work queue
      still takes messages. */
    | Datagram(data: Octets, checked: int, sent: int, outbound: Channel, queueOpen: bool)
    | SocketClosed
    | ConnectionReset
    | ReadError

  /** What the reader did, in order. */
  datatype Mark =
    | Failed(at: int)
    | Delivered(plain: Octets)
    | NonceApplied
    | Requested(at: int)

  datatype Udp = Udp(rx: Receiver, failures: nat, last: int, log: seq<Mark>, running: bool)

  function Resynced(rx: Receiver, nonce: Octets): Receiver {
    if |nonce| == 16 then rx.(iv := nonce) else rx
  }

  function SaturatingIncrement(n: nat): nat {
    if n < U32_MAX then n + 1 else n
  }

  /** The reaction to a datagram that does not decrypt. */
  function Fail(u: Udp, checked: int, sent: int, outbound: Channel): Udp {
    var f := SaturatingIncrement(u.failures);
    var noted := u.(failures := f, log := u.log + [Failed(checked)]);
    if f < FAILURE_THRESHOLD || checked - u.last < COOLDOWN_MS then noted
    else match outbound
      case Room => noted.(failures := 0, last := sent, log := noted.log + [Requested(sent)])
      case Full => noted
      case Gone => noted.(running := false)
  }

  function React(step: Step, u: Udp, e: Event): Udp {
    match e
    case ServerNonce(nonce) =>
      u.(rx := Resynced(u.rx, nonce), failures := 0, log := u.log + [NonceApplied])
    case Datagram(data, checked, sent, outbound, queueOpen) =>
      var (rx', o) := step(u.rx, data);
      if o.Ok? then Udp(rx', 0, u.last, u.log + [Delivered(o.value)], queueOpen)
      else Fail(u.(rx := rx'), checked, sent, outbound)
    case ConnectionReset => u
    case ResyncChannelClosed => u.(running := false)
    case SocketClosed => u.(running := false)
    case ReadError => u.(running := false)
  }

  function Run(step: Step, u: Udp, es: seq<Event>): Udp
    decreases |es|
  {
    if es == [] || !u.running then u else Run(step, React(step, u, es[0]), es[1..])
  }

  // -- What the log shows ---------------------------------------------

  /** Failures since the last success, applied nonce or request. */
  function Streak(log: seq<Mark>): (n: nat)
    ensures n <= |log|
    ensures forall j :: |log| - n <= j < |log| ==> log[j].Failed?
  {
    if log == [] || !log[|log| - 1].Failed? then 0 else Streak(log[..|log| - 1]) + 1
  }

  /** The time of the last request; `boot` before the first one. */
  function LastRequest(log: seq<Mark>, boot: int): int {
    if log == [] then boot
    else if log[|log| - 1].Requested? then log[|log| - 1].at
    else LastRequest(log[..|log| - 1], boot)
  }

  function Requests(log: seq<Mark>): nat {
    if log == [] then 0
    else Requests(log[..|log| - 1]) + if log[|log| - 1].Requested? then 1 else 0
  }

  function Failures(log: seq<Mark>): nat {
    if log == [] then 0
    else Failures(log[..|log| - 1]) + if log[|log| - 1].Failed? then 1 else 0
  }

  /** Every request follows 50 failures in a row, and 5 seconds without a request. */
  ghost predicate Paced(log: seq<Mark>, boot: int) {
    forall i | 0 <= i < |log| && log[i].Requested? :: PacedAt(log, i, boot)
  }

  ghost predicate PacedAt(log: seq<Mark>, i: nat, boot: int)
    requires i < |log|
  {
    && i >= FAILURE_THRESHOLD
    && (forall j :: i - FAILURE_THRESHOLD <= j < i ==> log[j].Failed?)
    && log[i - 1].at - LastRequest(log[..i], boot) >= COOLDOWN_MS
  }

  ghost predicate Consistent(u: Udp, boot: int) {
    && u.failures == (if Streak(u.log) < U32_MAX then Streak(u.log) else U32_MAX)
    && u.last == LastRequest(u.log, boot)
    && Paced(u.log, boot)
  }

  lemma LogGrows(log: seq<Mark>, m: Mark, boot: int)
    ensures Streak(log + [m]) == if m.Failed? then Streak(log) + 1 else 0
    ensures LastRequest(log + [m], boot) == if m.Requested? then m.at else LastRequest(log, boot)
    ensures Paced(log, boot) && (m.Requested? ==> PacedAt(log + [m], |log|, boot)) ==> Paced(log + [m], boot)
  {
    var log' := log + [m];
    assert log'[..|log|] == log;
    if Paced(log, boot) && (m.Requested? ==> PacedAt(log', |log|, boot)) {
      forall i | 0 <= i < |log'| && log'[i].Requested? ensures PacedAt(log', i, boot) {
        if i < |log| {
          assert PacedAt(log, i, boot);
          assert log'[..i] == log[..i];
        }
      }
    }
  }

  lemma DueRequestIsPaced(log: seq<Mark>, sent: int, boot: int)
    requires Streak(log) >= FAILURE_THRESHOLD
    requires log[|log| - 1].at - LastRequest(log, boot) >= COOLDOWN_MS
    ensures PacedAt(log + [Requested(sent)], |log|, boot)
  {
    var log' := log + [Requested(sent)];
    assert log'[..|log|] == log;
    assert forall j :: |log| - FAILURE_THRESHOLD <= j < |log| ==> log'[j] == log[j] && log[j].Failed?;
  }

  /** A failure now would be the 50th or a later one in a row, with no request in
  the last 5 seconds. */
  predicate Overdue(log: seq<Mark>, boot: int, checked: int) {
    Streak(log) + 1 >= FAILURE_THRESHOLD && checked - LastRequest(log, boot) >= COOLDOWN_MS
  }

  predicate Due(log: seq<Mark>, boot: int, checked: int, outbound: Channel) {
    Overdue(log, boot, checked) && outbound.Room?
  }

  lemma FailConsistent(u: Udp, boot: int, checked: int, sent: int, outbound: Channel)
    requires Consistent(u, boot)
    ensures Consistent(Fail(u, checked, sent, outbound), boot)
    ensures Requests(Fail(u, checked, sent, outbound).log)
         == Requests(u.log) + if Due(u.log, boot, checked, outbound) then 1 else 0
  {
    var log1 := u.log + [Failed(checked)];
    LogGrows(u.log, Failed(checked), boot);
    RequestsGrow(u.log, Failed(checked));
    if Streak(log1) >= FAILURE_THRESHOLD && checked - u.last >= COOLDOWN_MS {
      DueRequestIsPaced(log1, sent, boot);
      LogGrows(log1, Requested(sent), boot);
      RequestsGrow(log1, Requested(sent));
    }
  }

  lemma QuietConsistent(u: Udp, boot: int, rx: Receiver, m: Mark, running: bool)
    requires Consistent(u, boot) && !m.Failed? && !m.Requested?
    ensures Consistent(Udp(rx, 0, u.last, u.log + [m], running), boot)
    ensures Requests(u.log + [m]) == Requests(u.log)
  {
    LogGrows(u.log, m, boot);
    RequestsGrow(u.log, m);
  }

  /** A request goes out on exactly the datagrams that fail as the 50th or later in
  a row, at least 5 seconds after the last request, while there is room for it. */
  lemma RequestsExactlyWhenDue(step: Step, u: Udp, boot: int, e: Event)
    requires Consistent(u, boot)
    ensures Consistent(React(step, u, e), boot)
    ensures Requests(React(step, u, e).log) == Requests(u.log)
            + if e.Datagram? && step(u.rx, e.data).1.Err? && Due(u.log, boot, e.checked, e.outbound) then 1 else 0
  {
    if e.ServerNonce? {
      QuietConsistent(u, boot, Resynced(u.rx, e.nonce), NonceApplied, u.running);
    } else if e.Datagram? {
      var (rx', o) := step(u.rx, e.data);
      if o.Ok? {
        QuietConsistent(u, boot, rx', Delivered(o.value), e.queueOpen);
      } else {
        FailConsistent(u.(rx := rx'), boot, e.checked, e.sent, e.outbound);
      }
    }
  }

  lemma RequestsGrow(log: seq<Mark>, m: Mark)
    ensures Requests(log + [m]) == Requests(log) + if m.Requested? then 1 else 0
    ensures Failures(log + [m]) == Failures(log) + if m.Failed? then 1 else 0
  {
    assert (log + [m])[..|log|] == log;
  }

  /** Over every run: requests are paced, and never exceed one in 50 failures. */
  lemma {:induction false} RunIsPaced(step: Step, u: Udp, boot: int, es: seq<Event>)
    requires Consistent(u, boot)
    ensures Consistent(Run(step, u, es), boot)
    ensures FAILURE_THRESHOLD * Requests(Run(step, u, es).log) <= Failures(Run(step, u, es).log)
    decreases |es|
  {
    if es == [] || !u.running {
      FewRequests(u.log, boot);
    } else {
      RequestsExactlyWhenDue(step, u, boot, es[0]);
      RunIsPaced(step, React(step, u, es[0]), boot, es[1..]);
    }
  }

  lemma {:induction false} FewRequests(log: seq<Mark>, boot: int)
    requires Paced(log, boot)
    ensures FAILURE_THRESHOLD * Requests(log) + Streak(log) <= Failures(log)
  {
    if log != [] {
      var k := |log| - 1;
      forall i | 0 <= i < k && log[..k][i].Requested? ensures PacedAt(log[..k], i, boot) {
        assert PacedAt(log, i, boot);
        assert log[..k][..i] == log[..i];
      }
      FewRequests(log[..k], boot);
      if log[k].Requested? {
        assert PacedAt(log, k, boot);
        StreakCovers(log[..k], FAILURE_THRESHOLD);
      }
    }
  }

  lemma {:induction false} StreakCovers(log: seq<Mark>, n: nat)
    requires n <= |log| && forall j :: |log| - n <= j < |log| ==> log[j].Failed?
    ensures Streak(log) >= n
  {
    if n > 0 {
      StreakCovers(log[..|log| - 1], n - 1);
    }
  }

  /** Two successive requests: at least 5 seconds and 50 failures apart. */
  lemma {:induction false} RequestsApart(log: seq<Mark>, boot: int, i: nat, k: nat)
    requires Paced(log, boot) && i < k < |log| && log[i].Requested? && log[k].Requested?
    requires forall j :: i < j < k ==> !log[j].Requested?
    ensures k > i + FAILURE_THRESHOLD
    ensures log[k - 1].Failed? && log[k - 1].at - log[i].at >= COOLDOWN_MS
  {
    assert PacedAt(log, k, boot);
    assert i < k - FAILURE_THRESHOLD;
    LastRequestIs(log[..k], boot, i);
  }

  lemma {:induction false} LastRequestIs(log: seq<Mark>, boot: int, i: nat)
    requires i < |log| && log[i].Requested? && forall j :: i < j < |log| ==> !log[j].Requested?
    ensures LastRequest(log, boot) == log[i].at
  {
    if i < |log| - 1 {
      LastRequestIs(log[..|log| - 1], boot, i);
    }
  }

  /** A nonce that the server sends in time ends the failures: the next datagram of
  the sender is delivered, unless its history slot holds its second nonce byte,
  and the count of failures starts again in either case. */
  lemma NonceEndsFailures(step: Step, seal: Sealer, u: Udp, senderIv: Block, plain: Octets, e: Event)
    requires Ocb2Delivery.Delivers(step, seal)
    requires e.Datagram? && e.data == Wire(seal, Increment(senderIv), plain)
    ensures var next: Block := Increment(senderIv);
            var u' := React(step, React(step, u, ServerNonce(senderIv)), e);
            if u.rx.history[Num(next[0])] == next[1] then u'.failures == 1 && u'.rx.iv == senderIv
            else u'.failures == 0 && u'.rx.iv == next && u'.log == u.log + [NonceApplied] + [Delivered(plain)]
  {
    Ocb2Delivery.ResyncRecovers(step, seal, u.rx, senderIv, plain);
  }

  // -- The reader told by its log alone -------------------------------

  /** The receiver and the log, without the counters the task keeps. */
  datatype Trace = Trace(rx: Receiver, log: seq<Mark>)

  /** What an event adds to the log. */
  function Marks(step: Step, t: Trace, boot: int, e: Event): seq<Mark> {
    match e
    case ServerNonce(_) => [NonceApplied]
    case Datagram(data, checked, sent, outbound, _) =>
      (match step(t.rx, data).1
       case Ok(plain) => [Delivered(plain)]
       case Err(_) =>
         [Failed(checked)] + if Due(t.log, boot, checked, outbound) then [Requested(sent)] else [])
    case _ => []
  }

  function Follow1(step: Step, t: Trace, boot: int, e: Event): Trace {
    var rx' :=
      if e.Datagram? then step(t.rx, e.data).0
      else if e.ServerNonce? && |e.nonce| == 16 then t.rx.(iv := e.nonce)
      else t.rx;
    Trace(rx', t.log + Marks(step, t, boot, e))
  }

  /** All of the events, whatever they are. */
  function Follow(step: Step, t: Trace, boot: int, es: seq<Event>): Trace
    decreases |es|
  {
    if es == [] then t else Follow(step, Follow1(step, t, boot, es[0]), boot, es[1..])
  }

  /** The events after which the task is over. */
  predicate Ends(step: Step, t: Trace, boot: int, e: Event) {
    match e
    case ResyncChannelClosed => true
    case SocketClosed => true
    case ReadError => true
    case Datagram(data, checked, _, outbound, queueOpen) =>
      if step(t.rx, data).1.Ok? then !queueOpen else Overdue(t.log, boot, checked) && outbound.Gone?
    case _ => false
  }

  predicate NeverEnds(step: Step, t: Trace, boot: int, es: seq<Event>)
    decreases |es|
  {
    es != [] ==> !Ends(step, t, boot, es[0]) && NeverEnds(step, Follow1(step, t, boot, es[0]), boot, es[1..])
  }

  /** How many events come up to the first one that ends the task, or in all. */
  function Consumed(step: Step, t: Trace, boot: int, es: seq<Event>): (k: nat)
    ensures k <= |es| && (NeverEnds(step, t, boot, es) ==> k == |es|)
    decreases |es|
  {
    if es == [] then 0
    else if Ends(step, t, boot, es[0]) then 1
    else 1 + Consumed(step, Follow1(step, t, boot, es[0]), boot, es[1..])
  }

  function TraceOf(u: Udp): Trace {
    Trace(u.rx, u.log)
  }

  /** The counters always carry what the log shows: an event has the effect that
  the log alone prescribes, and the task is over after exactly the events that
  end it. */
  lemma RunsOnExactly(step: Step, u: Udp, boot: int, e: Event)
    requires Consistent(u, boot) && u.running
    ensures TraceOf(React(step, u, e)) == Follow1(step, TraceOf(u), boot, e)
    ensures React(step, u, e).running <==> !Ends(step, TraceOf(u), boot, e)
  {
    LogGrows(u.log, Failed(0), boot);
    if e.Datagram? && step(u.rx, e.data).1.Err? {
      var log1 := u.log + [Failed(e.checked)];
      assert log1 + [] == log1;
      assert log1 + [Requested(e.sent)] == u.log + ([Failed(e.checked)] + [Requested(e.sent)]);
      assert u.failures + 1 >= FAILURE_THRESHOLD <==> Streak(u.log) + 1 >= FAILURE_THRESHOLD;
    } else {
      assert u.log + [] == u.log;
    }
  }

  /** A whole run takes in exactly the events up to the first one that ends it, and
  is still going exactly when there is none; a run that is not ended takes in
  every event. */
  lemma {:induction false} RunConsumes(step: Step, u: Udp, boot: int, es: seq<Event>)
    requires Consistent(u, boot) && u.running
    ensures var k := Consumed(step, TraceOf(u), boot, es);
            && TraceOf(Run(step, u, es)) == Follow(step, TraceOf(u), boot, es[..k])
            && (Run(step, u, es).running <==> NeverEnds(step, TraceOf(u), boot, es))
    decreases |es|
  {
    if es != [] {
      var t, u1 := TraceOf(u), React(step, u, es[0]);
      RequestsExactlyWhenDue(step, u, boot, es[0]);
      RunsOnExactly(step, u, boot, es[0]);
      var k := Consumed(step, t, boot, es);
      assert es[..k][0] == es[0];
      assert es[..k][1..] == es[1..][..k - 1];
      if u1.running {
        RunConsumes(step, u1, boot, es[1..]);
      } else {
        assert es[1..][..0] == [];
      }
    }
  }

  // -- Nothing is passed over -----------------------------------------

  function Datagrams(es: seq<Event>): nat {
    if es == [] then 0 else (if es[0].Datagram? then 1 else 0) + Datagrams(es[1..])
  }

  function Nonces(es: seq<Event>): nat {
    if es == [] then 0 else (if es[0].ServerNonce? then 1 else 0) + Nonces(es[1..])
  }

  /** Datagrams that were delivered or failed. */
  function Answered(log: seq<Mark>): nat {
    if log == [] then 0
    else Answered(log[..|log| - 1]) + if log[|log| - 1].Failed? || log[|log| - 1].Delivered? then 1 else 0
  }

  function Applied(log: seq<Mark>): nat {
    if log == [] then 0
    else Applied(log[..|log| - 1]) + if log[|log| - 1].NonceApplied? then 1 else 0
  }

  /** The plaintexts handed on, in order. */
  function Handed(log: seq<Mark>): seq<Result<Octets>> {
    if log == [] then []
    else Handed(log[..|log| - 1]) + if log[|log| - 1].Delivered? then [Ok(log[|log| - 1].plain)] else []
  }

  lemma CountsGrow(log: seq<Mark>, m: Mark)
    ensures Answered(log + [m]) == Answered(log) + if m.Failed? || m.Delivered? then 1 else 0
    ensures Applied(log + [m]) == Applied(log) + if m.NonceApplied? then 1 else 0
    ensures Handed(log + [m]) == Handed(log) + if m.Delivered? then [Ok(m.plain)] else []
  {
    assert (log + [m])[..|log|] == log;
  }

  lemma MarksCount(step: Step, t: Trace, boot: int, e: Event)
    ensures var log := Follow1(step, t, boot, e).log;
            && Answered(log) == Answered(t.log) + (if e.Datagram? then 1 else 0)
            && Applied(log) == Applied(t.log) + (if e.ServerNonce? then 1 else 0)
            && Handed(log) == Handed(t.log)
                 + if e.Datagram? && step(t.rx, e.data).1.Ok? then [step(t.rx, e.data).1] else []
  {
    var ms := Marks(step, t, boot, e);
    if |ms| == 1 {
      assert ms == [ms[0]];
      CountsGrow(t.log, ms[0]);
    } else if |ms| == 2 {
      assert t.log + ms == t.log + [ms[0]] + [ms[1]];
      CountsGrow(t.log, ms[0]);
      CountsGrow(t.log + [ms[0]], ms[1]);
    } else {
      assert t.log + ms == t.log;
    }
  }

  /** Every datagram is delivered or noted as a failure, and every nonce of the
  server is applied. */
  lemma {:induction false} EveryEventCounts(step: Step, t: Trace, boot: int, es: seq<Event>)
    ensures Answered(Follow(step, t, boot, es).log) == Answered(t.log) + Datagrams(es)
    ensures Applied(Follow(step, t, boot, es).log) == Applied(t.log) + Nonces(es)
    decreases |es|
  {
    if es != [] {
      MarksCount(step, t, boot, es[0]);
      EveryEventCounts(step, Follow1(step, t, boot, es[0]), boot, es[1..]);
    }
  }

  function Payloads(es: seq<Event>): seq<Octets>
    requires forall e <- es :: e.Datagram?
  {
    if es == [] then [] else [es[0].data] + Payloads(es[1..])
  }

  /** Between two nonces of the server the reader hands on precisely what the
  receiver accepts, in order, and leaves it in the state these datagrams do. */
  lemma {:induction false} HandsOnWhatIsAccepted(step: Step, t: Trace, boot: int, es: seq<Event>)
    requires forall e <- es :: e.Datagram?
    ensures var (rx', os) := ReceiveAll(step, t.rx, Payloads(es));
            var t' := Follow(step, t, boot, es);
            t'.rx == rx' && Handed(t'.log) == Handed(t.log) + Accepted(os)
    decreases |es|
  {
    if es != [] {
      var t1 := Follow1(step, t, boot, es[0]);
      HandsOnWhatIsAccepted(step, t1, boot, es[1..]);
      HandsOnFirst(step, t, boot, es[0], Payloads(es[1..]));
    }
  }

  lemma HandsOnFirst(step: Step, t: Trace, boot: int, e: Event, rest: seq<Octets>)
    requires e.Datagram?
    ensures var (rx', os) := ReceiveAll(step, t.rx, [e.data] + rest);
            var t1 := Follow1(step, t, boot, e);
            var (rx1', os1) := ReceiveAll(step, t1.rx, rest);
            rx' == rx1' && Handed(t.log) + Accepted(os) == Handed(t1.log) + Accepted(os1)
  {
    MarksCount(step, t, boot, e);
    ReceiveAllCons(step, t.rx, e.data, rest);
    var (rx1, o) := step(t.rx, e.data);
    Regroup(Handed(t.log), if o.Ok? then [o] else [], Accepted(ReceiveAll(step, rx1, rest).1));
  }

  lemma Regroup<T>(a: seq<T>, b: seq<T>, c: seq<T>)
    ensures a + (b + c) == a + b + c
  {
  }

  lemma ReceiveAllCons(step: Step, rx: Receiver, data: Octets, rest: seq<Octets>)
    ensures var (rx1, o) := step(rx, data);
            var (rx', os) := ReceiveAll(step, rx, [data] + rest);
            && rx' == ReceiveAll(step, rx1, rest).0
            && Accepted(os) == (if o.Ok? then [o] else []) + Accepted(ReceiveAll(step, rx1, rest).1)
  {
    var (rx1, o) := step(rx, data);
    assert ([data] + rest)[1..] == rest;
    var os := ReceiveAll(step, rx1, rest).1;
    assert ([o] + os)[1..] == os;
  }

  // -- The task -------------------------------------------------------

  /** The reader before its first event. The clock may be too young to be set back
  by the cooldown, in which case the first request has to wait for it. */
  function Start(rx: Receiver, now: int, canSubtract: bool): Udp {
    Udp(rx, 0, if canSubtract then now - COOLDOWN_MS else now, [], true)
  }

  /** The reaction to a datagram that does not decrypt. */
  method NoteFailure(was: nat, lastRequest: int, oldLog: seq<Mark>, checked: int, sent: int, outbound: Channel, ghost rx: Receiver)
    returns (failures: nat, last: int, log: seq<Mark>, running: bool)
    ensures Udp(rx, failures, last, log, running) == Fail(Udp(rx, was, lastRequest, oldLog, true), checked, sent, outbound)
  {
    failures, last, running := SaturatingIncrement(was), lastRequest, true;
    log := oldLog + [Failed(checked)];
    if failures >= FAILURE_THRESHOLD && checked - last >= COOLDOWN_MS {
      match outbound
      case Room =>
        last := sent;
        failures, log := 0, log + [Requested(sent)];
      case Full =>
      case Gone =>
        running := false;
    }
  }

  /** One event of the task. */
  method Handle(crypt: Ocb2CryptState, e: Event, was: nat, lastRequest: int, oldLog: seq<Mark>, ghost step: Step)
    returns (failures: nat, last: int, log: seq<Mark>, running: bool)
    requires crypt.Valid() && crypt.initialized && step == StepOf(OpenerOf(crypt.cipher))
    modifies crypt`stats, crypt.decryptIv, crypt.decryptHistory
    ensures Udp(crypt.Rx(), failures, last, log, running)
         == React(step, Udp(old(crypt.Rx()), was, lastRequest, oldLog, true), e)
  {
    failures, last, log, running := was, lastRequest, oldLog, true;
    match e
    case ServerNonce(nonce) =>
      crypt.SetDecryptIv(nonce);
      failures, log := 0, log + [NonceApplied];
    case Datagram(data, checked, sent, outbound, queueOpen) =>
      var o := crypt.Decrypt(data);
      if o.Ok? {
        failures, log, running := 0, log + [Delivered(o.value)], queueOpen;
      } else {
        failures, last, log, running := NoteFailure(was, lastRequest, oldLog, checked, sent, outbound, crypt.Rx());
      }
    case ConnectionReset =>
    case _ =>
      running := false;
  }

  method ReaderLoop(crypt: Ocb2CryptState, now: int, canSubtract: bool, events: seq<Event>)
    returns (log: seq<Mark>)
    requires crypt.Valid() && crypt.initialized
    modifies crypt`stats, crypt.decryptIv, crypt.decryptHistory
    ensures var u := Run(StepOf(OpenerOf(crypt.cipher)), old(Start(crypt.Rx(), now, canSubtract)), events);
            log == u.log && crypt.Rx() == u.rx
    ensures var step := StepOf(OpenerOf(crypt.cipher));
            var t := Trace(old(crypt.Rx()), []);
            var boot := if canSubtract then now - COOLDOWN_MS else now;
            Trace(crypt.Rx(), log) == Follow(step, t, boot, events[..Consumed(step, t, boot, events)])
    ensures Paced(log, if canSubtract then now - COOLDOWN_MS else now)
    ensures FAILURE_THRESHOLD * Requests(log) <= Failures(log)
  {
    ghost var step := StepOf(OpenerOf(crypt.cipher));
    ghost var start := Start(crypt.Rx(), now, canSubtract);
    RunIsPaced(step, start, start.last, events);
    RunConsumes(step, start, start.last, events);
    log := [];
    var failures: nat := 0;
    var last := if canSubtract then now - COOLDOWN_MS else now;
    var running, i := true, 0;
    while i < |events| && running
      invariant i <= |events|
      invariant Run(step, start, events) == Run(step, Udp(crypt.Rx(), failures, last, log, running), events[i..])
    {
      failures, last, log, running := Handle(crypt, events[i], failures, last, log, step);
      assert events[i..][1..] == events[i + 1..];
      i := i + 1;
    }
  }
}
