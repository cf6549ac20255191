/**
 * The RPC client engine of lib/nfs/rpc.c: the pending-call hash table, the
 * reply dispatcher, the tick-driven retransmission state machine, and the
 * client operations rpc_init, rpc_call, rpc_timer and rpc_destroy.
 *
 * The transport and the timer are outside the model: a send is an input
 * saying whether it succeeded, and a timer firing is a call of Timer.  The
 * callbacks a call carries are recorded, in order, in the ghost log.
 */
module RpcClient {
  import opened RpcWire

  /** RPC_RETRANSMIT_AFTER: timer firings before a retransmission */
  const RetransmitAfter: nat := 3
  /** RPC_MAX_RETRANSMIT: retransmissions before giving up */
  const MaxRetransmit: nat := 60
  /** INADDR_NONE, the connected address before the first call */
  const InaddrNone: Word := 0xFFFF_FFFF

  /** The callback function pointer and its two opaque arguments */
  datatype Callback = Callback(fn: nat, arg1: nat, arg2: nat)

  /** struct rpc_call: an outstanding call and the datagram that carries it */
  datatype PendingCall = PendingCall(xid: Word, timers: nat, retries: nat, data: seq<Byte>, cb: Callback)

  /** One invocation of a call's callback; results is the reply cursor, None for NULL */
  datatype Event = Invoked(xid: Word, cb: Callback, replystat: Word, acceptstat: Word, results: Option<seq<Byte>>)

  /** errval_t results of rpc_call */
  datatype Err = SysErrOk | LwipErrMem | LwipErrBuf | SendFailed

  /** The callback of a call that timed out: status -1, -1 and no reply */
  function TimeoutEvent(c: PendingCall): Event
  {
    Invoked(c.xid, c.cb, NoAcceptStat, NoAcceptStat, None)
  }

  /** hash_function: the bucket of a transaction id */
  function Hash(xid: Word, size: nat): (h: nat)
    requires size > 0
    ensures h < size
  {
    xid % size
  }

  /** An entry belongs in bucket i and its counters are in range */
  predicate Placed(c: PendingCall, i: nat, size: nat)
  {
    size > 0 && Hash(c.xid, size) == i && c.timers < RetransmitAfter && c.retries <= MaxRetransmit
  }

  predicate BucketOk(b: seq<PendingCall>, i: nat, size: nat)
  {
    forall k :: 0 <= k < |b| ==> Placed(b[k], i, size)
  }

  /* ---------------- Finding and unlinking a call ---------------- */

  /** The position of the first call with this xid, or |b| when there is none */
  function FindCall(b: seq<PendingCall>, xid: Word): (k: nat)
    ensures k <= |b|
    ensures k < |b| ==> b[k].xid == xid
    ensures forall j :: 0 <= j < k ==> b[j].xid != xid
  {
    if b == [] then 0
    else if b[0].xid == xid then 0
    else 1 + FindCall(b[1..], xid)
  }

  /** The search of rpc_recv_handler along a bucket for the call with the reply's xid */
  method FindPending(b: seq<PendingCall>, xid: Word) returns (k: nat)
    ensures k == FindCall(b, xid)
  {
    k := 0;
    while k < |b| && b[k].xid != xid
      invariant k <= |b|
      invariant forall j :: 0 <= j < k ==> b[j].xid != xid
    {
      k := k + 1;
    }
  }

  /** Unlinking a call leaves every other call of the bucket where it was placed */
  lemma UnlinkPlaced(b: seq<PendingCall>, k: nat, i: nat, size: nat)
    requires k < |b| && BucketOk(b, i, size)
    ensures BucketOk(b[..k] + b[k + 1..], i, size)
  {
    var rest := b[..k] + b[k + 1..];
    assert forall j :: 0 <= j < |rest| ==> rest[j] == b[if j < k then j else j + 1];
  }

  /* ---------------- Replies ---------------- */

  datatype Delivery = Delivery(bucket: seq<PendingCall>, events: seq<Event>)

  /** The bucket rpc_recv_handler looks in for a datagram (any bucket when it is too short) */
  function ReplyBucket(d: seq<Byte>, size: nat): (h: nat)
    requires size > 0
    ensures h < size
  {
    if |d| < 12 then 0 else Hash(WordAt(d, 0), size)
  }

  /** A datagram rpc_recv_handler drops before touching the table */
  predicate Ignored(b: seq<PendingCall>, d: seq<Byte>)
  {
    |d| < 12 || WordAt(d, 4) != MsgReply || FindCall(b, WordAt(d, 0)) == |b|
  }

  /**
   * What rpc_recv_handler does to the bucket its xid hashes to and which
   * callback it invokes.
   */
  function Deliver(b: seq<PendingCall>, d: seq<Byte>): (r: Delivery)
    ensures Ignored(b, d) ==> r == Delivery(b, [])
    ensures !Ignored(b, d) ==>
      var k := FindCall(b, WordAt(d, 0));
      && |r.bucket| == |b| - 1
      && r.bucket == b[..k] + b[k + 1..]
      && multiset(r.bucket) + multiset{b[k]} == multiset(b)
      && (r.events == [] <==> ParseStatus(d).None?)
    ensures |r.events| <= 1
    ensures r.events != [] ==>
      var e := r.events[0];
      && e.xid == WordAt(d, 0) && e.replystat == WordAt(d, 8)
      && e.cb == b[FindCall(b, WordAt(d, 0))].cb
      && (e.replystat != MsgAccepted ==> e.acceptstat == NoAcceptStat && e.results == Some(d[12..]))
  {
    if Ignored(b, d) then Delivery(b, [])
    else
      var xid := WordAt(d, 0);
      var k := FindCall(b, xid);
      var rest := b[..k] + b[k + 1..];
      assert b == b[..k] + [b[k]] + b[k + 1..];
      match ParseStatus(d)
      case None => Delivery(rest, [])
      case Some(st) => Delivery(rest, [Invoked(xid, b[k].cb, st.replystat, st.acceptstat, Some(d[st.cursor..]))])
  }

  /**
   * An accepted reply to a pending call completes it: its entry leaves the
   * bucket and its callback sees the accept status and the result bytes.
   */
  lemma DeliverAcceptedReply(b: seq<PendingCall>, xid: Word, verfFlavor: Word, verf: seq<Byte>,
                             acceptstat: Word, results: seq<Byte>)
    requires |verf| < 0x1_0000_0000 && |verf| % BytesPerXdrUnit == 0
    requires FindCall(b, xid) < |b|
    ensures var k := FindCall(b, xid);
      Deliver(b, AcceptedReply(xid, verfFlavor, verf, acceptstat, results))
        == Delivery(b[..k] + b[k + 1..], [Invoked(xid, b[k].cb, MsgAccepted, acceptstat, Some(results))])
  {
    AcceptedReplyParses(xid, verfFlavor, verf, acceptstat, results);
  }

  /** A reply that was not accepted completes its call with the sentinel accept status */
  lemma DeliverOtherReply(b: seq<PendingCall>, xid: Word, replystat: Word, rest: seq<Byte>)
    requires replystat != MsgAccepted
    requires FindCall(b, xid) < |b|
    ensures var k := FindCall(b, xid);
      Deliver(b, OtherReply(xid, replystat, rest))
        == Delivery(b[..k] + b[k + 1..], [Invoked(xid, b[k].cb, replystat, NoAcceptStat, Some(rest))])
  {
    OtherReplyParses(xid, replystat, rest);
  }

  /**
   * A duplicate of a reply that already completed its call is dropped, when
   * no other pending call shares the xid: the callback runs at most once.
   */
  lemma DuplicateReplyDropped(b: seq<PendingCall>, d: seq<Byte>)
    requires |d| >= 12
    requires forall i, j :: 0 <= i < j < |b| ==> b[i].xid != b[j].xid
    ensures var r := Deliver(b, d);
      Deliver(r.bucket, d) == Delivery(r.bucket, [])
  {
    var r := Deliver(b, d);
    if !Ignored(b, d) {
      var xid := WordAt(d, 0);
      var k := FindCall(b, xid);
      forall j | 0 <= j < |r.bucket|
        ensures r.bucket[j].xid != xid
      {
        if j < k {
          assert r.bucket[j] == b[j];
        } else {
          assert r.bucket[j] == b[j + 1];
        }
      }
      var k2 := FindCall(r.bucket, xid);
      assert k2 == |r.bucket|;
    }
  }

  /* ---------------- The retransmission state machine ---------------- */

  /** What one timer firing does to one call */
  datatype Step = Expire | Keep(c: PendingCall, sent: bool)

  /**
   * One pass of the loop body of traverse_hash_bucket for a call, given
   * whether its retransmission would succeed.  The retry count is
   * incremented before the send, so a failed send still uses up a retry.
   */
  function TickCall(c: PendingCall, sendOk: bool): (r: Step)
    ensures r.Expire? <==> c.timers + 1 >= RetransmitAfter && c.retries == MaxRetransmit
    ensures r.Keep? ==> r.c.xid == c.xid && r.c.data == c.data && r.c.cb == c.cb
    ensures r.Keep? && c.timers + 1 < RetransmitAfter ==>
      r.c.timers == c.timers + 1 && r.c.retries == c.retries && !r.sent
    ensures r.Keep? && c.timers + 1 >= RetransmitAfter ==>
      r.c.retries == c.retries + 1 && r.sent == sendOk
      && r.c.timers == (if sendOk then 0 else c.timers)
    ensures c.timers < RetransmitAfter && c.retries <= MaxRetransmit && r.Keep? ==>
      r.c.timers < RetransmitAfter && r.c.retries <= MaxRetransmit
  {
    var timers := c.timers + 1;
    if timers < RetransmitAfter then Keep(c.(timers := timers), false)
    else if c.retries == MaxRetransmit then Expire
    else if sendOk then Keep(c.(timers := 0, retries := c.retries + 1), true)
    else Keep(c.(timers := timers - 1, retries := c.retries + 1), false)
  }

  datatype Sweep = Sweep(kept: seq<PendingCall>, events: seq<Event>)

  /**
   * traverse_hash_bucket over a whole bucket: the calls that survive, in
   * their order, and the timeout callbacks, in bucket order.  A call's
   * retransmission fails when its xid is in `failing`.
   */
  function TickBucket(b: seq<PendingCall>, failing: set<Word>): (r: Sweep)
    ensures |r.kept| + |r.events| == |b|
    ensures forall e :: e in r.events ==>
      e.replystat == NoAcceptStat && e.acceptstat == NoAcceptStat && e.results.None?
    ensures forall e :: e in r.events ==>
      exists c :: c in b && TickCall(c, c.xid !in failing).Expire? && e == TimeoutEvent(c)
    ensures forall c :: c in b && TickCall(c, c.xid !in failing).Expire? ==> TimeoutEvent(c) in r.events
    ensures forall c :: c in b && TickCall(c, c.xid !in failing).Keep? ==> TickCall(c, c.xid !in failing).c in r.kept
  {
    if b == [] then Sweep([], [])
    else
      var r := TickBucket(b[..|b| - 1], failing);
      var c := b[|b| - 1];
      assert b == b[..|b| - 1] + [c];
      match TickCall(c, c.xid !in failing)
      case Expire => Sweep(r.kept, r.events + [TimeoutEvent(c)])
      case Keep(c', _) => Sweep(r.kept + [c'], r.events)
  }

  /** Extending the swept prefix of a bucket by one call */
  lemma {:induction false} TickBucketSnoc(b: seq<PendingCall>, k: nat, failing: set<Word>)
    requires k < |b|
    ensures TickCall(b[k], b[k].xid !in failing).Expire? ==>
      TickBucket(b[..k + 1], failing)
        == Sweep(TickBucket(b[..k], failing).kept, TickBucket(b[..k], failing).events + [TimeoutEvent(b[k])])
    ensures TickCall(b[k], b[k].xid !in failing).Keep? ==>
      TickBucket(b[..k + 1], failing)
        == Sweep(TickBucket(b[..k], failing).kept + [TickCall(b[k], b[k].xid !in failing).c], TickBucket(b[..k], failing).events)
  {
    assert b[..k + 1][..k] == b[..k];
  }

  /** A sweep keeps every surviving call in its bucket with its counters in range */
  lemma {:induction false} TickBucketPlaced(b: seq<PendingCall>, failing: set<Word>, i: nat, size: nat)
    requires BucketOk(b, i, size)
    ensures BucketOk(TickBucket(b, failing).kept, i, size)
  {
    if b != [] {
      TickBucketPlaced(b[..|b| - 1], failing, i, size);
    }
  }

  /**
   * The loop of traverse_hash_bucket: walks the bucket once,
   * advancing or expiring each call, and returns the calls left linked.
   */
  method SweepBucket(b: seq<PendingCall>, failing: set<Word>) returns (kept: seq<PendingCall>)
    ensures kept == TickBucket(b, failing).kept
  {
    kept := [];
    ghost var events: seq<Event> := [];
    var k := 0;
    while k < |b|
      invariant 0 <= k <= |b|
      invariant TickBucket(b[..k], failing) == Sweep(kept, events)
    {
      var call := b[k];
      TickBucketSnoc(b, k, failing);
      var step := TickCall(call, call.xid !in failing);
      if step.Expire? {
        events := events + [TimeoutEvent(call)];
      } else {
        kept := kept + [step.c];
      }
      k := k + 1;
    }
    assert b[..k] == b;
  }

  /** rpc_timer over the buckets in index order: the timeout callbacks, in order */
  function TickEvents(bs: seq<seq<PendingCall>>, failing: set<Word>): (es: seq<Event>)
    ensures forall e :: e in es ==>
      e.replystat == NoAcceptStat && e.acceptstat == NoAcceptStat && e.results.None?
    ensures forall e :: e in es ==>
      exists j, c :: 0 <= j < |bs| && c in bs[j] && TickCall(c, c.xid !in failing).Expire? && e == TimeoutEvent(c)
  {
    if bs == [] then []
    else TickEvents(bs[..|bs| - 1], failing) + TickBucket(bs[|bs| - 1], failing).events
  }

  /** Every bucket of a table after one timer firing */
  function KeptAll(bs: seq<seq<PendingCall>>, failing: set<Word>): (r: seq<seq<PendingCall>>)
    ensures |r| == |bs|
    ensures forall j :: 0 <= j < |bs| ==> r[j] == TickBucket(bs[j], failing).kept
  {
    if bs == [] then [] else KeptAll(bs[..|bs| - 1], failing) + [TickBucket(bs[|bs| - 1], failing).kept]
  }

  /** The callbacks of one more bucket follow those of the buckets before it */
  lemma LogStep(log: seq<Event>, bs: seq<seq<PendingCall>>, i: nat, failing: set<Word>)
    requires i < |bs|
    ensures log + TickEvents(bs[..i + 1], failing) == (log + TickEvents(bs[..i], failing)) + TickBucket(bs[i], failing).events
    ensures bs[i] == [] ==> log + TickEvents(bs[..i + 1], failing) == log + TickEvents(bs[..i], failing)
  {
    assert bs[..i + 1][..i] == bs[..i];
    assert TickBucket([], failing) == Sweep([], []);
  }

  /** One more bucket of the table taken from the swept version */
  lemma SpliceStep<T>(swept: seq<T>, bs: seq<T>, i: nat)
    requires i < |bs| == |swept|
    ensures (swept[..i] + bs[i..])[i := swept[i]] == swept[..i + 1] + bs[i + 1..]
    ensures swept[i] == bs[i] ==> swept[..i] + bs[i..] == swept[..i + 1] + bs[i + 1..]
  {
    assert (swept[..i] + bs[i..])[i := swept[i]] == swept[..i + 1] + bs[i + 1..];
  }

  /* ---------------- A call nobody answers ---------------- */

  /** Where a call stands after some ticks with no reply; sends counts retransmissions that went out */
  datatype Fate = Pending(c: PendingCall, sends: nat) | TimedOut(tick: nat, sends: nat)

  /** n timer firings on a call that no reply arrives for, every retransmission ending as sendOk says */
  function Run(c: PendingCall, n: nat, sendOk: bool): Fate
    decreases n
  {
    if n == 0 then Pending(c, 0)
    else match TickCall(c, sendOk)
      case Expire => TimedOut(1, 0)
      case Keep(c', sent) =>
        var extra := if sent then 1 else 0;
        match Run(c', n - 1, sendOk)
        case Pending(c'', s) => Pending(c'', s + extra)
        case TimedOut(t, s) => TimedOut(t + 1, s + extra)
  }

  /** Ticks until a call gives up when every retransmission succeeds */
  function Lifetime(c: PendingCall): nat
    requires c.timers < RetransmitAfter && c.retries <= MaxRetransmit
  {
    (RetransmitAfter - c.timers) + RetransmitAfter * (MaxRetransmit - c.retries)
  }

  lemma {:induction false} RunSucceeding(c: PendingCall, n: nat)
    requires c.timers < RetransmitAfter && c.retries <= MaxRetransmit
    ensures n < Lifetime(c) ==> Run(c, n, true).Pending?
    ensures n >= Lifetime(c) ==> Run(c, n, true) == TimedOut(Lifetime(c), MaxRetransmit - c.retries)
    decreases n
  {
    if n > 0 {
      match TickCall(c, true)
      case Expire =>
      case Keep(c', sent) =>
        RunSucceeding(c', n - 1);
    }
  }

  /**
   * A fresh call that is never answered, with every send succeeding, is
   * retransmitted exactly MaxRetransmit times and times out on tick 183.
   */
  lemma NoReplyTimesOut(c: PendingCall)
    requires c.timers == 0 && c.retries == 0
    ensures Run(c, 183, true) == TimedOut(183, MaxRetransmit)
    ensures forall n :: n < 183 ==> Run(c, n, true).Pending?
  {
    RunSucceeding(c, 183);
    forall n | n < 183
      ensures Run(c, n, true).Pending?
    {
      RunSucceeding(c, n);
    }
  }

  /**
   * When every retransmission fails, each later tick uses up one retry, so a
   * call gives up after (RetransmitAfter - timers) + (MaxRetransmit - retries)
   * ticks without ever being resent.
   */
  lemma {:induction false} RunFailing(c: PendingCall, n: nat)
    requires c.timers < RetransmitAfter && c.retries <= MaxRetransmit
    ensures var life := (RetransmitAfter - c.timers) + (MaxRetransmit - c.retries);
      && (n < life ==> Run(c, n, false).Pending? && Run(c, n, false).sends == 0)
      && (n >= life ==> Run(c, n, false) == TimedOut(life, 0))
    decreases n
  {
    if n > 0 {
      match TickCall(c, false)
      case Expire =>
      case Keep(c', sent) =>
        RunFailing(c', n - 1);
    }
  }

  /* ---------------- The client ---------------- */

  /** struct rpc_client, without its socket and timer handles */
  class Client {
    var nextxid: Word
    /** call_hash: RPC_HTABLE_SIZE buckets, each a list of pending calls, head first */
    var buckets: array<seq<PendingCall>>
    var server: Word
    var connectedAddress: Word
    var connectedPort: nat
    /** Every callback invoked so far, in order */
    ghost var log: seq<Event>

    ghost predicate Valid()
      reads this, buckets
    {
      buckets.Length > 0
      && forall i :: 0 <= i < buckets.Length ==> BucketOk(buckets[i], i, buckets.Length)
    }

    /** rpc_init: the table is empty; seed stands for the time-stamp counter read that picks the first xid */
    constructor Init(size: nat, server: Word, seed: Word)
      requires size > 0
      ensures Valid() && fresh(buckets) && buckets.Length == size
      ensures forall i :: 0 <= i < size ==> buckets[i] == []
      ensures nextxid == seed && this.server == server
      ensures connectedAddress == InaddrNone && connectedPort == 0 && log == []
    {
      this.server := server;
      connectedAddress := InaddrNone;
      connectedPort := 0;
      var table := new seq<PendingCall>[size];
      var i := 0;
      while i < size
        invariant 0 <= i <= size
        invariant forall j :: 0 <= j < i ==> table[j] == []
      {
        table[i] := [];
        i := i + 1;
      }
      buckets := table;
      nextxid := seed;
      log := [];
    }

    /**
     * rpc_call.  bufOk, recOk and sendOk are the fates of the buffer
     * allocation, of the record allocation and of the send; args is what the
     * argument encoder produced (None when it failed), and argsSize the room
     * the caller reserved for it.
     */
    method Call(port: nat, prog: Word, vers: Word, proc: Word, args: Option<seq<Byte>>, argsSize: nat,
                cb: Callback, bufOk: bool, recOk: bool, sendOk: bool) returns (err: Err)
      requires Valid()
      modifies this, buckets
      ensures Valid() && buckets == old(buckets) && log == old(log) && server == old(server)
      ensures nextxid == if bufOk then (old(nextxid) + 1) % 0x1_0000_0000 else old(nextxid)
      ensures !bufOk ==> err == LwipErrMem
      ensures bufOk && (args.None? || |args.value| > argsSize) ==> err == LwipErrBuf
      ensures bufOk && args.Some? && |args.value| <= argsSize && !recOk ==> err == LwipErrMem
      ensures bufOk && args.Some? && |args.value| <= argsSize && recOk && !sendOk ==> err == SendFailed
      ensures err == SysErrOk <==> bufOk && args.Some? && |args.value| <= argsSize && recOk && sendOk
      ensures err == SysErrOk ==>
        var xid := old(nextxid);
        var h := Hash(xid, buckets.Length);
        && buckets[h] == [PendingCall(xid, 0, 0, CallHeader(xid, prog, vers, proc) + args.value, cb)] + old(buckets[h])
        && forall i :: 0 <= i < buckets.Length && i != h ==> buckets[i] == old(buckets[i])
      ensures err != SysErrOk ==> forall i :: 0 <= i < buckets.Length ==> buckets[i] == old(buckets[i])
      ensures if bufOk && args.Some? && |args.value| <= argsSize && recOk
              then connectedAddress == server && connectedPort == port
              else connectedAddress == old(connectedAddress) && connectedPort == old(connectedPort)
    {
      if !bufOk {
        return LwipErrMem;
      }
      var xid := nextxid;
      nextxid := (nextxid + 1) % 0x1_0000_0000;
      // the buffer holds argsSize + CallHeaderLen bytes, so rpc_call_init always fits
      var header := CallHeader(xid, prog, vers, proc);
      if args.None? || |args.value| > argsSize {
        return LwipErrBuf;
      }
      if !recOk {
        return LwipErrMem;
      }
      var call := PendingCall(xid, 0, 0, header + args.value, cb);
      connectedAddress := server;
      connectedPort := port;
      var hid := Hash(xid, buckets.Length);
      buckets[hid] := [call] + buckets[hid];
      if !sendOk {
        buckets[hid] := buckets[hid][1..];
        return SendFailed;
      }
      return SysErrOk;
    }

    /** rpc_recv_handler for the datagram d */
    method Receive(d: seq<Byte>)
      requires Valid()
      modifies buckets, this`log
      ensures Valid()
      ensures var h := ReplyBucket(d, buckets.Length);
        && buckets[h] == Deliver(old(buckets[h]), d).bucket
        && log == old(log) + Deliver(old(buckets[h]), d).events
      ensures forall i :: 0 <= i < buckets.Length && i != ReplyBucket(d, buckets.Length) ==>
        buckets[i] == old(buckets[i])
    {
      if |d| < 12 {
        // packet too small
        return;
      }
      var xid := WordAt(d, 0);
      var msgtype := WordAt(d, 4);
      if msgtype != MsgReply {
        return;
      }
      var hid := Hash(xid, buckets.Length);
      var b := buckets[hid];
      var k := FindPending(b, xid);
      if k == |b| {
        // unknown xid
        return;
      }
      var call := b[k];
      buckets[hid] := b[..k] + b[k + 1..];
      UnlinkPlaced(b, k, hid, buckets.Length);
      var status := ParseStatus(d);
      if status.Some? {
        var st := status.value;
        log := log + [Invoked(xid, call.cb, st.replystat, st.acceptstat, Some(d[st.cursor..]))];
      }
    }

    /** traverse_hash_bucket: one timer firing for every call of bucket hid */
    method TraverseBucket(hid: nat, failing: set<Word>)
      requires Valid() && hid < buckets.Length
      modifies buckets, this`log
      ensures Valid()
      ensures buckets[..] == old(buckets[..])[hid := TickBucket(old(buckets[hid]), failing).kept]
      ensures log == old(log) + TickBucket(old(buckets[hid]), failing).events
    {
      var b := buckets[hid];
      var kept := SweepBucket(b, failing);
      TickBucketPlaced(b, failing, hid, buckets.Length);
      buckets[hid] := kept;
      log := log + TickBucket(b, failing).events;
    }

    /** rpc_timer: one timer firing for every bucket, in index order */
    method Timer(failing: set<Word>)
      requires Valid()
      modifies buckets, this`log
      ensures Valid()
      ensures buckets[..] == KeptAll(old(buckets[..]), failing)
      ensures log == old(log) + TickEvents(old(buckets[..]), failing)
    {
      ghost var bs := buckets[..];
      var i := 0;
      while i < buckets.Length
        invariant 0 <= i <= buckets.Length
        invariant Valid()
        invariant buckets[..] == KeptAll(bs, failing)[..i] + bs[i..]
        invariant log == old(log) + TickEvents(bs[..i], failing)
      {
        TimerStep(i, failing, bs, old(log));
        i := i + 1;
      }
      assert KeptAll(bs, failing)[..i] + bs[i..] == KeptAll(bs, failing);
      assert bs[..i] == bs;
    }

    /** One pass of rpc_timer's loop: bucket i is traversed when it is not empty */
    method TimerStep(i: nat, failing: set<Word>, ghost bs: seq<seq<PendingCall>>, ghost log0: seq<Event>)
      requires Valid() && i < buckets.Length == |bs|
      requires buckets[..] == KeptAll(bs, failing)[..i] + bs[i..]
      requires log == log0 + TickEvents(bs[..i], failing)
      modifies buckets, this`log
      ensures Valid()
      ensures buckets[..] == KeptAll(bs, failing)[..i + 1] + bs[i + 1..]
      ensures log == log0 + TickEvents(bs[..i + 1], failing)
    {
      assert buckets[i] == bs[i];
      LogStep(log0, bs, i, failing);
      SpliceStep(KeptAll(bs, failing), bs, i);
      if buckets[i] != [] {
        TraverseBucket(i, failing);
      }
    }

    /** rpc_destroy: every pending call is dropped and no callback runs */
    method Destroy()
      requires Valid()
      modifies buckets
      ensures Valid() && log == old(log)
      ensures forall i :: 0 <= i < buckets.Length ==> buckets[i] == []
    {
      var i := 0;
      while i < buckets.Length
        invariant 0 <= i <= buckets.Length
        invariant forall j :: 0 <= j < i ==> buckets[j] == []
        invariant forall j :: i <= j < buckets.Length ==> buckets[j] == old(buckets[j])
      {
        buckets[i] := [];
        i := i + 1;
      }
    }
  }
}
