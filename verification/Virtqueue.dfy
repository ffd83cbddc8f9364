/** The device's side of a split virtqueue: 16-bit free-running indices over rings of n slots. */
module Virtqueue {
  import opened Options
  import opened DivMod
  import opened Permutations

  const INDEX_RANGE: nat := 0x1_0000

  datatype Descriptor = Descriptor(addr: nat, len: nat, writable: bool, more: bool, next: nat)

  datatype Buffer = Buffer(addr: nat, len: nat, write: bool)

  datatype UsedElem = UsedElem(id: nat, len: nat)

  // ---------------------------------------------------------------------------
  // Descriptor chains
  // ---------------------------------------------------------------------------

  /** The chain from `i` has its last descriptor `k` links on. */
  predicate Ends(table: seq<Descriptor>, i: nat, k: nat)
    decreases k
  {
    i < |table| && if k == 0 then !table[i].more else table[i].more && Ends(table, table[i].next, k - 1)
  }

  function Links(table: seq<Descriptor>, i: nat, k: nat): (r: seq<nat>)
    requires Ends(table, i, k)
    ensures |r| == k + 1 && r[0] == i
    decreases k
  {
    if k == 0 then [i] else [i] + Links(table, table[i].next, k - 1)
  }

  function BufferAt(table: seq<Descriptor>, i: nat): Buffer
    requires i < |table|
  {
    Buffer(table[i].addr, table[i].len, table[i].writable)
  }

  /** The buffers of a chain, in order. */
  function Buffers(table: seq<Descriptor>, i: nat, k: nat): seq<Buffer>
    requires Ends(table, i, k)
    decreases k
  {
    if k == 0 then [BufferAt(table, i)] else [BufferAt(table, i)] + Buffers(table, table[i].next, k - 1)
  }

  lemma {:induction false} EndsOnce(table: seq<Descriptor>, i: nat, j: nat, k: nat)
    requires Ends(table, i, j) && Ends(table, i, k)
    ensures j == k
    decreases k
  {
    if j > 0 && k > 0 { EndsOnce(table, table[i].next, j - 1, k - 1); }
  }

  lemma {:induction false} LinkEnds(table: seq<Descriptor>, i: nat, k: nat, j: nat)
    requires Ends(table, i, k) && j <= k
    ensures Ends(table, Links(table, i, k)[j], k - j)
    decreases j
  {
    if j > 0 { LinkEnds(table, table[i].next, k - 1, j - 1); }
  }

  /** A chain that ends visits no descriptor twice. */
  lemma LinksDistinct(table: seq<Descriptor>, i: nat, k: nat, a: nat, b: nat)
    requires Ends(table, i, k) && a < b <= k
    ensures Links(table, i, k)[a] != Links(table, i, k)[b]
  {
    var x, y := Links(table, i, k)[a], Links(table, i, k)[b];
    LinkEnds(table, i, k, a);
    LinkEnds(table, i, k, b);
    if x == y {
      EndsOnce(table, x, k - a, k - b);
    }
  }

  /** So it is no longer than the table, however it is linked. */
  lemma ChainFitsTable(table: seq<Descriptor>, i: nat, k: nat)
    requires Ends(table, i, k)
    ensures k < |table|
  {
    var links := Links(table, i, k);
    forall a, b | 0 <= a < b < |links| ensures links[a] != links[b] { LinksDistinct(table, i, k, a, b); }
    forall a | 0 <= a < |links| ensures links[a] < |table| {
      LinkEnds(table, i, k, a);
      assert Ends(table, links[a], k - a);
    }
    DistinctBelow(links, |table|);
  }

  /** A list of descriptors that follows the next fields from `head` to the first descriptor without one. */
  ghost predicate IsChain(table: seq<Descriptor>, head: nat, s: seq<nat>) {
    && s != [] && s[0] == head && (forall j :: 0 <= j < |s| ==> s[j] < |table|)
    && (forall j :: 0 < j < |s| ==> Follows(table, s[j - 1], s[j])) && !table[s[|s| - 1]].more
  }

  predicate Follows(table: seq<Descriptor>, i: nat, next: nat) {
    i < |table| && table[i].more && next == table[i].next
  }

  /** One buffer for each descriptor of the list, with its address, length and write flag. */
  ghost predicate AreBuffersOf(table: seq<Descriptor>, s: seq<nat>, buffers: seq<Buffer>) {
    |buffers| == |s| && forall j :: 0 <= j < |s| ==>
      && s[j] < |table| && buffers[j].addr == table[s[j]].addr && buffers[j].len == table[s[j]].len
      && buffers[j].write == table[s[j]].writable
  }

  lemma {:induction false} ChainEnds(table: seq<Descriptor>, head: nat, s: seq<nat>)
    requires IsChain(table, head, s)
    ensures Ends(table, head, |s| - 1) && Links(table, head, |s| - 1) == s
    decreases |s|
  {
    if |s| > 1 {
      assert Follows(table, s[1 - 1], s[1]);
      ChainEnds(table, s[1], s[1..]);
    }
  }

  lemma {:induction false} LinksAreChain(table: seq<Descriptor>, i: nat, k: nat)
    requires Ends(table, i, k)
    ensures IsChain(table, i, Links(table, i, k))
    decreases k
  {
    var s := Links(table, i, k);
    if k > 0 {
      LinksAreChain(table, table[i].next, k - 1);
      var rest := Links(table, table[i].next, k - 1);
      forall j | 0 < j < |s| ensures Follows(table, s[j - 1], s[j]) {
        assert s[j] == rest[j - 1] && (j > 1 ==> s[j - 1] == rest[j - 2]);
      }
    }
  }

  lemma {:induction false} BuffersAt(table: seq<Descriptor>, i: nat, k: nat)
    requires Ends(table, i, k)
    ensures AreBuffersOf(table, Links(table, i, k), Buffers(table, i, k))
    decreases k
  {
    if k > 0 { BuffersAt(table, table[i].next, k - 1); }
  }

  /** A chain ends exactly if it can be listed, and its buffers are those of every descriptor listed, the last
      included, in order. */
  lemma ChainExactly(table: seq<Descriptor>, head: nat)
    ensures Acyclic(table, head) <==> exists s :: IsChain(table, head, s)
    ensures forall s :: IsChain(table, head, s) ==> AreBuffersOf(table, s, ChainOf(table, head))
  {
    if k: nat :| Ends(table, head, k) {
      LinksAreChain(table, head, k);
    }
    forall s | IsChain(table, head, s)
      ensures Acyclic(table, head) && AreBuffersOf(table, s, ChainOf(table, head))
    {
      ChainEnds(table, head, s);
      var k: nat :| Ends(table, head, k) && ChainOf(table, head) == Buffers(table, head, k);
      EndsOnce(table, head, k, |s| - 1);
      BuffersAt(table, head, k);
    }
  }

  // ---------------------------------------------------------------------------
  // Slots
  // ---------------------------------------------------------------------------

  /** The slot of the k-th entry ever, by its 16-bit index. */
  function Slot(k: nat, n: nat): nat
    requires n > 0
  {
    k % INDEX_RANGE % n
  }

  /** n entries in a row have n slots. */
  ghost predicate SlotsDistinct(n: nat)
    requires n > 0
  {
    forall a: nat, b: nat :: a < b < a + n ==> Slot(a, n) != Slot(b, n)
  }

  lemma SlotOfMultiple(k: nat, n: nat, c: nat)
    requires n > 0 && INDEX_RANGE == n * c
    ensures Slot(k, n) == k % n
  {
    DivModProduct(k, n, c);
  }

  /** The slots of the entries in flight differ exactly when the queue size divides the index range. */
  lemma SlotsDistinctExactly(n: nat)
    requires 0 < n <= INDEX_RANGE
    ensures SlotsDistinct(n) <==> INDEX_RANGE % n == 0
  {
    var c, r := INDEX_RANGE / n, INDEX_RANGE % n;
    assert INDEX_RANGE == n * c + r;
    if r == 0 {
      forall a: nat, b: nat | a < b < a + n ensures Slot(a, n) != Slot(b, n) {
        SlotOfMultiple(a, n, c);
        SlotOfMultiple(b, n, c);
        RemaindersDiffer(a, b, n);
      }
    } else {
      var a := INDEX_RANGE - r;
      assert c > 0;
      MultipleMod(0, n, c);
      assert a == c * n + 0;
      assert Slot(a, n) == 0 == Slot(INDEX_RANGE, n);
    }
  }

  /** With the default of twelve slots an entry in flight is overwritten where the index wraps. */
  lemma TwelveSlotsCollide()
    ensures Slot(65532, 12) == Slot(65536, 12) && !SlotsDistinct(12)
  {
    assert Slot(65532, 12) == 0 == Slot(65536, 12);
  }

  // ---------------------------------------------------------------------------
  // The queue without wrap-around
  // ---------------------------------------------------------------------------

  ghost predicate Acyclic(table: seq<Descriptor>, head: nat) {
    exists k: nat :: Ends(table, head, k)
  }

  ghost function ChainOf(table: seq<Descriptor>, head: nat): seq<Buffer>
    requires Acyclic(table, head)
  {
    var k: nat :| Ends(table, head, k);
    Buffers(table, head, k)
  }

  /** What a request is answered with: its length if it succeeds. The k-th request ever may be answered
      in any way. */
  type Service = (nat, seq<Buffer>) -> Option<nat>

  /** The heads published and not yet handled, how many were handled, and the used entries, all counted
      without wrapping. */
  datatype Ledger = Ledger(table: seq<Descriptor>, pending: seq<nat>, count: nat, done: seq<UsedElem>,
                           quiet: bool, interrupt: bool)

  function Reply(head: nat, answer: Option<nat>): seq<UsedElem> {
    match answer
    case Some(len) => [UsedElem(head, len)]
    case None => []
  }

  ghost predicate AllAcyclic(l: Ledger) {
    forall k :: 0 <= k < |l.pending| ==> Acyclic(l.table, l.pending[k])
  }

  /** The first pending head is handled. */
  ghost function HandleOne(l: Ledger, serve: Service): Ledger
    requires l.pending != [] && AllAcyclic(l)
  {
    var reply := Reply(l.pending[0], serve(l.count, ChainOf(l.table, l.pending[0])));
    l.(pending := l.pending[1..], count := l.count + 1, done := l.done + reply,
       interrupt := l.interrupt || (reply != [] && !l.quiet))
  }

  /** All pending heads are handled, in order. */
  ghost function Drain(l: Ledger, serve: Service): (r: Ledger)
    requires AllAcyclic(l)
    ensures r.pending == [] && r.count == l.count + |l.pending| && r.table == l.table
    decreases |l.pending|
  {
    if l.pending == [] then l else Drain(HandleOne(l, serve), serve)
  }

  // ---------------------------------------------------------------------------
  // The rings
  // ---------------------------------------------------------------------------

  ghost predicate Size(n: nat) {
    0 < n < INDEX_RANGE && INDEX_RANGE % n == 0
  }

  ghost predicate RingShows(ring: seq<nat>, n: nat, count: nat, pending: seq<nat>) {
    |ring| == n && Size(n) && |pending| <= n
    && forall k {:trigger pending[k]} :: 0 <= k < |pending| ==> ring[Slot(count + k, n)] == pending[k]
  }

  ghost predicate UsedShows(ring: seq<UsedElem>, n: nat, done: seq<UsedElem>) {
    |ring| == n && Size(n)
    && forall j {:trigger done[j]} :: 0 <= j < |done| && |done| - n <= j ==> ring[Slot(j, n)] == done[j]
  }

  lemma SlotsDiffer(n: nat, a: nat, b: nat)
    requires Size(n) && a < b < a + n
    ensures Slot(a, n) != Slot(b, n)
  {
    SlotsDistinctExactly(n);
  }

  lemma PublishAt(ring: seq<nat>, n: nat, count: nat, pending: seq<nat>, head: nat, k: nat)
    requires RingShows(ring, n, count, pending) && k <= |pending| < n
    ensures Slot(count + |pending|, n) < n && Slot(count + k, n) < n
    ensures ring[Slot(count + |pending|, n) := head][Slot(count + k, n)] == (pending + [head])[k]
  {
    if k < |pending| {
      assert ring[Slot(count + k, n)] == pending[k];
      SlotsDiffer(n, count + k, count + |pending|);
    }
  }

  lemma PublishShows(ring: seq<nat>, n: nat, count: nat, pending: seq<nat>, head: nat)
    requires RingShows(ring, n, count, pending) && |pending| < n
    ensures Slot(count + |pending|, n) < n
    ensures RingShows(ring[Slot(count + |pending|, n) := head], n, count, pending + [head])
  {
    PublishAt(ring, n, count, pending, head, |pending|);
    forall k | 0 <= k < |pending| + 1
      ensures ring[Slot(count + |pending|, n) := head][Slot(count + k, n)] == (pending + [head])[k]
    {
      PublishAt(ring, n, count, pending, head, k);
    }
  }

  lemma TakeShows(ring: seq<nat>, n: nat, count: nat, pending: seq<nat>)
    requires RingShows(ring, n, count, pending) && pending != []
    ensures ring[Slot(count, n)] == pending[0] && RingShows(ring, n, count + 1, pending[1..])
  {
    assert ring[Slot(count + 0, n)] == pending[0];
    forall k | 0 <= k < |pending| - 1 ensures ring[Slot(count + 1 + k, n)] == pending[1..][k] {
      assert ring[Slot(count + (k + 1), n)] == pending[k + 1];
    }
  }

  lemma DoneShows(ring: seq<UsedElem>, n: nat, done: seq<UsedElem>, e: UsedElem)
    requires UsedShows(ring, n, done)
    ensures UsedShows(ring[Slot(|done|, n) := e], n, done + [e])
  {
    forall j | 0 <= j < |done| && |done| + 1 - n <= j ensures Slot(j, n) != Slot(|done|, n) {
      SlotsDiffer(n, j, |done|);
    }
  }

  /** ++ on a 16-bit word */
  function NextIndex(i: nat): nat {
    (i + 1) % INDEX_RANGE
  }

  lemma NextIndexOf(k: nat)
    ensures NextIndex(k % INDEX_RANGE) == (k + 1) % INDEX_RANGE
  {
  }

  /** Indices tell an empty queue from one with up to n entries. */
  lemma EmptyByIndex(count: nat, k: nat)
    requires k < INDEX_RANGE
    ensures count % INDEX_RANGE == (count + k) % INDEX_RANGE <==> k == 0
  {
  }

  class Queue {
    const n: nat
    const table: array<Descriptor>
    const avail: array<nat>
    const used: array<UsedElem>
    var availIdx: nat
    var last: nat
    var usedIdx: nat
    var noNotify: bool
    var interrupt: bool

    ghost predicate Agrees(l: Ledger)
      reads this, table, avail, used
    {
      && table.Length == n && l.table == table[..]
      && RingShows(avail[..], n, l.count, l.pending) && UsedShows(used[..], n, l.done)
      && last == l.count % INDEX_RANGE && availIdx == (l.count + |l.pending|) % INDEX_RANGE
      && usedIdx == |l.done| % INDEX_RANGE
      && noNotify == l.quiet && interrupt == l.interrupt
    }

    /** A reset queue over rings whose indices are zero. */
    constructor (table: array<Descriptor>, avail: array<nat>, used: array<UsedElem>)
      requires table.Length == avail.Length == used.Length && Size(table.Length)
      ensures this.table == table && this.avail == avail && this.used == used
      ensures Agrees(Ledger(table[..], [], 0, [], false, false))
    {
      n := table.Length;
      this.table, this.avail, this.used := table, avail, used;
      availIdx, last, usedIdx, noNotify, interrupt := 0, 0, 0, false, false;
    }

    /** The driver publishes a head. */
    method Publish(head: nat, ghost l: Ledger)
      requires Agrees(l) && |l.pending| < n
      modifies this`availIdx, avail
      ensures Agrees(l.(pending := l.pending + [head]))
    {
      PublishShows(avail[..], n, l.count, l.pending, head);
      NextIndexOf(l.count + |l.pending|);
      avail[availIdx % n] := head;
      availIdx := NextIndex(availIdx);
    }

    /** The driver rewrites the descriptors and its wish for notifications. */
    method Rewrite(descriptors: seq<Descriptor>, quiet: bool, ghost l: Ledger)
      requires Agrees(l) && |descriptors| == n
      modifies this`noNotify, table
      ensures Agrees(l.(table := descriptors, quiet := quiet))
    {
      forall i | 0 <= i < n { table[i] := descriptors[i]; }
      noNotify := quiet;
    }

    /** The buffers along a chain. */
    method Collect(head: nat) returns (buffers: seq<Buffer>)
      requires Acyclic(table[..], head)
      ensures buffers == ChainOf(table[..], head)
      ensures forall s :: IsChain(table[..], head, s) ==> AreBuffersOf(table[..], s, buffers)
    {
      ghost var t := table[..];
      ghost var k: nat :| Ends(t, head, k) && ChainOf(t, head) == Buffers(t, head, k);
      buffers := [];
      var i := head;
      while true
        invariant Ends(t, i, k) && buffers + Buffers(t, i, k) == ChainOf(t, head)
        decreases k
      {
        var d := table[i];
        buffers := buffers + [Buffer(d.addr, d.len, d.writable)];
        if !d.more {
          break;
        }
        i, k := d.next, k - 1;
      }
      ChainExactly(t, head);
    }

    /** virtio_handle_done */
    method HandleDone(len: nat, head: nat, ghost l: Ledger)
      requires Agrees(l)
      modifies this`usedIdx, this`interrupt, used
      ensures Agrees(l.(done := l.done + [UsedElem(head, len)], interrupt := l.interrupt || !l.quiet))
    {
      DoneShows(used[..], n, l.done, UsedElem(head, len));
      NextIndexOf(|l.done|);
      used[usedIdx % n] := UsedElem(head, len);
      usedIdx := NextIndex(usedIdx);
      if !noNotify {
        interrupt := true;
      }
    }

    /** One round of notify_queue. */
    method HandleNext(serve: Service, number: nat, ghost l: Ledger)
      requires Agrees(l) && AllAcyclic(l) && l.pending != [] && number == l.count
      modifies this`last, this`usedIdx, this`interrupt, used
      ensures Agrees(HandleOne(l, serve)) && availIdx == old(availIdx)
    {
      TakeShows(avail[..], n, l.count, l.pending);
      NextIndexOf(l.count);
      var head := avail[last % n];
      var buffers := Collect(head);
      var answer := serve(number, buffers);
      if answer.Some? {
        HandleDone(answer.value, head, l);
      }
      last := NextIndex(last);
    }

    /** notify_queue: every pending head is handled once, in the order published. `first` numbers the
        requests for the service. */
    method Notify(serve: Service, first: nat, ghost l0: Ledger)
      requires Agrees(l0) && AllAcyclic(l0) && first == l0.count
      modifies this`last, this`usedIdx, this`interrupt, used
      ensures Agrees(Drain(l0, serve))
    {
      ghost var l := l0;
      var number := first;
      EmptyWhenEqual(l);
      while last != availIdx
        invariant Agrees(l) && AllAcyclic(l) && Drain(l, serve) == Drain(l0, serve)
        invariant (last == availIdx <==> l.pending == []) && number == l.count
        decreases |l.pending|
      {
        HandleNext(serve, number, l);
        l := HandleOne(l, serve);
        number := number + 1;
        EmptyWhenEqual(l);
      }
    }

    lemma EmptyWhenEqual(l: Ledger)
      requires Agrees(l)
      ensures last == availIdx <==> l.pending == []
    {
      EmptyByIndex(l.count, |l.pending|);
    }
  }

  // ---------------------------------------------------------------------------
  // Runs
  // ---------------------------------------------------------------------------

  datatype Op = PublishOp(head: nat) | RewriteOp(table: seq<Descriptor>, quiet: bool) | NotifyOp

  /** At most n heads in flight, tables of n descriptors, and chains that end. */
  ghost predicate Allowed(l: Ledger, op: Op, n: nat) {
    match op
    case PublishOp(_) => |l.pending| < n
    case RewriteOp(table, _) => |table| == n
    case NotifyOp => AllAcyclic(l)
  }

  ghost function Step(l: Ledger, op: Op, serve: Service, n: nat): Ledger
    requires Allowed(l, op, n)
  {
    match op
    case PublishOp(head) => l.(pending := l.pending + [head])
    case RewriteOp(table, quiet) => l.(table := table, quiet := quiet)
    case NotifyOp => Drain(l, serve)
  }

  ghost predicate Legal(l: Ledger, ops: seq<Op>, serve: Service, n: nat)
    decreases |ops|
  {
    ops == [] || (Allowed(l, ops[0], n) && Legal(Step(l, ops[0], serve, n), ops[1..], serve, n))
  }

  ghost function After(l: Ledger, ops: seq<Op>, serve: Service, n: nat): Ledger
    requires Legal(l, ops, serve, n)
    decreases |ops|
  {
    if ops == [] then l else After(Step(l, ops[0], serve, n), ops[1..], serve, n)
  }

  /** One step of the driver or the device. */
  method StepQueue(queue: Queue, op: Op, serve: Service, number: nat, ghost l: Ledger)
    requires queue.Agrees(l) && Allowed(l, op, queue.n) && number == l.count
    modifies queue, queue.table, queue.avail, queue.used
    ensures queue.Agrees(Step(l, op, serve, queue.n))
  {
    match op
    case PublishOp(head) => queue.Publish(head, l);
    case RewriteOp(table, quiet) => queue.Rewrite(table, quiet, l);
    case NotifyOp => queue.Notify(serve, number, l);
  }

  /** The rings go through the run as the unwrapped queue does. */
  method Run(queue: Queue, ops: seq<Op>, serve: Service, first: nat, waiting: nat, ghost l0: Ledger)
    returns (ghost l: Ledger)
    requires queue.Agrees(l0) && Legal(l0, ops, serve, queue.n) && first == l0.count && waiting == |l0.pending|
    modifies queue, queue.table, queue.avail, queue.used
    ensures Legal(l0, ops, serve, queue.n) && l == After(l0, ops, serve, queue.n) && queue.Agrees(l)
  {
    l := l0;
    var number, pending := first, waiting;
    for i := 0 to |ops|
      invariant queue.Agrees(l) && Legal(l, ops[i..], serve, queue.n)
      invariant After(l, ops[i..], serve, queue.n) == After(l0, ops, serve, queue.n)
      invariant number == l.count && pending == |l.pending|
    {
      assert ops[i..][0] == ops[i] && ops[i..][1..] == ops[i + 1..];
      StepQueue(queue, ops[i], serve, number, l);
      l := Step(l, ops[i], serve, queue.n);
      if ops[i].PublishOp? {
        pending := pending + 1;
      } else if ops[i].NotifyOp? {
        number, pending := number + pending, 0;
      }
    }
  }

  function Published(ops: seq<Op>): seq<nat> {
    if ops == [] then []
    else (if ops[0].PublishOp? then [ops[0].head] else []) + Published(ops[1..])
  }

  /** Between `l` and `m` the first of the pending and the newly published heads were handled, each once
      and in order; the others wait. */
  ghost predicate TakesFirst(l: Ledger, published: seq<nat>, m: Ledger) {
    var all := l.pending + published;
    l.count <= m.count <= l.count + |all| && m.pending == all[m.count - l.count..]
  }

  lemma StepTakesFirst(l: Ledger, op: Op, serve: Service, n: nat)
    requires Allowed(l, op, n)
    ensures TakesFirst(l, if op.PublishOp? then [op.head] else [], Step(l, op, serve, n))
  {
  }

  lemma TakesFirstTwice(l: Ledger, a: seq<nat>, m: Ledger, b: seq<nat>, k: Ledger)
    requires TakesFirst(l, a, m) && TakesFirst(m, b, k)
    ensures TakesFirst(l, a + b, k)
  {
    assert l.pending + (a + b) == (l.pending + a) + b;
    assert m.pending + b == ((l.pending + a) + b)[m.count - l.count..];
  }

  /** Over a whole run every published head is handled at most once, in order, and none is skipped. */
  lemma {:induction false} HandledInOrder(l: Ledger, ops: seq<Op>, serve: Service, n: nat)
    requires Legal(l, ops, serve, n)
    ensures TakesFirst(l, Published(ops), After(l, ops, serve, n))
    decreases |ops|
  {
    if ops != [] {
      var m := Step(l, ops[0], serve, n);
      StepTakesFirst(l, ops[0], serve, n);
      HandledInOrder(m, ops[1..], serve, n);
      var head := if ops[0].PublishOp? then [ops[0].head] else [];
      TakesFirstTwice(l, head, m, Published(ops[1..]), After(m, ops[1..], serve, n));
    }
  }

  /** A head with the buffers its chain had when it was handled. */
  datatype Request = Request(head: nat, buffers: seq<Buffer>)

  /** The used entries of requests of which the first is number `first`: those that succeed, in order. */
  function Replies(requests: seq<Request>, first: nat, serve: Service): seq<UsedElem> {
    if requests == [] then []
    else Reply(requests[0].head, serve(first, requests[0].buffers)) + Replies(requests[1..], first + 1, serve)
  }

  lemma {:induction false} RepliesConcat(a: seq<Request>, b: seq<Request>, first: nat, serve: Service)
    ensures Replies(a + b, first, serve) == Replies(a, first, serve) + Replies(b, first + |a|, serve)
  {
    if a == [] {
      assert a + b == b;
    } else {
      assert (a + b)[1..] == a[1..] + b;
      RepliesConcat(a[1..], b, first + 1, serve);
    }
  }

  /** The requests that a notification handles. */
  ghost function Waiting(l: Ledger): (r: seq<Request>)
    requires AllAcyclic(l)
    ensures |r| == |l.pending| && forall k :: 0 <= k < |r| ==> r[k].head == l.pending[k]
  {
    seq(|l.pending|, k requires 0 <= k < |l.pending| => Request(l.pending[k], ChainOf(l.table, l.pending[k])))
  }

  /** A notification adds to the used ring the heads of the requests that succeed, in order. */
  lemma {:induction false} DrainReplies(l: Ledger, serve: Service)
    requires AllAcyclic(l)
    ensures Drain(l, serve).done == l.done + Replies(Waiting(l), l.count, serve)
    decreases |l.pending|
  {
    if l.pending != [] {
      var m := HandleOne(l, serve);
      DrainReplies(m, serve);
      assert Waiting(l)[1..] == Waiting(m);
    }
  }

  /** How many of the first `k` requests succeed. */
  function Successes(requests: seq<Request>, first: nat, serve: Service, k: nat): nat
    requires k <= |requests|
  {
    if k == 0 then 0
    else Succeeds(serve(first, requests[0].buffers)) + Successes(requests[1..], first + 1, serve, k - 1)
  }

  function Succeeds(answer: Option<nat>): nat {
    if answer.Some? then 1 else 0
  }

  /** The entry at place `r` is that of request `k`: its head, and the length it was answered with. */
  ghost predicate IsReplyTo(replies: seq<UsedElem>, r: nat, request: Request, answer: Option<nat>) {
    answer.Some? ==> r < |replies| && replies[r].id == request.head && replies[r].len == answer.value
  }

  lemma {:induction false} ReplyCount(requests: seq<Request>, first: nat, serve: Service)
    ensures |Replies(requests, first, serve)| == Successes(requests, first, serve, |requests|)
  {
    if requests != [] { ReplyCount(requests[1..], first + 1, serve); }
  }

  /** Each request that succeeds has one entry, behind those of the earlier successes, and there are no others. */
  lemma {:induction false} RepliesExactly(requests: seq<Request>, first: nat, serve: Service, k: nat)
    requires k < |requests|
    ensures |Replies(requests, first, serve)| == Successes(requests, first, serve, |requests|)
    ensures IsReplyTo(Replies(requests, first, serve), Successes(requests, first, serve, k), requests[k],
                      serve(first + k, requests[k].buffers))
    decreases k
  {
    ReplyCount(requests, first, serve);
    if k > 0 {
      var rest, reply := requests[1..], Reply(requests[0].head, serve(first, requests[0].buffers));
      RepliesExactly(rest, first + 1, serve, k - 1);
      LaterReply(reply, Replies(rest, first + 1, serve), Successes(rest, first + 1, serve, k - 1), requests[k],
                 serve(first + k, requests[k].buffers));
    }
  }

  lemma LaterReply(a: seq<UsedElem>, replies: seq<UsedElem>, r: nat, request: Request, answer: Option<nat>)
    requires IsReplyTo(replies, r, request, answer)
    ensures IsReplyTo(a + replies, |a| + r, request, answer)
  {
  }

  /** A notification raises the interrupt exactly if it adds a used entry and the driver wants notifications. */
  lemma {:induction false} DrainInterrupts(l: Ledger, serve: Service)
    requires AllAcyclic(l)
    ensures |l.done| <= |Drain(l, serve).done| && Drain(l, serve).quiet == l.quiet
    ensures Drain(l, serve).interrupt <==> l.interrupt || (!l.quiet && |Drain(l, serve).done| > |l.done|)
    decreases |l.pending|
  {
    if l.pending != [] { DrainInterrupts(HandleOne(l, serve), serve); }
  }

  /** The requests that a run handles. */
  ghost function Handled(l: Ledger, ops: seq<Op>, serve: Service, n: nat): seq<Request>
    requires Legal(l, ops, serve, n)
    decreases |ops|
  {
    if ops == [] then []
    else
      var rest := Handled(Step(l, ops[0], serve, n), ops[1..], serve, n);
      if ops[0].NotifyOp? then Waiting(l) + rest else rest
  }

  function Heads(requests: seq<Request>): (r: seq<nat>)
    ensures |r| == |requests|
  {
    seq(|requests|, k requires 0 <= k < |requests| => requests[k].head)
  }

  lemma HeadsConcat(a: seq<Request>, b: seq<Request>)
    ensures Heads(a + b) == Heads(a) + Heads(b)
  {
  }

  lemma WaitingHeads(l: Ledger)
    requires AllAcyclic(l)
    ensures Heads(Waiting(l)) == l.pending
  {
  }

  lemma RestIsPublished(x: seq<nat>, published: seq<nat>, h: seq<nat>, pending: seq<nat>)
    requires [] + published == h + pending
    ensures x + published == (x + h) + pending
  {
    assert published == h + pending;
  }

  /** Other steps than notifications handle nothing. */
  lemma PublishedOrNot(l: Ledger, op: Op, rest: seq<Op>, serve: Service, n: nat)
    requires Allowed(l, op, n) && !op.NotifyOp?
    ensures l.pending + Published([op] + rest) == Step(l, op, serve, n).pending + Published(rest)
    ensures Step(l, op, serve, n).done == l.done && Step(l, op, serve, n).count == l.count
  {
    assert ([op] + rest)[1..] == rest;
  }

  /** The requests handled, followed by those that wait, are all that were published, in order. */
  lemma {:induction false} RunHandles(l: Ledger, ops: seq<Op>, serve: Service, n: nat)
    requires Legal(l, ops, serve, n)
    ensures l.pending + Published(ops) == Heads(Handled(l, ops, serve, n)) + After(l, ops, serve, n).pending
    decreases |ops|
  {
    if ops != [] {
      var m, rest := Step(l, ops[0], serve, n), ops[1..];
      var requests := Handled(m, rest, serve, n);
      RunHandles(m, rest, serve, n);
      if ops[0].NotifyOp? {
        WaitingHeads(l);
        HeadsConcat(Waiting(l), requests);
        RestIsPublished(l.pending, Published(rest), Heads(requests), After(m, rest, serve, n).pending);
      } else {
        PublishedOrNot(l, ops[0], rest, serve, n);
        assert ops == [ops[0]] + rest;
      }
    }
  }

  lemma TwoParts(all: seq<UsedElem>, a: seq<UsedElem>, b: seq<UsedElem>, c: seq<UsedElem>)
    requires all == (a + b) + c
    ensures all == a + (b + c)
  {
  }

  /** Over a whole run the used entries added are the replies to the requests handled, in order, each with
      the buffers its chain had at the time. */
  lemma {:induction false} RunReplies(l: Ledger, ops: seq<Op>, serve: Service, n: nat)
    requires Legal(l, ops, serve, n)
    ensures After(l, ops, serve, n).done == l.done + Replies(Handled(l, ops, serve, n), l.count, serve)
    decreases |ops|
  {
    if ops != [] {
      var m, rest := Step(l, ops[0], serve, n), ops[1..];
      var requests := Handled(m, rest, serve, n);
      RunReplies(m, rest, serve, n);
      if ops[0].NotifyOp? {
        DrainReplies(l, serve);
        RepliesConcat(Waiting(l), requests, l.count, serve);
        TwoParts(After(m, rest, serve, n).done, l.done, Replies(Waiting(l), l.count, serve),
                 Replies(requests, m.count, serve));
      }
    }
  }
}
