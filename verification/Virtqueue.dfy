/** The block request queue as driver and device share it (VIRTIO 1.1, sections 2.6 and
    5.2.6): every store of the driver and every access of the device is one step, and
    steps interleave freely. */
module Virtqueue {
  import opened Wrappers
  import opened Bits

  const QUEUE_SIZE: nat := 256
  const F_NEXT: nat := 1
  const F_WRITE: nat := 2
  const PENDING: nat := 0x12
  const HEADER_SIZE: nat := 16
  const STATUS_SIZE: nat := 1

  datatype Desc = Desc(addr: nat, len: nat, flags: nat, next: nat)

  /** The 16-byte request header in memory. */
  datatype Header = Header(typ: nat, sector: nat)

  /** What basic_op is called with, and the physical addresses its objects translate to. */
  datatype Request = Request(typ: nat, sector: nat, length: nat, header: nat, buffer: nat, status: nat)

  predicate RequestOk(r: Request) {
    r.typ < 2 && r.length % 512 == 0
  }

  /** Memory that both sides access. */
  datatype Queue = Queue(
    desc: seq<Desc>, ring: seq<nat>, avail_idx: nat, headers: map<nat, Header>, status: map<nat, nat>)

  predicate Shape(q: Queue) {
    |q.desc| == QUEUE_SIZE && |q.ring| == QUEUE_SIZE && q.avail_idx < 0x1_0000
  }

  /** The stores of basic_op, in program order. */
  const WRITES: nat := 15

  function DriverWrite(q: Queue, r: Request, k: nat): (q': Queue)
    requires Shape(q) && k < WRITES
    ensures Shape(q')
  {
    var d := q.desc;
    if k == 0 then q.(headers := q.headers[r.header := Header(r.typ, r.sector % 0x1_0000_0000)])
    else if k == 1 then q.(status := q.status[r.status := PENDING])
    else if k == 2 then q.(desc := d[0 := d[0].(addr := r.header)])
    else if k == 3 then q.(desc := d[0 := d[0].(len := HEADER_SIZE)])
    else if k == 4 then q.(desc := d[0 := d[0].(flags := F_NEXT)])
    else if k == 5 then q.(desc := d[0 := d[0].(next := 1)])
    else if k == 6 then q.(desc := d[1 := d[1].(addr := r.buffer)])
    else if k == 7 then q.(desc := d[1 := d[1].(len := r.length % 0x1_0000_0000)])
    else if k == 8 then q.(desc := d[1 := d[1].(next := 2)])
    else if k == 9 then q.(desc := d[1 := d[1].(flags := if r.typ == 1 then F_NEXT else F_NEXT + F_WRITE)])
    else if k == 10 then q.(desc := d[2 := d[2].(addr := r.status)])
    else if k == 11 then q.(desc := d[2 := d[2].(len := STATUS_SIZE)])
    else if k == 12 then q.(desc := d[2 := d[2].(flags := F_WRITE)])
    else if k == 13 then q.(ring := q.ring[q.avail_idx % QUEUE_SIZE := 0])
    else q.(avail_idx := (q.avail_idx + 1) % 0x1_0000)
  }

  // The state machine.

  datatype Driver = Idle | Writing(r: Request, k: nat) | Waiting(r: Request)

  /** The device takes a head from the available ring, reads the chain one descriptor at a
      time, executes, writes the status byte, and returns the head in the used ring. */
  datatype Device =
    | Polling
    | Reading(head: nat, cur: nat, got: seq<Desc>)
    | Executed(head: nat, got: seq<Desc>)
    | Returning(head: nat)

  /** What the device did: direction, sector, buffer and length. */
  datatype Done = Done(typ: nat, sector: nat, buffer: nat, len: nat, toMemory: bool)

  datatype State = State(
    q: Queue, driver: Driver, device: Device, last_avail: nat, used: seq<nat>,
    published: seq<Request>, log: seq<Done>)

  datatype Event =
    | Start(r: Request)   // basic_op is called
    | Write               // its next store
    | Poll                // it reads a status byte that is no longer pending, and returns
    | Fetch               // the device sees a new index and reads its ring slot
    | ReadDesc            // the device reads a descriptor
    | Exec                // the device performs the request
    | Complete(v: nat)    // the device writes the status byte
    | Return              // the device returns the head

  // The flag bits as the device reads them (section 2.6.5).

  predicate Continues(d: Desc) { d.flags % 2 == 1 }
  predicate Writable(d: Desc) { d.flags / 2 % 2 == 1 }
  predicate Indirect(d: Desc) { d.flags / 4 % 2 == 1 }

  /** The framing of section 5.2.6 in three descriptors: a header of 16 bytes that the device
      reads, data that it writes exactly when it is not told to write the disk, and one status
      byte that it writes. Of another framing nothing is known. */
  predicate Framed(got: seq<Desc>, typ: nat) {
    && |got| == 3 && (forall d | d in got :: !Indirect(d))
    && got[0].len == 16 && !Writable(got[0]) && Continues(got[0])
    && (Writable(got[1]) <==> typ != 1) && Continues(got[1])
    && got[2].len == 1 && Writable(got[2]) && !Continues(got[2])
  }

  /** One step, or None when the event is not possible. */
  function Next(s: State, ev: Event): Option<State>
    requires Shape(s.q)
  {
    match ev
    case Start(r) =>
      if s.driver == Idle && RequestOk(r) then Some(s.(driver := Writing(r, 0))) else None
    case Write =>
      if s.driver.Writing? && s.driver.k < WRITES then
        var q := DriverWrite(s.q, s.driver.r, s.driver.k);
        Some(s.(q := q,
                driver := if s.driver.k + 1 < WRITES then Writing(s.driver.r, s.driver.k + 1) else Waiting(s.driver.r),
                published := if s.driver.k + 1 < WRITES then s.published else s.published + [s.driver.r]))
      else None
    case Poll =>
      if s.driver.Waiting? && s.driver.r.status in s.q.status && s.q.status[s.driver.r.status] != PENDING
      then Some(s.(driver := Idle)) else None
    case Fetch =>
      if s.device == Polling && s.last_avail < 0x1_0000 && s.last_avail != s.q.avail_idx then
        var head := s.q.ring[s.last_avail % QUEUE_SIZE];
        Some(s.(device := Reading(head, head, []), last_avail := (s.last_avail + 1) % 0x1_0000))
      else None
    case ReadDesc =>
      if s.device.Reading? && s.device.cur < QUEUE_SIZE
         && (s.device.got == [] || Continues(s.device.got[|s.device.got| - 1])) then
        var d := s.q.desc[s.device.cur];
        Some(s.(device := Reading(s.device.head, d.next, s.device.got + [d])))
      else None
    case Exec =>
      if s.device.Reading? && s.device.got != [] && s.device.got[0].addr in s.q.headers
         && Framed(s.device.got, s.q.headers[s.device.got[0].addr].typ) then
        var g := s.device.got;
        var h := s.q.headers[g[0].addr];
        Some(s.(device := Executed(s.device.head, g),
                log := s.log + [Done(h.typ, h.sector, g[1].addr, g[1].len, Writable(g[1]))]))
      else None
    case Complete(v) =>
      if s.device.Executed? && s.device.got != [] && v < 3 then
        var st := s.device.got[|s.device.got| - 1].addr;
        Some(s.(device := Returning(s.device.head), q := s.q.(status := s.q.status[st := v])))
      else None
    case Return =>
      if s.device.Returning? then Some(s.(device := Polling, used := s.used + [s.device.head])) else None
  }

  ghost predicate Init(s: State) {
    && Shape(s.q) && s.q.avail_idx == 0
    && s.driver == Idle && s.device == Polling && s.last_avail == 0
    && s.used == [] && s.published == [] && s.log == []
  }

  // What must hold.

  /** The chain of section 5.2.6 for a request: a device-readable header, a buffer that the
      device writes exactly for a read, and a device-writable status byte. */
  function Chain(r: Request): seq<Desc> {
    [Desc(r.header, 16, 1, 1),
     Desc(r.buffer, r.length % 0x1_0000_0000, if r.typ == 1 then 1 else 3, 2),
     Desc(r.status, 1, 2, 0)]
  }

  /** Equal up to the `next` field of the last descriptor, which does not continue. */
  predicate SameDesc(d: Desc, e: Desc) {
    d.addr == e.addr && d.len == e.len && d.flags == e.flags && (Continues(e) ==> d.next == e.next)
  }

  /** Memory holds the whole chain of request r. */
  predicate ChainReady(q: Queue, r: Request) {
    && Shape(q)
    && (forall i | 0 <= i < 3 :: SameDesc(q.desc[i], Chain(r)[i]))
    && r.header in q.headers && q.headers[r.header] == Header(r.typ, r.sector % 0x1_0000_0000)
    && r.status in q.status
  }

  predicate ChainRead(got: seq<Desc>, r: Request, n: nat) {
    |got| == n <= 3 && forall i | 0 <= i < n :: SameDesc(got[i], Chain(r)[i])
  }

  /** The effect a request asks for. */
  function Wanted(r: Request): Done {
    Done(r.typ, r.sector % 0x1_0000_0000, r.buffer, r.length % 0x1_0000_0000, r.typ != 1)
  }

  function WantedAll(rs: seq<Request>): (ds: seq<Done>)
    ensures |ds| == |rs|
  {
    seq(|rs|, i requires 0 <= i < |rs| => Wanted(rs[i]))
  }

  function FetchedCount(s: State): nat {
    |s.used| + if s.device == Polling then 0 else 1
  }

  /** Indices are the counts in 16 bits, and the published slot names descriptor 0. */
  predicate IndicesOk(s: State) {
    && Shape(s.q)
    && s.q.avail_idx == |s.published| % 0x1_0000
    && s.last_avail == FetchedCount(s) % 0x1_0000
    && (forall h | h in s.used :: h == 0)
  }

  /** The device holds the chain of the one request that the driver waits for. */
  predicate DeviceBusy(s: State, r: Request) {
    && |s.published| > 0 && r.status in s.q.status && s.q.status[r.status] == PENDING
    && match s.device
       case Reading(head, cur, got) =>
         head == 0 && |got| <= 3 && ChainRead(got, r, |got|) && (|got| < 3 ==> cur == |got|)
         && s.log == WantedAll(s.published[..|s.published| - 1])
       case Executed(head, got) =>
         head == 0 && ChainRead(got, r, 3) && s.log == WantedAll(s.published)
       case _ => false
  }

  predicate Quiet(s: State) {
    s.device == Polling || s.device == Returning(0)
  }

  ghost predicate Inv(s: State) {
    && IndicesOk(s)
    && match s.driver
       case Idle => Quiet(s) && FetchedCount(s) == |s.published| && s.log == WantedAll(s.published)
       case Writing(r, k) =>
         && Quiet(s) && FetchedCount(s) == |s.published| && s.log == WantedAll(s.published)
         && k < WRITES && RequestOk(r) && Written(s.q, r, k)
       case Waiting(r) =>
         && |s.published| > 0 && s.published[|s.published| - 1] == r && RequestOk(r) && ChainReady(s.q, r)
         && s.q.ring[(|s.published| - 1) % QUEUE_SIZE] == 0
         && if FetchedCount(s) < |s.published| then
              && Quiet(s) && FetchedCount(s) + 1 == |s.published|
              && s.q.status[r.status] == PENDING && s.log == WantedAll(s.published[..|s.published| - 1])
            else
              && FetchedCount(s) == |s.published|
              && (DeviceBusy(s, r) || (Quiet(s) && s.log == WantedAll(s.published) && s.q.status[r.status] != PENDING))
  }

  /** The effects of the first k stores of basic_op. */
  predicate Written(q: Queue, r: Request, k: nat) {
    && Shape(q)
    && (k > 0 ==> r.header in q.headers && q.headers[r.header] == Header(r.typ, r.sector % 0x1_0000_0000))
    && (k > 1 ==> r.status in q.status && q.status[r.status] == PENDING)
    && (k > 2 ==> q.desc[0].addr == r.header)
    && (k > 3 ==> q.desc[0].len == HEADER_SIZE)
    && (k > 4 ==> q.desc[0].flags == F_NEXT)
    && (k > 5 ==> q.desc[0].next == 1)
    && (k > 6 ==> q.desc[1].addr == r.buffer)
    && (k > 7 ==> q.desc[1].len == r.length % 0x1_0000_0000)
    && (k > 8 ==> q.desc[1].next == 2)
    && (k > 9 ==> q.desc[1].flags == if r.typ == 1 then F_NEXT else F_NEXT + F_WRITE)
    && (k > 10 ==> q.desc[2].addr == r.status)
    && (k > 11 ==> q.desc[2].len == STATUS_SIZE)
    && (k > 12 ==> q.desc[2].flags == F_WRITE)
    && (k > 13 ==> q.ring[q.avail_idx % QUEUE_SIZE] == 0)
  }

  lemma WriteStep(q: Queue, r: Request, k: nat)
    requires k < WRITES && Written(q, r, k)
    ensures k + 1 < WRITES ==> Written(DriverWrite(q, r, k), r, k + 1)
    ensures k + 1 < WRITES ==> DriverWrite(q, r, k).avail_idx == q.avail_idx
    ensures k + 1 == WRITES ==> ChainReady(DriverWrite(q, r, k), r)
    ensures k + 1 == WRITES ==>
              && DriverWrite(q, r, k) == q.(avail_idx := (q.avail_idx + 1) % 0x1_0000)
              && q.ring[q.avail_idx % QUEUE_SIZE] == 0 && q.status[r.status] == PENDING
  {
  }

  lemma WantedAppend(rs: seq<Request>, r: Request)
    ensures WantedAll(rs + [r]) == WantedAll(rs) + [Wanted(r)]
    ensures (rs + [r])[..|rs|] == rs
  {
  }

  /** The 16-bit index names the same ring slot as the unbounded count. */
  lemma SlotAcrossWrap(n: nat)
    ensures n % 0x1_0000 % QUEUE_SIZE == n % QUEUE_SIZE
    ensures (n % 0x1_0000 + 1) % 0x1_0000 == (n + 1) % 0x1_0000
  {
    var q, r := n / 0x1_0000, n % 0x1_0000;
    assert n == q * 0x1_0000 + r && r == r / 256 * 256 + r % 256;
    DivModUnique(n, 256, q * 256 + r / 256, r % 256);
    if r == 0xFFFF {
      DivModUnique(n + 1, 0x1_0000, q + 1, 0);
    } else {
      DivModUnique(n + 1, 0x1_0000, q, r + 1);
    }
  }

  lemma DriverKeepsInv(s: State, ev: Event)
    requires Inv(s) && (ev.Start? || ev.Write? || ev.Poll?) && Next(s, ev).Some?
    ensures Inv(Next(s, ev).value)
  {
    if ev.Write? {
      WriteStep(s.q, s.driver.r, s.driver.k);
      SlotAcrossWrap(|s.published|);
      WantedAppend(s.published, s.driver.r);
    }
  }

  /** A request that is available and not yet fetched makes the 16-bit indices differ, and
      only such a request does. */
  lemma FetchMeansPublished(s: State)
    requires Inv(s) && s.device == Polling
    ensures s.last_avail != s.q.avail_idx <==> FetchedCount(s) < |s.published|
  {
    var n := |s.published|;
    if FetchedCount(s) < n {
      assert FetchedCount(s) + 1 == n;
      SlotAcrossWrap(n - 1);
    }
  }

  lemma FetchKeepsInv(s: State)
    requires Inv(s) && Next(s, Fetch).Some?
    ensures Inv(Next(s, Fetch).value)
  {
    FetchMeansPublished(s);
    SlotAcrossWrap(|s.published| - 1);
    SlotAcrossWrap(FetchedCount(s));
  }

  lemma FlagFacts(r: Request)
    ensures Framed(Chain(r), r.typ)
  {
  }

  lemma FullChainStops(got: seq<Desc>, r: Request)
    ensures ChainRead(got, r, 3) ==> Framed(got, r.typ)
  {
    if ChainRead(got, r, 3) {
      FlagFacts(r);
      assert SameDesc(got[0], Chain(r)[0]) && SameDesc(got[1], Chain(r)[1]) && SameDesc(got[2], Chain(r)[2]);
    }
  }

  lemma ReadKeepsInv(s: State)
    requires Inv(s) && Next(s, ReadDesc).Some?
    ensures Inv(Next(s, ReadDesc).value)
  {
    assert s.driver.Waiting?;
    var r := s.driver.r;
    FlagFacts(r);
    var got := s.device.got;
    var d := s.q.desc[s.device.cur];
    FullChainStops(got, r);
    assert SameDesc(d, Chain(r)[|got|]);
  }

  lemma ExecKeepsInv(s: State)
    requires Inv(s) && Next(s, Exec).Some?
    ensures Inv(Next(s, Exec).value)
  {
    assert s.driver.Waiting?;
    var r := s.driver.r;
    FlagFacts(r);
    var got := s.device.got;
    assert SameDesc(got[0], Chain(r)[0]) && SameDesc(got[1], Chain(r)[1]);
    var before := s.published[..|s.published| - 1];
    assert s.published == before + [r];
    WantedAppend(before, r);
  }

  lemma DeviceKeepsInv(s: State, ev: Event)
    requires Inv(s) && (ev.Complete? || ev.Return?) && Next(s, ev).Some?
    ensures Inv(Next(s, ev).value)
  {
    if ev.Complete? {
      assert SameDesc(s.device.got[2], Chain(s.driver.r)[2]);
    }
  }

  /** Every step of either side keeps the invariant. */
  lemma StepKeepsInv(s: State, ev: Event)
    requires Inv(s) && Next(s, ev).Some?
    ensures Inv(Next(s, ev).value)
  {
    match ev
    case Fetch => FetchKeepsInv(s);
    case ReadDesc => ReadKeepsInv(s);
    case Exec => ExecKeepsInv(s);
    case Complete(_) => DeviceKeepsInv(s, ev);
    case Return => DeviceKeepsInv(s, ev);
    case _ => DriverKeepsInv(s, ev);
  }

  /** A run is any interleaving of possible steps. */
  ghost predicate Run(s: State, evs: seq<Event>, s': State)
    requires Shape(s.q)
    decreases |evs|
  {
    if evs == [] then s' == s
    else Next(s, evs[0]).Some? && Shape(Next(s, evs[0]).value.q) && Run(Next(s, evs[0]).value, evs[1..], s')
  }

  lemma {:induction false} RunKeepsInv(s: State, evs: seq<Event>, s': State)
    requires Inv(s) && Run(s, evs, s')
    ensures Inv(s')
    decreases |evs|
  {
    if evs != [] {
      StepKeepsInv(s, evs[0]);
      RunKeepsInv(Next(s, evs[0]).value, evs[1..], s');
    }
  }

  /** In every reachable state the device's log is the published requests, each executed
      once, in order, with its own parameters, except possibly the one outstanding request;
      at most one request is outstanding, and none when basic_op returns. */
  lemma ExactlyOnceInOrder(s: State, evs: seq<Event>, s': State)
    requires Init(s) && Run(s, evs, s')
    ensures |s'.published| - 1 <= |s'.log| <= |s'.published|
    ensures s'.log == WantedAll(s'.published[..|s'.log|])
    ensures !s'.driver.Waiting? ==> s'.log == WantedAll(s'.published)
    ensures s'.q.avail_idx == |s'.published| % 0x1_0000
  {
    RunKeepsInv(s, evs, s');
    var n := |s'.published|;
    assert s'.published[..n] == s'.published;
  }

  /** While the driver fills descriptors the device holds none, and whatever part of a chain
      the device has read at any moment is that part of the waiting request's chain. */
  lemma NoHalfWrittenChain(s: State, evs: seq<Event>, s': State)
    requires Init(s) && Run(s, evs, s')
    ensures s'.device.Reading? || s'.device.Executed? ==>
              && s'.driver.Waiting?
              && |s'.device.got| <= 3
              && forall i | 0 <= i < |s'.device.got| :: SameDesc(s'.device.got[i], Chain(s'.driver.r)[i])
    ensures s'.driver.Writing? ==> s'.device.Polling? || s'.device.Returning?
  {
    RunKeepsInv(s, evs, s');
  }

  /** When basic_op can return, its own request has been executed. */
  lemma ReturnsAfterExecution(s: State, evs: seq<Event>, s': State)
    requires Init(s) && Run(s, evs, s') && s'.driver.Waiting?
    ensures Shape(s'.q)
    ensures Next(s', Poll).Some? ==> |s'.log| == |s'.published| > 0 && s'.log[|s'.log| - 1] == Wanted(s'.driver.r)
  {
    RunKeepsInv(s, evs, s');
  }

  // basic_op always gets to return.

  /** Upper bound of the steps left to the device while the driver waits. */
  function StepsLeft(s: State): nat {
    match s.device
    case Returning(_) => if FetchedCount(s) < |s.published| then 9 else 1
    case Polling => if FetchedCount(s) < |s.published| then 8 else 0
    case Reading(_, _, got) => if |got| <= 3 then 7 - |got| else 0
    case Executed(_, _) => 3
  }

  /** While the driver waits, every step but its own return brings the device closer to being
      done. */
  lemma StepsRunDown(s: State, ev: Event)
    requires Inv(s) && s.driver.Waiting? && ev != Poll && Next(s, ev).Some?
    ensures Next(s, ev).value.driver == s.driver && StepsLeft(Next(s, ev).value) < StepsLeft(s)
  {
    match ev
    case Fetch => FetchMeansPublished(s);
    case ReadDesc => FullChainStops(s.device.got, s.driver.r);
    case _ =>
  }

  /** What the device can do next. */
  function DeviceTurn(s: State): Event {
    match s.device
    case Returning(_) => Return
    case Polling => Fetch
    case Reading(_, _, got) => if |got| < 3 then ReadDesc else Exec
    case Executed(_, _) => Complete(0)
  }

  /** A waiting driver is never stuck: it can return, or the device can take a step. */
  lemma NeverStuck(s: State)
    requires Inv(s) && s.driver.Waiting?
    ensures Next(s, Poll).Some? || Next(s, DeviceTurn(s)).Some?
    ensures StepsLeft(s) == 0 ==> Next(s, Poll).Some?
  {
    var r := s.driver.r;
    FlagFacts(r);
    match s.device
    case Polling =>
      if FetchedCount(s) < |s.published| { FetchMeansPublished(s); }
    case Reading(_, _, got) =>
      assert ChainRead(got, r, |got|);
      if |got| == 3 {
        FullChainStops(got, r);
        assert SameDesc(got[0], Chain(r)[0]);
      } else if |got| > 0 {
        assert SameDesc(got[|got| - 1], Chain(r)[|got| - 1]);
      }
    case _ =>
  }

  lemma StartsOk(s: State)
    requires Init(s)
    ensures Inv(s)
  {
  }

  lemma InvShape(s: State)
    requires Inv(s)
    ensures Shape(s.q) && (s.driver.Waiting? ==> StepsLeft(s) <= 9)
  {
  }

  lemma {:induction false} WaitIsShort(s: State, evs: seq<Event>, s': State)
    requires Inv(s) && s.driver.Waiting? && Poll !in evs && Run(s, evs, s')
    ensures s'.driver == s.driver && |evs| + StepsLeft(s') <= StepsLeft(s)
    decreases |evs|
  {
    if evs != [] {
      StepsRunDown(s, evs[0]);
      StepKeepsInv(s, evs[0]);
      assert Poll !in evs[1..];
      WaitIsShort(Next(s, evs[0]).value, evs[1..], s');
    }
  }

  /** Whatever the interleaving, basic_op returns: from any reachable state in which it waits
      at most nine steps happen before its return is possible, and at every moment of the
      wait some step is possible. */
  lemma BasicOpReturns(s: State, evs: seq<Event>, s1: State, more: seq<Event>, s2: State)
    requires Init(s) && Run(s, evs, s1) && s1.driver.Waiting? && Shape(s1.q)
    requires Poll !in more && Run(s1, more, s2)
    ensures |more| <= 9 && s2.driver == s1.driver && Shape(s2.q)
    ensures Next(s2, Poll).Some? || Next(s2, DeviceTurn(s2)).Some?
    ensures |more| == 9 ==> Next(s2, Poll).Some?
  {
    hide Next, DeviceTurn, Inv;
    StartsOk(s);
    RunKeepsInv(s, evs, s1);
    InvShape(s1);
    WaitIsShort(s1, more, s2);
    RunKeepsInv(s1, more, s2);
    InvShape(s2);
    NeverStuck(s2);
  }

  // basic_op up to the point where it spins on the status byte.

  function AllWrites(q: Queue, r: Request, k: nat): (q': Queue)
    requires Shape(q) && k <= WRITES
    ensures Shape(q')
  {
    if k == 0 then q else DriverWrite(AllWrites(q, r, k - 1), r, k - 1)
  }

  class VirtQueue {
    const desc: array<Desc>
    const ring: array<nat>
    var avail_idx: nat
    var headers: map<nat, Header>
    var status: map<nat, nat>

    constructor (d: array<Desc>, a: array<nat>)
      ensures desc == d && ring == a && avail_idx == 0
    {
      desc, ring := d, a;
      avail_idx, headers, status := 0, map[], map[];
    }

    ghost function Contents(): Queue
      reads this, desc, ring
    {
      Queue(desc[..], ring[..], avail_idx, headers, status)
    }

    method FillHeader(r: Request, ghost q: Queue)
      requires Shape(q) && Contents() == AllWrites(q, r, 2)
      modifies desc
      ensures Contents() == AllWrites(q, r, 6)
    {
      desc[0] := desc[0].(addr := r.header);
      assert Contents() == AllWrites(q, r, 3);
      desc[0] := desc[0].(len := HEADER_SIZE);
      assert Contents() == AllWrites(q, r, 4);
      desc[0] := desc[0].(flags := F_NEXT);
      assert Contents() == AllWrites(q, r, 5);
      desc[0] := desc[0].(next := 1);
      assert Contents() == AllWrites(q, r, 6);
    }

    method FillBuffer(r: Request, ghost q: Queue)
      requires Shape(q) && Contents() == AllWrites(q, r, 6)
      modifies desc
      ensures Contents() == AllWrites(q, r, 10)
    {
      desc[1] := desc[1].(addr := r.buffer);
      assert Contents() == AllWrites(q, r, 7);
      desc[1] := desc[1].(len := r.length % 0x1_0000_0000);
      assert Contents() == AllWrites(q, r, 8);
      desc[1] := desc[1].(next := 2);
      assert Contents() == AllWrites(q, r, 9);
      desc[1] := desc[1].(flags := if r.typ == 1 then F_NEXT else F_NEXT + F_WRITE);
      assert Contents() == AllWrites(q, r, 10);
    }

    method FillStatus(r: Request, ghost q: Queue)
      requires Shape(q) && Contents() == AllWrites(q, r, 10)
      modifies desc
      ensures Contents() == AllWrites(q, r, 13)
    {
      desc[2] := desc[2].(addr := r.status);
      assert Contents() == AllWrites(q, r, 11);
      desc[2] := desc[2].(len := STATUS_SIZE);
      assert Contents() == AllWrites(q, r, 12);
      desc[2] := desc[2].(flags := F_WRITE);
      assert Contents() == AllWrites(q, r, 13);
    }

    method Publish(r: Request, ghost q: Queue)
      requires Shape(q) && Contents() == AllWrites(q, r, 13)
      modifies this`avail_idx, ring
      ensures Contents() == AllWrites(q, r, WRITES)
    {
      ring[avail_idx % QUEUE_SIZE] := 0;
      assert Contents() == AllWrites(q, r, 14);
      avail_idx := (avail_idx + 1) % 0x1_0000;
    }

    method BasicOp(r: Request) returns (res: int)
      requires Shape(Contents())
      modifies this`avail_idx, this`headers, this`status, desc, ring
      ensures RequestOk(r) ==> res == 0 && Contents() == AllWrites(old(Contents()), r, WRITES)
      ensures !RequestOk(r) ==> res == -1 && Contents() == old(Contents())
      ensures res == if r.length % 512 == 0 && (r.typ == 0 || r.typ == 1) then 0 else -1
      ensures res == 0 ==> Published(old(Contents()), Contents(), r)
    {
      if RequestOk(r) { WritesPublish(Contents(), r); }
      if r.length % 512 != 0 {
        return -1;
      }
      if r.typ != 0 && r.typ != 1 {
        return -1;
      }
      ghost var q := Contents();
      headers := headers[r.header := Header(r.typ, r.sector % 0x1_0000_0000)];
      assert Contents() == AllWrites(q, r, 1);
      status := status[r.status := PENDING];
      assert Contents() == AllWrites(q, r, 2);
      FillHeader(r, q);
      FillBuffer(r, q);
      FillStatus(r, q);
      Publish(r, q);
      res := 0;
    }
  }

  /** What basic_op leaves: the request's header and a pending status, three descriptors, the
      next slot of 256 naming descriptor 0, and the index one further. */
  predicate Published(q: Queue, q': Queue, r: Request) {
    && |q.desc| == |q'.desc| == 256 && |q.ring| == |q'.ring| == 256
    && q'.headers == q.headers[r.header := Header(r.typ, r.sector % 0x1_0000_0000)]
    && q'.status == q.status[r.status := 0x12]
    && q'.desc == [Desc(r.header, 16, 1, 1),
                   Desc(r.buffer, r.length % 0x1_0000_0000, if r.typ == 1 then 1 else 3, 2),
                   Desc(r.status, 1, 2, q.desc[2].next)] + q.desc[3..]
    && q'.ring == q.ring[q.avail_idx % 256 := 0] && q'.avail_idx == (q.avail_idx + 1) % 0x1_0000
  }

  lemma WritesPublish(q: Queue, r: Request)
    requires Shape(q)
    ensures Published(q, AllWrites(q, r, WRITES), r)
  {
    hide AllWrites;
    PublishLast(q, r);
    WritesHeader(q, r);
    WritesBuffer(q, r);
    WritesStatus(q, r);
    FirstThree(q.desc, AllWrites(q, r, WRITES).desc);
  }

  lemma FirstThree(d: seq<Desc>, d': seq<Desc>)
    requires 3 <= |d| == |d'| && forall i | 3 <= i < |d| :: d'[i] == d[i]
    ensures d' == [d'[0], d'[1], d'[2]] + d[3..]
  {
  }

  lemma WritesHeader(q: Queue, r: Request)
    requires Shape(q)
    ensures
      AllWrites(q, r, 6) ==
      q.(headers := q.headers[r.header := Header(r.typ, r.sector % 0x1_0000_0000)],
         status := q.status[r.status := 0x12], desc := q.desc[0 := Desc(r.header, 16, 1, 1)])
  {
    assert AllWrites(q, r, 1) == DriverWrite(q, r, 0);
    assert AllWrites(q, r, 2) == DriverWrite(AllWrites(q, r, 1), r, 1);
    assert AllWrites(q, r, 4) == DriverWrite(DriverWrite(AllWrites(q, r, 2), r, 2), r, 3);
    assert AllWrites(q, r, 6) == DriverWrite(DriverWrite(AllWrites(q, r, 4), r, 4), r, 5);
  }

  lemma WritesBuffer(q: Queue, r: Request)
    requires Shape(q)
    ensures
      var q6 := AllWrites(q, r, 6);
      AllWrites(q, r, 10) ==
      q6.(desc := q6.desc[1 := Desc(r.buffer, r.length % 0x1_0000_0000, if r.typ == 1 then 1 else 3, 2)])
  {
    assert AllWrites(q, r, 8) == DriverWrite(DriverWrite(AllWrites(q, r, 6), r, 6), r, 7);
    assert AllWrites(q, r, 10) == DriverWrite(DriverWrite(AllWrites(q, r, 8), r, 8), r, 9);
  }

  lemma WritesStatus(q: Queue, r: Request)
    requires Shape(q)
    ensures
      var q10 := AllWrites(q, r, 10);
      AllWrites(q, r, 13) == q10.(desc := q10.desc[2 := Desc(r.status, 1, 2, q10.desc[2].next)])
  {
    assert AllWrites(q, r, 12) == DriverWrite(DriverWrite(AllWrites(q, r, 10), r, 10), r, 11);
    assert AllWrites(q, r, 13) == DriverWrite(AllWrites(q, r, 12), r, 12);
  }

  lemma PublishLast(q: Queue, r: Request)
    requires Shape(q)
    ensures
      var q13 := AllWrites(q, r, 13);
      AllWrites(q, r, WRITES) ==
      q13.(ring := q13.ring[q13.avail_idx % 256 := 0], avail_idx := (q13.avail_idx + 1) % 0x1_0000)
  {
    assert AllWrites(q, r, 14) == DriverWrite(AllWrites(q, r, 13), r, 13);
    assert AllWrites(q, r, 15) == DriverWrite(AllWrites(q, r, 14), r, 14);
  }

  /** Whatever the queue held before, the stores leave the complete chain of section 5.2.6
      behind a published slot. */
  lemma {:induction false} WritesComplete(q: Queue, r: Request, k: nat)
    requires Shape(q) && k <= WRITES
    ensures k < WRITES ==> Written(AllWrites(q, r, k), r, k) && AllWrites(q, r, k).avail_idx == q.avail_idx
    ensures k == WRITES ==>
              && ChainReady(AllWrites(q, r, k), r)
              && AllWrites(q, r, k).ring[q.avail_idx % QUEUE_SIZE] == 0
              && AllWrites(q, r, k).avail_idx == (q.avail_idx + 1) % 0x1_0000
              && AllWrites(q, r, k).status[r.status] == PENDING
  {
    if k > 0 {
      WritesComplete(q, r, k - 1);
      WriteStep(AllWrites(q, r, k - 1), r, k - 1);
    }
  }
}
