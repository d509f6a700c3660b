/**
  Submitting commands through a split virtqueue (VIRTIO 1.2, section 2.7), as an interleaving of
  driver steps and device steps.

  The driver publishes one descriptor chain at a time and waits for it; each of its writes to shared
  memory is a step of its own, and the device may act between any two of them.  Memory is
  sequentially consistent.  The queue size divides 2^16 and is at least 4.
*/
module Virtqueue {
  import opened Wrappers
  import opened Arithmetic

  const U16: nat := 0x1_0000

  // VIRTQ_DESC_F_WRITE and VIRTQ_DESC_F_NEXT
  datatype Desc = Desc(addr: nat, write: bool, more: bool, next: nat)

  // A command has one device-readable part, or two for the attachment of memory.
  datatype Command = Command(id: nat, parts: nat)

  // What a buffer holds: nothing yet (kalloc clears memory), the k-th part of a command, or a reply.
  datatype Content = Blank | Part(cmd: Command, k: nat) | Reply(r: int)

  // The single steps of a submission.
  datatype Micro = Fill(k: nat) | WriteDesc(k: nat) | ReadUsed | Slot | Publish | Notify | Wait | Read

  // The order of the steps in the constructor, in the four submitters of two-descriptor chains and
  // in connect_resource_to_memory.
  function Program(first: bool, parts: nat): (p: seq<Micro>)
    ensures |p| > 0
  {
    if first then
      [WriteDesc(0), WriteDesc(1), Fill(0), Slot, Publish, Notify, Wait, Read]
    else if parts == 1 then
      [Fill(0), WriteDesc(0), WriteDesc(1), ReadUsed, Slot, Publish, Notify, Wait, Read]
    else
      [Fill(0), WriteDesc(0), Fill(1), WriteDesc(1), ReadUsed, WriteDesc(2), Slot, Publish, Notify, Wait, Read]
  }

  // A submission under way: the descriptors head, head + 1, ... and the buffers from `bufs` on are its own.
  datatype Call = Call(cmd: Command, first: bool, pc: nat, head: nat, bufs: nat, usedBefore: nat)

  datatype Driver = Between | Calling(call: Call)

  datatype Stage =
    | Idle
    | Reading(head: nat, at: nat, chain: seq<Desc>)   // fetching descriptors
    | Ready(head: nat, chain: seq<Desc>)              // the chain is complete
    | Answered(head: nat)                             // the reply is written
    | Listed                                          // the used element is written
    | Broken                                          // the chain made no sense

  datatype Exec = Exec(cmd: Command, reply: int)
  datatype Outcome = Outcome(cmd: Command, content: Content)

  datatype State = State(
    q: nat,                                                    // queue_size
    desc: seq<Desc>, ring: seq<nat>, avail: nat,               // descriptor table and driver area
    usedRing: seq<nat>, used: nat,                             // device area
    mem: map<nat, Content>,                                    // buffers
    next: nat, unused: nat, driver: Driver,                    // descriptor_index, heap, the call under way
    device: Stage, last: nat,                                  // the device and its position in the ring
    submitted: seq<Command>, executed: seq<Exec>, received: seq<Outcome>)   // history

  predicate QueueSize(q: nat) {
    4 <= q <= U16 && U16 % q == 0
  }

  predicate Init(s: State) {
    && QueueSize(s.q) && |s.desc| == |s.ring| == |s.usedRing| == s.q
    && s.avail == s.used == s.last == s.next == 0
    && s.mem == map[] && s.driver == Between && s.device == Idle
    && s.submitted == [] && s.executed == [] && s.received == []
  }

  // ---- the driver ----

  // The table entry and the contents of the k-th descriptor of a call.
  function Index(q: nat, c: Call, k: nat): nat
    requires q > 0
  {
    (c.head + k) % q
  }

  function DescFor(q: nat, c: Call, k: nat): Desc
    requires q > 0
  {
    if k < c.cmd.parts then Desc(c.bufs + k, false, true, Index(q, c, k + 1))
    else Desc(c.bufs + k, true, false, 0)
  }

  // Descriptors are taken with get_next_descriptor, buffers come from kalloc.
  function Begin(s: State, cmd: Command): State
    requires s.q > 0
  {
    s.(driver := Calling(Call(cmd, s.received == [], 0, s.next, s.unused, 0)),
       next := (s.next + cmd.parts + 1) % s.q,
       unused := s.unused + cmd.parts + 1)
  }

  predicate WellFormed(s: State) {
    s.q > 0 && |s.desc| == |s.ring| == |s.usedRing| == s.q
  }

  function Holds(mem: map<nat, Content>, a: nat): Content { if a in mem then mem[a] else Blank }

  function Advance(s: State, c: Call): State
    requires WellFormed(s) && c.pc < |Program(c.first, c.cmd.parts)|
  {
    var t := s.(driver := Calling(c.(pc := c.pc + 1)));
    match Program(c.first, c.cmd.parts)[c.pc]
    case Fill(k) => t.(mem := s.mem[c.bufs + k := Part(c.cmd, k)])
    case WriteDesc(k) => t.(desc := s.desc[Index(s.q, c, k) := DescFor(s.q, c, k)])
    case ReadUsed => s.(driver := Calling(c.(pc := c.pc + 1, usedBefore := s.used)))
    case Slot => if c.first then t.(ring := s.ring[0 := 0]) else t.(ring := s.ring[s.avail % s.q := c.head])
    case Publish => t.(avail := if c.first then 1 else (s.avail + 1) % U16, submitted := s.submitted + [c.cmd])
    case Notify => t
    case Wait => if s.used == c.usedBefore then s else t   // one turn of the busy loop
    case Read => s.(driver := Between, received := s.received + [Outcome(c.cmd, Holds(s.mem, c.bufs + c.cmd.parts))])
  }

  // ---- the device ----

  // The command that a chain of descriptors carries.
  function CommandOf(mem: map<nat, Content>, chain: seq<Desc>): Option<Command> {
    var n := |chain| - 1;
    if n >= 1 && chain[n].write && chain[0].addr in mem && mem[chain[0].addr].Part?
       && mem[chain[0].addr].cmd.parts == n
       && (forall k :: 0 <= k < n ==> !chain[k].write && chain[k].addr in mem
                                      && mem[chain[k].addr] == Part(mem[chain[0].addr].cmd, k))
    then Some(mem[chain[0].addr].cmd)
    else None
  }

  function Fetch(s: State): State
    requires WellFormed(s)
  {
    var head := s.ring[s.last % s.q];
    s.(device := Reading(head, head, []))
  }

  function ReadDesc(s: State): State
    requires WellFormed(s) && s.device.Reading?
  {
    var Reading(head, at, chain) := s.device;
    if at >= s.q || |chain| >= s.q then s.(device := Broken)
    else if s.desc[at].more then s.(device := Reading(head, s.desc[at].next, chain + [s.desc[at]]))
    else s.(device := Ready(head, chain + [s.desc[at]]))
  }

  function Answer(s: State, reply: int): State
    requires s.device.Ready?
  {
    var Ready(head, chain) := s.device;
    match CommandOf(s.mem, chain)
    case None => s.(device := Broken)
    case Some(cmd) =>
      s.(device := Answered(head), mem := s.mem[chain[|chain| - 1].addr := Reply(reply)],
         executed := s.executed + [Exec(cmd, reply)])
  }

  // ---- steps and runs ----

  datatype Step = StartCall(cmd: Command) | DriverStep | FetchHead | FetchDesc | WriteReply(reply: int)
      | ListUsed | Complete

  predicate Enabled(s: State, e: Step) {
    match e
    case StartCall(cmd) =>
      // the constructor comes first and asks for the display information
      s.driver.Between? && (cmd.parts == 1 || (cmd.parts == 2 && s.received != []))
    case DriverStep => s.driver.Calling?
    case FetchHead => s.device.Idle? && s.last != s.avail   // notified or not
    case FetchDesc => s.device.Reading?
    case WriteReply(_) => s.device.Ready?
    case ListUsed => s.device.Answered?
    case Complete => s.device.Listed?
  }

  predicate CanRun(s: State) {
    WellFormed(s) && (s.driver.Calling? ==> s.driver.call.pc < |Program(s.driver.call.first, s.driver.call.cmd.parts)|)
  }

  function Apply(s: State, e: Step): State
    requires CanRun(s) && Enabled(s, e)
  {
    match e
    case StartCall(cmd) => Begin(s, cmd)
    case DriverStep => Advance(s, s.driver.call)
    case FetchHead => Fetch(s)
    case FetchDesc => ReadDesc(s)
    case WriteReply(r) => Answer(s, r)
    case ListUsed => s.(device := Listed, usedRing := s.usedRing[s.used % s.q := s.device.head])
    case Complete => s.(device := Idle, used := (s.used + 1) % U16, last := (s.last + 1) % U16)
  }

  // ---- the invariant ----

  // The position of a step in its program.
  function Place(first: bool, parts: nat, m: Micro): nat {
    match m
    case Fill(k) => if first then 2 else if k == 0 then 0 else 2
    case WriteDesc(k) => if first then k else if k == 0 then 1 else if k == 1 then parts + 1 else 5
    case ReadUsed => if first then 0 else parts + 2
    case Slot => if first then 3 else if parts == 1 then 4 else 6
    case Publish => if first then 4 else if parts == 1 then 5 else 7
    case Notify => if first then 5 else if parts == 1 then 6 else 8
    case Wait => if first then 6 else if parts == 1 then 7 else 9
    case Read => if first then 7 else if parts == 1 then 8 else 10
  }

  // The steps that a program contains.
  predicate Belongs(first: bool, parts: nat, m: Micro) {
    match m
    case Fill(k) => k < parts
    case WriteDesc(k) => k <= parts
    case ReadUsed => !first
    case _ => true
  }

  predicate Parts(first: bool, parts: nat) { parts == 1 || (parts == 2 && !first) }

  lemma Positions(first: bool, parts: nat, pc: nat, m: Micro)
    requires Parts(first, parts)
    ensures pc < |Program(first, parts)| ==>
              Belongs(first, parts, Program(first, parts)[pc]) && Place(first, parts, Program(first, parts)[pc]) == pc
    ensures pc < |Program(first, parts)| && Program(first, parts)[pc] != Read ==> pc + 1 < |Program(first, parts)|
    ensures Belongs(first, parts, m) ==>
              Place(first, parts, m) < |Program(first, parts)| && Program(first, parts)[Place(first, parts, m)] == m
  {
  }

  predicate DoneBy(first: bool, parts: nat, pc: nat, m: Micro) { Place(first, parts, m) < pc }

  predicate Done(c: Call, m: Micro) { DoneBy(c.first, c.cmd.parts, c.pc, m) }

  // How many chains the device has returned.
  function Completed(s: State): int {
    |s.executed| - if s.device.Answered? || s.device.Listed? then 1 else 0
  }

  ghost predicate Shape(s: State) {
    && QueueSize(s.q) && WellFormed(s) && s.next < s.q
    && (forall a :: a in s.mem ==> a < s.unused)
  }

  ghost predicate Logs(s: State) {
    && s.avail == |s.submitted| % U16 && 0 <= Completed(s) && s.used == s.last == Completed(s) % U16
    && |s.received| <= Completed(s) <= |s.submitted| <= |s.received| + 1 && |s.executed| <= |s.submitted|
    && (forall i :: 0 <= i < |s.executed| ==> s.executed[i].cmd == s.submitted[i])
    && (forall i :: 0 <= i < |s.received| ==> s.received[i] == Outcome(s.executed[i].cmd, Reply(s.executed[i].reply)))
  }

  ghost predicate DescsDone(q: nat, desc: seq<Desc>, c: Call)
    requires |desc| == q > 0
  {
    forall k :: 0 <= k <= c.cmd.parts && Done(c, WriteDesc(k)) ==> desc[Index(q, c, k)] == DescFor(q, c, k)
  }

  ghost predicate FillsDone(mem: map<nat, Content>, c: Call) {
    forall k :: 0 <= k < c.cmd.parts && Done(c, Fill(k)) ==> Holds(mem, c.bufs + k) == Part(c.cmd, k)
  }

  // The same submission, possibly further on.
  predicate SameCall(c: Call, d: Call) {
    d.cmd == c.cmd && d.first == c.first && d.head == c.head && d.bufs == c.bufs
  }

  ghost predicate CallInv(s: State, c: Call)
    requires WellFormed(s)
  {
    && Parts(c.first, c.cmd.parts) && c.pc < |Program(c.first, c.cmd.parts)|
    && (c.first <==> s.received == []) && (c.first ==> c.head == 0)
    && c.head < s.q && s.next == (c.head + c.cmd.parts + 1) % s.q && c.bufs + c.cmd.parts < s.unused
    && DescsDone(s.q, s.desc, c) && FillsDone(s.mem, c)
    && (Done(c, Slot) ==> s.ring[|s.received| % s.q] == c.head)
    && (c.first || Done(c, ReadUsed) ==> c.usedBefore == |s.received| % U16)
    && |s.submitted| == |s.received| + (if Done(c, Publish) then 1 else 0)
    && (Done(c, Publish) ==> s.submitted[|s.received|] == c.cmd)
    && (Done(c, Wait) ==> Completed(s) == |s.received| + 1)
    && (|s.executed| == |s.received| + 1 ==>
          Holds(s.mem, c.bufs + c.cmd.parts) == Reply(s.executed[|s.received|].reply))
  }

  function ChainFor(q: nat, c: Call): seq<Desc>
    requires q > 0
  {
    seq(c.cmd.parts + 1, k requires k >= 0 => DescFor(q, c, k))
  }

  ghost predicate DeviceInv(s: State, c: Call)
    requires WellFormed(s)
  {
    match s.device
    case Idle => true
    case Reading(head, at, chain) =>
      |chain| <= c.cmd.parts && head == c.head && at == Index(s.q, c, |chain|) && chain == ChainFor(s.q, c)[..|chain|]
    case Ready(head, chain) => head == c.head && chain == ChainFor(s.q, c)
    case Answered(head) => head == c.head
    case Listed => true
    case Broken => false
  }

  ghost predicate Inv(s: State) {
    && Shape(s) && Logs(s)
    && (!s.device.Idle? ==> |s.submitted| == Completed(s) + 1)
    && match s.driver
       case Between => |s.submitted| == |s.received| && (s.received == [] ==> s.next == 0)
       case Calling(c) => CallInv(s, c) && DeviceInv(s, c)
  }

  lemma InitInv(s: State)
    requires Init(s)
    ensures Inv(s)
  {
  }

  // ---- every step keeps it ----

  lemma BeginKeeps(s: State, cmd: Command)
    requires Inv(s) && Enabled(s, StartCall(cmd))
    ensures Inv(Begin(s, cmd))
  {
  }

  // Before publication the device has nothing to do.
  lemma Quiet(s: State, c: Call)
    requires Inv(s) && s.driver == Calling(c) && !Done(c, Publish)
    ensures s.device == Idle && Completed(s) == |s.received| == |s.submitted| == |s.executed|
  {
  }

  // The steps of a call are done in the order of its program.
  lemma Order(c: Call)
    requires Parts(c.first, c.cmd.parts) && c.pc < |Program(c.first, c.cmd.parts)|
    ensures var now := Program(c.first, c.cmd.parts)[c.pc];
            && Belongs(c.first, c.cmd.parts, now) && !Done(c, now)
            && (now != Read ==> c.pc + 1 < |Program(c.first, c.cmd.parts)|)
            && forall m :: Belongs(c.first, c.cmd.parts, m) ==>
                (DoneBy(c.first, c.cmd.parts, c.pc + 1, m) <==> Done(c, m) || m == now)
  {
    hide Program, Place;
    Positions(c.first, c.cmd.parts, c.pc, Read);
    forall m | Belongs(c.first, c.cmd.parts, m)
      ensures DoneBy(c.first, c.cmd.parts, c.pc + 1, m) <==> Done(c, m) || m == Program(c.first, c.cmd.parts)[c.pc]
    {
      Positions(c.first, c.cmd.parts, c.pc, m);
    }
  }

  // What comes before what.
  lemma Before(c: Call)
    requires Parts(c.first, c.cmd.parts) && c.pc < |Program(c.first, c.cmd.parts)|
    ensures match Program(c.first, c.cmd.parts)[c.pc]
            case Read => Done(c, Wait) && Done(c, Publish)
            case Wait => !Done(c, Wait) && Done(c, Publish)
            case Notify => !Done(c, Wait) && Done(c, Publish)
            case _ => !Done(c, Wait) && !Done(c, Publish)
    ensures Done(c, Wait) ==> Done(c, Publish)
    ensures Done(c, Publish) ==> Done(c, Slot) && (!c.first ==> Done(c, ReadUsed))
    ensures Done(c, Slot) ==> forall k :: 0 <= k <= c.cmd.parts ==> Done(c, WriteDesc(k))
    ensures Done(c, Slot) ==> forall k :: 0 <= k < c.cmd.parts ==> Done(c, Fill(k))
  {
  }

  lemma Wrap(q: nat, x: nat)
    requires 0 < q && x < 2 * q
    ensures x % q == if x < q then x else x - q
  {
  }

  // Descriptors of one chain are different entries of the table.
  lemma Apart(q: nat, head: nat, i: nat, j: nat)
    requires QueueSize(q) && head < q && i <= 3 && j <= 3
    ensures (head + i) % q == (head + j) % q <==> i == j
    ensures (head + i) % q == if head + i < q then head + i else head + i - q
  {
    Wrap(q, head + i);
    Wrap(q, head + j);
  }

  predicate Now(c: Call, m: Micro) {
    Parts(c.first, c.cmd.parts) && c.pc < |Program(c.first, c.cmd.parts)| && Program(c.first, c.cmd.parts)[c.pc] == m
  }

  lemma SameDescs(q: nat, c: Call, d: Call)
    requires q > 0 && SameCall(c, d)
    ensures forall k: nat :: DescFor(q, d, k) == DescFor(q, c, k) && Index(q, d, k) == Index(q, c, k)
  {
  }

  lemma DescsStay(q: nat, desc: seq<Desc>, c: Call, d: Call, m: Micro)
    requires |desc| == q > 0 && DescsDone(q, desc, c) && SameCall(c, d) && d.pc == c.pc + 1 && Now(c, m)
        && !m.WriteDesc?
    ensures DescsDone(q, desc, d)
  {
    hide Program, DoneBy, DescFor, Index;
    Order(c);
    SameDescs(q, c, d);
  }

  lemma FillsStay(mem: map<nat, Content>, c: Call, d: Call, m: Micro)
    requires FillsDone(mem, c) && SameCall(c, d) && d.pc == c.pc + 1 && Now(c, m) && !m.Fill?
    ensures FillsDone(mem, d)
  {
    hide Program, DoneBy;
    Order(c);
  }

  lemma DeviceStays(s: State, t: State, c: Call, d: Call)
    requires WellFormed(s) && WellFormed(t) && t.q == s.q && t.device == s.device && SameCall(c, d) && DeviceInv(s, c)
    ensures DeviceInv(t, d)
  {
    hide DescFor;
    SameDescs(s.q, c, d);
    assert ChainFor(s.q, d) == ChainFor(s.q, c);
  }

  lemma FillsGrow(mem: map<nat, Content>, c: Call, k: nat)
    requires FillsDone(mem, c) && Now(c, Fill(k))
    ensures FillsDone(mem[c.bufs + k := Part(c.cmd, k)], c.(pc := c.pc + 1))
  {
    hide Program, DoneBy;
    Order(c);
  }

  lemma FillKeeps(s: State, c: Call, k: nat)
    requires Inv(s) && s.driver == Calling(c) && Now(c, Fill(k))
    ensures Inv(Advance(s, c))
  {
    hide Program, DoneBy, DescsDone, FillsDone;
    Order(c);
    Before(c);
    Quiet(s, c);
    DescsStay(s.q, s.desc, c, c.(pc := c.pc + 1), Fill(k));
    FillsGrow(s.mem, c, k);
  }

  lemma DescsGrow(q: nat, desc: seq<Desc>, c: Call, k: nat)
    requires |desc| == q && QueueSize(q) && c.head < q && DescsDone(q, desc, c) && Now(c, WriteDesc(k))
    ensures DescsDone(q, desc[Index(q, c, k) := DescFor(q, c, k)], c.(pc := c.pc + 1))
  {
    hide Program, DoneBy, DescFor;
    Order(c);
    forall j | 0 <= j <= c.cmd.parts
      ensures Index(q, c, j) == Index(q, c, k) <==> j == k
    {
      Apart(q, c.head, j, k);
    }
    SameDescs(q, c, c.(pc := c.pc + 1));
  }

  lemma DescKeeps(s: State, c: Call, k: nat)
    requires Inv(s) && s.driver == Calling(c) && Now(c, WriteDesc(k))
    ensures Inv(Advance(s, c))
  {
    hide Program, DoneBy, DescsDone, FillsDone, DescFor;
    Order(c);
    Before(c);
    Quiet(s, c);
    FillsStay(s.mem, c, c.(pc := c.pc + 1), WriteDesc(k));
    DescsGrow(s.q, s.desc, c, k);
  }

  lemma UsedKeeps(s: State, c: Call)
    requires Inv(s) && s.driver == Calling(c) && Now(c, ReadUsed)
    ensures Inv(Advance(s, c))
  {
    hide Program, DoneBy, DescsDone, FillsDone, Index, DescFor, ChainFor, Holds;
    Order(c);
    Before(c);
    Quiet(s, c);
    DescsStay(s.q, s.desc, c, c.(pc := c.pc + 1, usedBefore := s.used), ReadUsed);
    FillsStay(s.mem, c, c.(pc := c.pc + 1, usedBefore := s.used), ReadUsed);
  }

  // The slot is the number of submissions modulo the queue size, across the wrap of the 16-bit index.
  lemma RingSlot(q: nat, t: nat)
    requires QueueSize(q)
    ensures t % U16 % q == t % q
  {
    var w, a, b := U16 / q, t / U16, t % U16;
    assert U16 == q * w;
    calc {
      t;
      U16 * a + b;
      q * w * a + q * (b / q) + b % q;
      q * (w * a + b / q) + b % q;
    }
    Remainder(q, w * a + b / q, b % q);
  }

  lemma SlotForm(s: State, c: Call, n: nat)
    requires WellFormed(s) && Now(c, Slot) && s.avail % s.q == n % s.q && (c.first ==> n == 0 && c.head == 0)
    ensures Advance(s, c) == s.(driver := Calling(c.(pc := c.pc + 1)), ring := s.ring[n % s.q := c.head])
  {
    hide Program, Index, DescFor, Holds;
  }

  lemma SlotWrites(s: State, c: Call)
    requires Inv(s) && s.driver == Calling(c) && Now(c, Slot)
    ensures Advance(s, c) ==
            s.(driver := Calling(c.(pc := c.pc + 1)), ring := s.ring[|s.received| % s.q := c.head])
  {
    hide Program, DoneBy, DescsDone, FillsDone, DeviceInv, Advance;
    Before(c);
    Quiet(s, c);
    RingSlot(s.q, |s.received|);
    SlotForm(s, c, |s.received|);
  }

  lemma SlotKeeps(s: State, c: Call)
    requires Inv(s) && s.driver == Calling(c) && Now(c, Slot)
    ensures Inv(Advance(s, c))
  {
    hide Program, DoneBy, DescsDone, FillsDone, Index, DescFor, ChainFor, Holds, Advance;
    SlotWrites(s, c);
    Order(c);
    Before(c);
    DescsStay(s.q, s.desc, c, c.(pc := c.pc + 1), Slot);
    FillsStay(s.mem, c, c.(pc := c.pc + 1), Slot);
    Quiet(s, c);
  }

  lemma NextIndex(t: nat)
    ensures (t % U16 + 1) % U16 == (t + 1) % U16
    ensures (t + 1) % U16 != t % U16
  {
  }

  lemma PublishKeeps(s: State, c: Call)
    requires Inv(s) && s.driver == Calling(c) && Now(c, Publish)
    ensures Inv(Advance(s, c))
  {
    hide Program, DoneBy, DescsDone, FillsDone, Index, DescFor, ChainFor, Holds;
    Order(c);
    Before(c);
    NextIndex(|s.submitted|);
    DescsStay(s.q, s.desc, c, c.(pc := c.pc + 1), Publish);
    FillsStay(s.mem, c, c.(pc := c.pc + 1), Publish);
    Quiet(s, c);
  }

  lemma NotifyKeeps(s: State, c: Call)
    requires Inv(s) && s.driver == Calling(c) && Now(c, Notify)
    ensures Inv(Advance(s, c))
  {
    hide Program, DoneBy, DescsDone, FillsDone, DeviceInv, Holds;
    DeviceStays(s, Advance(s, c), c, c.(pc := c.pc + 1));
    Order(c);
    Before(c);
    DescsStay(s.q, s.desc, c, c.(pc := c.pc + 1), Notify);
    FillsStay(s.mem, c, c.(pc := c.pc + 1), Notify);
  }

  // The wait ends exactly when the device has returned this chain.
  lemma WaitKeeps(s: State, c: Call)
    requires Inv(s) && s.driver == Calling(c) && Now(c, Wait)
    ensures Inv(Advance(s, c))
    ensures s.used != c.usedBefore <==> Completed(s) == |s.received| + 1
  {
    hide Program, DoneBy, DescsDone, FillsDone, DeviceInv, Holds;
    DeviceStays(s, Advance(s, c), c, c.(pc := c.pc + 1));
    NextIndex(|s.received|);
    Order(c);
    Before(c);
    DescsStay(s.q, s.desc, c, c.(pc := c.pc + 1), Wait);
    FillsStay(s.mem, c, c.(pc := c.pc + 1), Wait);
  }

  lemma ReadKeeps(s: State, c: Call)
    requires Inv(s) && s.driver == Calling(c) && Now(c, Read)
    ensures Inv(Advance(s, c))
  {
    hide Program, DoneBy, DescsDone, FillsDone, Index, DescFor, ChainFor, Holds;
    Order(c);
    Before(c);
  }

  // A published chain that the device has not returned belongs to the call under way.
  lemma Outstanding(s: State)
    requires Inv(s) && |s.submitted| > Completed(s)
    ensures s.driver.Calling? && Done(s.driver.call, Publish) && !Done(s.driver.call, Wait)
    ensures Completed(s) == |s.received| && |s.submitted| == |s.received| + 1
  {
    hide Program, DoneBy, DescsDone, FillsDone, DeviceInv;
  }

  // All of it is in place.
  lemma Published(s: State, c: Call)
    requires Inv(s) && s.driver == Calling(c) && Done(c, Publish)
    ensures s.ring[|s.received| % s.q] == c.head
    ensures forall k :: 0 <= k <= c.cmd.parts ==> s.desc[Index(s.q, c, k)] == DescFor(s.q, c, k)
    ensures forall k :: 0 <= k < c.cmd.parts ==> Holds(s.mem, c.bufs + k) == Part(c.cmd, k)
  {
    hide Program, DoneBy, DeviceInv, DescFor, Index;
    Before(c);
  }

  lemma FirstIndex(q: nat, c: Call)
    requires c.head < q
    ensures Index(q, c, 0) == c.head
  {
  }

  lemma FetchKeeps(s: State)
    requires Inv(s) && Enabled(s, FetchHead)
    ensures Inv(Fetch(s))
  {
    hide Program, DoneBy, DescsDone, FillsDone, Index, DescFor, ChainFor;
    Outstanding(s);
    var c := s.driver.call;
    Published(s, c);
    RingSlot(s.q, |s.received|);
    FirstIndex(s.q, c);
    assert ChainFor(s.q, c)[..0] == [];
  }

  lemma FetchDescKeeps(s: State)
    requires Inv(s) && Enabled(s, FetchDesc)
    ensures Inv(ReadDesc(s))
  {
    hide Program, DoneBy, DescsDone, FillsDone;
    Outstanding(s);
    var c := s.driver.call;
    Published(s, c);
    var k := |s.device.chain|;
    assert s.desc[Index(s.q, c, k)] == DescFor(s.q, c, k);
    assert ChainFor(s.q, c)[..k] + [ChainFor(s.q, c)[k]] == ChainFor(s.q, c)[..k + 1];
  }

  lemma CarriesCommand(mem: map<nat, Content>, q: nat, c: Call)
    requires q > 0 && Parts(c.first, c.cmd.parts)
    requires forall k :: 0 <= k < c.cmd.parts ==> Holds(mem, c.bufs + k) == Part(c.cmd, k)
    ensures CommandOf(mem, ChainFor(q, c)) == Some(c.cmd)
  {
    var chain := ChainFor(q, c);
    forall k | 0 <= k < c.cmd.parts
      ensures !chain[k].write && chain[k].addr in mem && mem[chain[k].addr] == Part(c.cmd, k)
    {
      assert Holds(mem, c.bufs + k) == Part(c.cmd, k);
    }
  }

  lemma ReplyApart(mem: map<nat, Content>, c: Call, reply: int)
    requires FillsDone(mem, c)
    ensures FillsDone(mem[c.bufs + c.cmd.parts := Reply(reply)], c)
  {
  }

  lemma AnswerKeeps(s: State, reply: int)
    requires Inv(s) && Enabled(s, WriteReply(reply))
    ensures Inv(Answer(s, reply))
  {
    hide Program, DoneBy, DescsDone, FillsDone;
    Outstanding(s);
    var c := s.driver.call;
    Published(s, c);
    CarriesCommand(s.mem, s.q, c);
    ReplyApart(s.mem, c, reply);
  }

  lemma ListKeeps(s: State)
    requires Inv(s) && Enabled(s, ListUsed)
    ensures Inv(s.(device := Listed, usedRing := s.usedRing[s.used % s.q := s.device.head]))
  {
    hide Program, DoneBy, DescsDone, FillsDone;
  }

  lemma CompleteKeeps(s: State)
    requires Inv(s) && Enabled(s, Complete)
    ensures Inv(s.(device := Idle, used := (s.used + 1) % U16, last := (s.last + 1) % U16))
  {
    hide Program, DoneBy, DescsDone, FillsDone;
    Outstanding(s);
  }

  lemma DriverKeeps(s: State)
    requires Inv(s) && s.driver.Calling?
    ensures Inv(Advance(s, s.driver.call))
  {
    hide Shape, Logs, DeviceInv, DescsDone, FillsDone, Advance, Program;
    var c := s.driver.call;
    match Program(c.first, c.cmd.parts)[c.pc]
    case Fill(k) => FillKeeps(s, c, k);
    case WriteDesc(k) => DescKeeps(s, c, k);
    case ReadUsed => UsedKeeps(s, c);
    case Slot => SlotKeeps(s, c);
    case Publish => PublishKeeps(s, c);
    case Notify => NotifyKeeps(s, c);
    case Wait => WaitKeeps(s, c);
    case Read => ReadKeeps(s, c);
  }

  lemma InvRuns(s: State)
    requires Inv(s)
    ensures CanRun(s)
  {
    hide Program, Done, DescsDone, FillsDone, DeviceInv;
  }

  lemma StepKeeps(s: State, e: Step)
    requires Inv(s) && CanRun(s) && Enabled(s, e)
    ensures Inv(Apply(s, e))
  {
    hide Inv, Program, Advance, Begin, Fetch, ReadDesc, Answer;
    match e
    case StartCall(cmd) => BeginKeeps(s, cmd);
    case DriverStep => DriverKeeps(s);
    case FetchHead => FetchKeeps(s);
    case FetchDesc => FetchDescKeeps(s);
    case WriteReply(r) => AnswerKeeps(s, r);
    case ListUsed => ListKeeps(s);
    case Complete => CompleteKeeps(s);
  }

  // ---- what follows for single steps ----

  // The slot written is the number of earlier submissions modulo the queue size, and the index then
  // counts one more; the constants of the constructor are the same thing for the first submission.
  lemma SlotIsCount(s: State, c: Call)
    requires Inv(s) && s.driver == Calling(c)
    ensures Now(c, Slot) ==> Advance(s, c).ring == s.ring[|s.submitted| % s.q := c.head]
    ensures Now(c, Publish) ==> Advance(s, c).avail == (|s.submitted| + 1) % U16 == (s.avail + 1) % U16
  {
    hide Program, DoneBy, DescsDone, FillsDone, DeviceInv;
    Before(c);
    RingSlot(s.q, |s.submitted|);
    NextIndex(|s.submitted|);
  }

  // While a chain is outstanding nobody writes descriptors, the driver area or the command.
  lemma NoOverwrite(s: State, e: Step)
    requires Inv(s) && CanRun(s) && Enabled(s, e) && |s.submitted| > Completed(s)
    ensures var t := Apply(s, e);
            && s.driver.Calling? && t.desc == s.desc && t.ring == s.ring && t.avail == s.avail
            && forall a: nat :: a != s.driver.call.bufs + s.driver.call.cmd.parts ==> Holds(t.mem, a) == Holds(s.mem, a)
  {
    hide Program, DoneBy, DescsDone, FillsDone;
    Outstanding(s);
    Before(s.driver.call);
  }

  // The used element names the chain that was published last, in the slot of its number.
  lemma UsedElement(s: State)
    requires Inv(s) && s.device.Answered?
    ensures |s.submitted| > 0
    ensures Apply(s, ListUsed).usedRing == s.usedRing[(|s.submitted| - 1) % s.q := s.ring[(|s.submitted| - 1) % s.q]]
  {
    hide Program, DoneBy, DescsDone, FillsDone;
    Outstanding(s);
    InvRuns(s);
    Published(s, s.driver.call);
    RingSlot(s.q, |s.submitted| - 1);
  }

  // Following the table from an entry on, for at most `fuel` entries.
  function Walk(desc: seq<Desc>, at: nat, fuel: nat): Option<seq<nat>>
    decreases fuel
  {
    if fuel == 0 || at >= |desc| then None
    else if !desc[at].more then Some([at])
    else match Walk(desc, desc[at].next, fuel - 1)
      case None => None
      case Some(rest) => Some([at] + rest)
  }

  function Indices(q: nat, c: Call, k: nat): seq<nat>
    requires q > 0
    decreases c.cmd.parts + 1 - k
  {
    if k > c.cmd.parts then [] else [Index(q, c, k)] + Indices(q, c, k + 1)
  }

  lemma {:induction false} WalkFrom(desc: seq<Desc>, c: Call, k: nat, fuel: nat)
    requires |desc| > 0 && k <= c.cmd.parts && fuel > c.cmd.parts - k
    requires forall j :: 0 <= j <= c.cmd.parts ==> desc[Index(|desc|, c, j)] == DescFor(|desc|, c, j)
    ensures Walk(desc, Index(|desc|, c, k), fuel) == Some(Indices(|desc|, c, k))
    decreases c.cmd.parts - k
  {
    assert Index(|desc|, c, k) < |desc|;
    assert desc[Index(|desc|, c, k)] == DescFor(|desc|, c, k);
    hide Index;
    if k < c.cmd.parts {
      WalkFrom(desc, c, k + 1, fuel - 1);
    } else {
      assert Indices(|desc|, c, k + 1) == [];
      assert [Index(|desc|, c, k)] + [] == [Index(|desc|, c, k)];
    }
  }

  lemma ChainIndices(q: nat, c: Call)
    requires QueueSize(q) && c.head < q && Parts(c.first, c.cmd.parts)
    ensures Indices(q, c, 0) == if c.cmd.parts == 1 then [Index(q, c, 0), Index(q, c, 1)]
                                else [Index(q, c, 0), Index(q, c, 1), Index(q, c, 2)]
    ensures forall i, j :: 0 <= i < j <= c.cmd.parts ==> Indices(q, c, 0)[i] != Indices(q, c, 0)[j]
    ensures forall i :: 0 <= i <= c.cmd.parts ==> Indices(q, c, 0)[i] == Index(q, c, i) < q
  {
    Apart(q, c.head, 0, 1);
    Apart(q, c.head, 1, 2);
    Apart(q, c.head, 0, 2);
    assert Indices(q, c, 3) == [];
    hide Index;
    assert Indices(q, c, 2) == if c.cmd.parts == 1 then [] else [Index(q, c, 2)];
  }

  // An outstanding chain, read from the ring slot of its submission: two or three different
  // descriptors, all device-readable but the last, which ends the chain.
  lemma PublishedChain(s: State)
    requires Inv(s) && |s.submitted| > Completed(s)
    ensures |s.submitted| > 0
    ensures var w := Walk(s.desc, s.ring[(|s.submitted| - 1) % s.q], s.q);
            && w.Some? && 2 <= |w.value| <= 3
            && (forall i, j :: 0 <= i < j < |w.value| ==> w.value[i] != w.value[j])
            && (forall i :: 0 <= i < |w.value| ==> w.value[i] < s.q)
            && (forall i :: 0 <= i < |w.value| ==>
                       && s.desc[w.value[i]].write == (i == |w.value| - 1)
                       && s.desc[w.value[i]].more == (i < |w.value| - 1))
  {
    hide Program, DoneBy, DescsDone, FillsDone, Walk, Indices, Index, DeviceInv;
    Outstanding(s);
    var c := s.driver.call;
    Published(s, c);
    FirstIndex(s.q, c);
    WalkFrom(s.desc, c, 0, s.q);
    ChainIndices(s.q, c);
    var w := Indices(s.q, c, 0);
    forall i | 0 <= i < |w|
      ensures s.desc[w[i]].write == (i == |w| - 1) && s.desc[w[i]].more == (i < |w| - 1)
    {
      assert s.desc[w[i]] == DescFor(s.q, c, i);
    }
  }

  // ---- progress ----

  // The device steps that an outstanding chain still needs.
  function Work(s: State): int
    requires s.driver.Calling?
  {
    var n := s.driver.call.cmd.parts;
    match s.device
    case Idle => n + 5
    case Reading(_, _, chain) => n + 4 - |chain|
    case Ready(_, _) => 3
    case Answered(_) => 2
    case Listed => 1
    case Broken => 0
  }

  predicate OfDevice(e: Step) { !e.StartCall? && !e.DriverStep? }

  lemma CarriesAll(s: State, c: Call)
    requires Inv(s) && s.driver == Calling(c) && Done(c, Publish)
    ensures CommandOf(s.mem, ChainFor(s.q, c)) == Some(c.cmd)
  {
    hide Program, DoneBy, DescsDone, FillsDone, DeviceInv, CommandOf, ChainFor;
    Published(s, c);
    CarriesCommand(s.mem, s.q, c);
  }

  // As long as a chain is outstanding the device can move; each of its moves leaves one fewer, and
  // the driver's moves change nothing about it.
  lemma DeviceProgress(s: State, e: Step)
    requires Inv(s) && CanRun(s) && |s.submitted| > Completed(s)
    ensures Work(s) > 0
    ensures exists d :: OfDevice(d) && Enabled(s, d)
    ensures Enabled(s, e) && OfDevice(e) ==>
              if |Apply(s, e).submitted| > Completed(Apply(s, e)) then Work(Apply(s, e)) == Work(s) - 1
                  else Work(s) == 1
    ensures Enabled(s, e) && !OfDevice(e) ==> Apply(s, e).device == s.device && Completed(Apply(s, e)) == Completed(s)
  {
    hide Program, DoneBy, DescsDone, FillsDone;
    Outstanding(s);
    var c := s.driver.call;
    Before(c);
    Published(s, c);
    CarriesAll(s, c);
    NextIndex(Completed(s));
    var d := match s.device
      case Idle => FetchHead
      case Reading(_, _, _) => FetchDesc
      case Ready(_, _) => WriteReply(0)
      case Answered(_) => ListUsed
      case _ => Complete;
    assert OfDevice(d) && Enabled(s, d);
  }

  // ---- runs ----

  ghost predicate CanRunAll(s: State, es: seq<Step>)
    decreases |es|
  {
    es == [] || (CanRun(s) && Enabled(s, es[0]) && CanRunAll(Apply(s, es[0]), es[1..]))
  }

  ghost function Run(s: State, es: seq<Step>): State
    requires CanRunAll(s, es)
    decreases |es|
  {
    if es == [] then s else Run(Apply(s, es[0]), es[1..])
  }

  // The commands that callers asked for, in order.
  function Calls(es: seq<Step>): seq<Command> {
    if es == [] then []
    else (if es[0].StartCall? then [es[0].cmd] else []) + Calls(es[1..])
  }

  // The commands called for so far: those whose answers were read, and the one under way.
  function Called(s: State): seq<Command> {
    seq(|s.received|, i requires 0 <= i < |s.received| => s.received[i].cmd)
    + if s.driver.Calling? then [s.driver.call.cmd] else []
  }

  lemma CalledGrows(s: State, e: Step)
    requires CanRun(s) && Enabled(s, e)
    ensures Called(Apply(s, e)) == Called(s) + if e.StartCall? then [e.cmd] else []
  {
    hide Program, Holds, CommandOf;
  }

  lemma Associates(a: seq<Command>, b: seq<Command>, c: seq<Command>)
    ensures (a + b) + c == a + (b + c)
  {
  }

  lemma {:induction false} RunKeeps(s: State, es: seq<Step>)
    requires Inv(s) && CanRunAll(s, es)
    ensures Inv(Run(s, es)) && Called(Run(s, es)) == Called(s) + Calls(es)
    decreases |es|
  {
    hide Inv, Apply, CanRun, Called, Enabled, Program;
    if es == [] {
      assert Called(s) + [] == Called(s);
    } else {
      StepKeeps(s, es[0]);
      CalledGrows(s, es[0]);
      var t := Apply(s, es[0]);
      RunKeeps(t, es[1..]);
      var d := if es[0].StartCall? then [es[0].cmd] else [];
      assert Run(s, es) == Run(t, es[1..]);
      assert Calls(es) == d + Calls(es[1..]);
      Associates(Called(s), d, Calls(es[1..]));
    }
  }

  // A sequential device: every call is executed at once and returns what the device replied.
  ghost predicate Sequential(calls: seq<Command>, log: seq<Exec>) {
    |calls| == |log| && forall i :: 0 <= i < |log| ==> log[i].cmd == calls[i]
  }

  lemma Logged(t: State)
    requires Inv(t)
    ensures var n := |t.received|;
            && n <= |t.executed| <= |t.submitted| <= |Called(t)|
            && (forall i :: 0 <= i < |t.executed| ==> t.executed[i].cmd == Called(t)[i])
            && t.submitted == Called(t)[..|t.submitted|]
            && (forall i :: 0 <= i < n ==> t.received[i] == Outcome(Called(t)[i], Reply(t.executed[i].reply)))
            && t.device != Broken && |t.submitted| <= n + 1
  {
    hide Program, DoneBy, DescsDone, FillsDone;
  }

  // Any run refines the sequential device: the calls that have returned are exactly the first ones
  // executed, each with the reply the device wrote for it; and at most one more call, the one under way, has been
  // submitted or executed.
  lemma RunRefines(s: State, es: seq<Step>)
    requires Init(s) && CanRunAll(s, es)
    ensures var t := Run(s, es);
            && var n := |t.received|;
            && n <= |t.executed| <= |t.submitted| <= n + 1 && |t.submitted| <= |Calls(es)|
            && n <= |Calls(es)| <= n + 1 && (t.driver.Between? ==> |Calls(es)| == n)
            && Sequential(Calls(es)[..|t.executed|], t.executed)
            && t.submitted == Calls(es)[..|t.submitted|]
            && (forall i :: 0 <= i < n ==> t.received[i] == Outcome(Calls(es)[i], Reply(t.executed[i].reply)))
            && t.device != Broken
  {
    hide Run, Calls;
    InitInv(s);
    RunKeeps(s, es);
    var t := Run(s, es);
    assert Called(s) == [];
    assert Called(t) == Calls(es);
    Logged(t);
  }

  // ---- which descriptors a call uses ----

  // How many descriptors these calls take.
  function Total(cs: seq<Command>): nat {
    if cs == [] then 0 else Total(cs[..|cs| - 1]) + cs[|cs| - 1].parts + 1
  }

  lemma TotalSnoc(cs: seq<Command>, c: Command)
    ensures Total(cs + [c]) == Total(cs) + c.parts + 1
  {
    assert (cs + [c])[..|cs|] == cs;
  }

  // The calls that have returned.
  function Returned(s: State): seq<Command> {
    seq(|s.received|, i requires 0 <= i < |s.received| => s.received[i].cmd)
  }

  // Descriptors are handed out in turn, one after the other around the table.
  ghost predicate InTurn(s: State)
    requires s.q > 0
  {
    match s.driver
    case Between => s.next == Total(Returned(s)) % s.q
    case Calling(c) =>
      c.head == Total(Returned(s)) % s.q && s.next == (Total(Returned(s)) + c.cmd.parts + 1) % s.q
  }

  lemma SumMod(a: nat, b: nat, q: nat)
    requires q > 0
    ensures (a % q + b) % q == (a + b) % q
  {
    var k, r := (a % q + b) / q, (a % q + b) % q;
    assert a == q * (a / q) + a % q;
    assert a % q + b == q * k + r;
    assert a + b == q * (a / q + k) + r;
    Remainder(q, a / q + k, r);
  }

  lemma BeginInTurn(s: State, cmd: Command)
    requires Inv(s) && Enabled(s, StartCall(cmd)) && InTurn(s)
    ensures InTurn(Begin(s, cmd))
  {
    hide Total;
    SumMod(Total(Returned(s)), cmd.parts + 1, s.q);
    assert Returned(Begin(s, cmd)) == Returned(s);
  }

  lemma AdvanceInTurn(s: State)
    requires Inv(s) && CanRun(s) && s.driver.Calling? && InTurn(s)
    ensures InTurn(Advance(s, s.driver.call))
  {
    hide Program, Total, Holds, DescsDone, FillsDone, DoneBy, DeviceInv;
    var c := s.driver.call;
    var t := Advance(s, c);
    if t.driver.Between? {
      assert Returned(t) == Returned(s) + [c.cmd];
      TotalSnoc(Returned(s), c.cmd);
    } else {
      assert Returned(t) == Returned(s);
    }
  }

  lemma StepInTurn(s: State, e: Step)
    requires Inv(s) && CanRun(s) && Enabled(s, e) && InTurn(s)
    ensures Apply(s, e).q == s.q && InTurn(Apply(s, e))
  {
    hide Program, Total, Inv, CommandOf, Holds;
    match e
    case StartCall(cmd) => BeginInTurn(s, cmd);
    case DriverStep => AdvanceInTurn(s);
    case _ => assert Returned(Apply(s, e)) == Returned(s);
  }

  lemma {:induction false} RunInTurn(s: State, es: seq<Step>)
    requires Inv(s) && CanRunAll(s, es) && s.q > 0 && InTurn(s)
    ensures Run(s, es).q == s.q && InTurn(Run(s, es))
    decreases |es|
  {
    hide Inv, Apply, CanRun, Enabled, InTurn;
    if es != [] {
      StepKeeps(s, es[0]);
      StepInTurn(s, es[0]);
      RunInTurn(Apply(s, es[0]), es[1..]);
    }
  }

  lemma StartInTurn(s: State)
    requires Init(s)
    ensures InTurn(s)
  {
    assert Returned(s) == [];
  }

  // In every run the calls take their descriptors one after the other around the table.  The call under
  // way starts at the entry whose number is the number of descriptors that all earlier calls took, and
  // this is what its ring slot gets; the next call will start where it ends.
  lemma RunHeads(s: State, es: seq<Step>)
    requires Init(s) && CanRunAll(s, es)
    ensures var t := Run(s, es);
            var n := |Calls(es)|;
            && t.q == s.q && |t.ring| == s.q && t.next == Total(Calls(es)) % s.q
            && (t.driver.Calling? ==>
                  && n > 0 && t.driver.call.cmd == Calls(es)[n - 1]
                  && t.driver.call.head == Total(Calls(es)[..n - 1]) % s.q
                  && (|t.submitted| == n ==> t.ring[(n - 1) % s.q] == Total(Calls(es)[..n - 1]) % s.q))
  {
    hide Run, Calls, Total, DeviceInv, DescsDone, FillsDone, DoneBy, Program;
    InitInv(s);
    StartInTurn(s);
    RunKeeps(s, es);
    RunInTurn(s, es);
    var t := Run(s, es);
    assert Called(s) == [];
    assert Called(t) == Calls(es);
    if t.driver.Calling? {
      assert Called(t) == Returned(t) + [t.driver.call.cmd];
      assert Called(t)[..|Called(t)| - 1] == Returned(t);
      TotalSnoc(Returned(t), t.driver.call.cmd);
      Before(t.driver.call);
    } else {
      assert Called(t) == Returned(t);
    }
  }

  lemma IndexIs(q: nat, c: Call, k: nat)
    requires q > 0
    ensures Index(q, c, k) == (c.head + k) % q
  {
  }

  lemma OutstandingWalk(t: State, c: Call, n: nat, before: nat)
    requires Inv(t) && t.driver == Calling(c) && |t.submitted| == n > Completed(t) && n > 0
    requires t.q > 0 && |t.ring| == t.q && c.head == before % t.q && t.ring[(n - 1) % t.q] == c.head
    ensures Walk(t.desc, c.head, t.q) == Some(seq(c.cmd.parts + 1, k requires k >= 0 => (before + k) % t.q))
  {
    hide Program, DoneBy, DescsDone, FillsDone, Walk, Indices, DeviceInv, Total;
    Outstanding(t);
    Published(t, c);
    FirstIndex(t.q, c);
    hide Index;
    WalkFrom(t.desc, c, 0, t.q);
    ChainIndices(t.q, c);
    var w := Indices(t.q, c, 0);
    forall k | 0 <= k <= c.cmd.parts
      ensures w[k] == (before + k) % t.q
    {
      IndexIs(t.q, c, k);
      SumMod(before, k, t.q);
    }
    assert w == seq(c.cmd.parts + 1, k requires k >= 0 => (before + k) % t.q);
  }

  // The chain that the device finds from the ring slot of the call under way: the next parts + 1 entries.
  lemma RunChain(s: State, es: seq<Step>)
    requires Init(s) && CanRunAll(s, es)
    ensures var t := Run(s, es);
            var n := |Calls(es)|;
            t.driver.Calling? && |t.submitted| == n && n > Completed(t) ==>
              && n > 0 && |t.ring| == s.q > 0
              && Walk(t.desc, t.ring[(n - 1) % s.q], s.q) ==
                 Some(seq(Calls(es)[n - 1].parts + 1, k requires k >= 0 => (Total(Calls(es)[..n - 1]) + k) % s.q))
  {
    hide Run, Calls, Total, Walk, Indices, Inv;
    RunHeads(s, es);
    InitInv(s);
    RunKeeps(s, es);
    var t := Run(s, es);
    var n := |Calls(es)|;
    if t.driver.Calling? && |t.submitted| == n && n > Completed(t) {
      OutstandingWalk(t, t.driver.call, n, Total(Calls(es)[..n - 1]));
    }
  }
}
