/**
  The driver's side of a VirtIO split virtqueue (VirtIO 1.2, sections 2.7.5, 2.7.6 and 2.7.13): block
  operations as chains of three descriptors in rings of 128.
 */
module VirtQueue {
  import opened MachineWords

  type U16 = x: int | 0 <= x < 0x1_0000

  const NEXT: U16 := 1
  const WRITE: U16 := 2

  datatype Descriptor = Descriptor(address: Word, length: U32, flags: U16, next: U16)

  /** A block operation: where its header, data and status byte are, and the place on the disk it is for. */
  datatype Operation = Operation(header: Word, buffer: Word, size: Word, offset: Word, status: Word, isWrite: bool)

  /** The header of a request as the device reads it. */
  datatype Header = Header(kind: U32, reserved: U32, sector: Word)

  const READ_REQUEST: U32 := 0
  const WRITE_REQUEST: U32 := 1

  function HeaderOf(op: Operation): Header {
    Header(if op.isWrite then WRITE_REQUEST else READ_REQUEST, 0, op.offset / 512)
  }

  /** An operation is for the bytes from its offset precisely when the offset is that of a sector. */
  lemma SectorExact(op: Operation)
    ensures 512 * HeaderOf(op).sector <= op.offset < 512 * HeaderOf(op).sector + 512
    ensures 512 * HeaderOf(op).sector == op.offset <==> op.offset % 512 == 0
  {
    assert op.offset == 512 * (op.offset / 512) + op.offset % 512;
  }

  /** The `k`-th descriptor of operation `n`. */
  function Slot(n: nat, k: nat): (r: nat)
    ensures r < 128
  {
    (3 * n + k) % 128
  }

  function RingSlot(n: nat): (r: nat)
    ensures r < 128
  {
    n % 128
  }

  /** What the three descriptors of operation `n` say. The length field is 32 bits wide. */
  function Chain(op: Operation, n: nat): (r: seq<Descriptor>)
    ensures |r| == 3
  {
    [Descriptor(op.header, 16, NEXT, Slot(n, 1)),
     Descriptor(op.buffer, op.size % 0x1_0000_0000, if op.isWrite then NEXT else NEXT + WRITE, Slot(n, 2)),
     Descriptor(op.status, 1, WRITE, 0)]
  }

  // ----- which slots operations share -----

  ghost predicate Disjoint(i: nat, j: nat) {
    forall a: nat, b: nat | a < 3 && b < 3 :: Slot(i, a) != Slot(j, b)
  }

  lemma Distance(x: nat, y: nat)
    ensures x % 128 == y % 128 <==> (y - x) % 128 == 0
  {
  }

  lemma DropMultiple(x: nat, y: int)
    ensures (x % 128 + y) % 128 == (x + y) % 128
  {
  }

  /**
    Two operations share a descriptor precisely when their distance, times
    three, is within two of a multiple of 128.
   */
  lemma {:induction false} DisjointExactly(i: nat, j: nat)
    requires i < j
    ensures Disjoint(i, j) <==> 3 <= 3 * (j - i) % 128 <= 125
  {
    var d := 3 * (j - i) % 128;
    forall a: nat, b: nat | a < 3 && b < 3
      ensures Slot(i, a) == Slot(j, b) <==> (d + b - a) % 128 == 0
    {
      Distance(3 * i + a, 3 * j + b);
      DropMultiple(3 * (j - i), b - a);
    }
    hide Slot;
    if d <= 2 {
      assert Slot(i, d) == Slot(j, 0);
    } else if d >= 126 {
      assert Slot(i, 0) == Slot(j, 128 - d);
    }
  }

  /** 42 operations in flight never share a descriptor; 43 always do. */
  lemma {:induction false} FortyTwoInFlight(n: nat, w: nat)
    ensures (forall i: nat, j: nat | n <= i < j < n + w :: Disjoint(i, j)) <==> w <= 42
  {
    forall i: nat, j: nat | i < j
      ensures j - i <= 41 ==> Disjoint(i, j)
      ensures j - i == 42 ==> !Disjoint(i, j)
    {
      DisjointExactly(i, j);
    }
    if w >= 43 {
      assert !Disjoint(n, n + 42);
    }
  }

  // ----- what the device reads -----

  /** Following `next` from a descriptor, as the device does; at most `fuel` of them. */
  function Follow(table: seq<Descriptor>, i: nat, fuel: nat): (r: seq<nat>)
    requires |table| == 128
    ensures forall k | 0 <= k < |r| :: r[k] < 128
    decreases fuel
  {
    if fuel == 0 || i >= 128 then []
    else if table[i].flags % 2 == 0 then [i]
    else [i] + Follow(table, table[i].next, fuel - 1)
  }

  /** The device may write what the descriptor points to. */
  predicate DeviceWrites(d: Descriptor) {
    d.flags / 2 % 2 == 1
  }

  /** Operation `i` can be read off the rings. */
  ghost predicate Published(table: seq<Descriptor>, ring: seq<U16>, i: nat, op: Operation)
    requires |table| == 128 == |ring|
  {
    && ring[RingSlot(i)] == Slot(i, 0)
    && forall k: nat | k < 3 :: table[Slot(i, k)] == Chain(op, i)[k]
  }

  /** The device finds the operation's head in the ring, and from it exactly three consecutive slots. */
  lemma {:induction false} DeviceSees(table: seq<Descriptor>, ring: seq<U16>, i: nat, op: Operation, fuel: nat)
    requires |table| == 128 == |ring| && Published(table, ring, i, op) && fuel >= 3
    ensures Follow(table, ring[RingSlot(i)], fuel) == [Slot(i, 0), Slot(i, 1), Slot(i, 2)]
    ensures table[Slot(i, 0)].address == op.header && table[Slot(i, 1)].address == op.buffer && table[Slot(i,
              2)].address == op.status
    ensures table[Slot(i, 0)].length == 16 && table[Slot(i, 1)].length == op.size % 0x1_0000_0000
            && table[Slot(i, 2)].length == 1
    ensures DeviceWrites(table[Slot(i, 1)]) <==> !op.isWrite
    ensures !DeviceWrites(table[Slot(i, 0)]) && DeviceWrites(table[Slot(i, 2)])
  {
    assert table[Slot(i, 0)] == Chain(op, i)[0];
    assert table[Slot(i, 1)] == Chain(op, i)[1];
    assert table[Slot(i, 2)] == Chain(op, i)[2];
    assert Follow(table, Slot(i, 2), fuel - 2) == [Slot(i, 2)];
    assert Follow(table, Slot(i, 1), fuel - 1) == [Slot(i, 1)] + Follow(table, Slot(i, 2), fuel - 2);
  }

  /** A request as the device carries it out: bytes of the disk, to or from a buffer, and where the status goes. */
  datatype Request = Request(toDisk: bool, firstByte: nat, length: nat, buffer: Word, status: Word)

  /**
    What a block device makes of a ring slot (VirtIO 1.2, section 5.2.6): a header it may only read, data
    it may write exactly when the request's type is 0, for a read, and not when it is 1, and a status byte.
   */
  ghost function DeviceRequest(table: seq<Descriptor>, ring: seq<U16>, headers: map<Word, Header>, slot: nat)
    : Option<Request>
    requires |table| == 128 == |ring| && slot < 128
  {
    var chain := Follow(table, ring[slot], 4);
    if |chain| != 3 then None
    else
      var header, data, status := table[chain[0]], table[chain[1]], table[chain[2]];
      if header.length != 16 || DeviceWrites(header) || header.address !in headers then None
      else if status.length != 1 || !DeviceWrites(status) then None
      else
        var h := headers[header.address];
        if h.reserved != 0 || h.kind > 1 || (h.kind == 0) != DeviceWrites(data) then None
        else Some(Request(h.kind == 1, 512 * h.sector, data.length, data.address, status.address))
  }

  /** The device carries out each published operation as what it is: a read as a read, at the sector of its offset. */
  lemma {:induction false} DeviceUnderstands(table: seq<Descriptor>, ring: seq<U16>, headers: map<Word, Header>,
                                             i: nat, op: Operation)
    requires |table| == 128 == |ring| && Published(table, ring, i, op)
    requires op.header in headers && headers[op.header] == HeaderOf(op)
    ensures DeviceRequest(table, ring, headers, i % 128)
         == Some(Request(op.isWrite, op.offset - op.offset % 512, op.size % 0x1_0000_0000, op.buffer, op.status))
  {
    DeviceSees(table, ring, i, op, 4);
    assert op.offset == 512 * (op.offset / 512) + op.offset % 512;
    hide Published, Follow, DeviceWrites, Chain, Slot;
  }

  /** Rings and counters after the operations `ops`: the last 42 can all be read. */
  ghost predicate Consistent(table: seq<Descriptor>, ring: seq<U16>, next: nat, available: nat, ops: seq<Operation>) {
    && |table| == 128 == |ring|
    && next == Slot(|ops|, 0) && available == |ops| % 0x1_0000
    && forall i: nat | |ops| - 42 <= i < |ops| :: Published(table, ring, i, ops[i])
  }

  /** Publishing one more operation keeps the 41 before it readable. */
  lemma {:induction false} PublishOne(table: seq<Descriptor>, ring: seq<U16>, next: nat, available: nat,
            ops: seq<Operation>, op: Operation)
    requires Consistent(table, ring, next, available, ops)
    ensures var n, c := |ops|, Chain(op, |ops|);
            Consistent(table[Slot(n, 0) := c[0]][Slot(n, 1) := c[1]][Slot(n, 2) := c[2]],
                       ring[RingSlot(n) := Slot(n, 0)], Slot(n + 1, 0), (available + 1) % 0x1_0000, ops + [op])
  {
    var n, c := |ops|, Chain(op, |ops|);
    var t, r := table[Slot(n, 0) := c[0]][Slot(n, 1) := c[1]][Slot(n, 2) := c[2]], ring[RingSlot(n) := Slot(n, 0)];
    var all := ops + [op];
    OwnSlots(n);
    Counters(n);
    hide Slot, RingSlot, Chain, Published;
    forall i: nat | n + 1 - 42 <= i < n + 1
      ensures Published(t, r, i, all[i])
    {
      if i == n {
        OwnPublished(t, r, n, op);
      } else {
        assert Published(table, ring, i, ops[i]);
        StaysPublished(table, ring, t, r, i, n, ops[i]);
      }
    }
  }

  lemma OwnSlots(n: nat)
    ensures Slot(n, 0) != Slot(n, 1) && Slot(n, 0) != Slot(n, 2) && Slot(n, 1) != Slot(n, 2)
    ensures Slot(n, 1) == (Slot(n, 0) + 1) % 128 && Slot(n, 2) == (Slot(n, 1) + 1) % 128 && Slot(n + 1,
              0) == (Slot(n, 2) + 1) % 128
  {
    SlotIs(n, 0);
    SlotIs(n, 1);
    SlotIs(n, 2);
    SlotIs(n + 1, 0);
    hide Slot;
    NextSlot(3 * n);
    NextSlot(3 * n + 1);
    NextSlot(3 * n + 2);
  }

  lemma SlotIs(n: nat, k: nat)
    ensures Slot(n, k) == (3 * n + k) % 128
  {
  }

  lemma Counters(n: nat)
    ensures n % 0x1_0000 % 128 == RingSlot(n) && (n % 0x1_0000 + 1) % 0x1_0000 == (n + 1) % 0x1_0000
  {
  }

  lemma NextSlot(x: nat)
    ensures (x + 1) % 128 == (x % 128 + 1) % 128 && (x + 1) % 128 != x % 128 && (x + 2) % 128 != x % 128
  {
  }

  lemma OwnPublished(table: seq<Descriptor>, ring: seq<U16>, n: nat, op: Operation)
    requires |table| == 128 == |ring| && ring[RingSlot(n)] == Slot(n, 0)
    requires table[Slot(n, 0)] == Chain(op, n)[0] && table[Slot(n, 1)] == Chain(op, n)[1]
             && table[Slot(n, 2)] == Chain(op, n)[2]
    ensures Published(table, ring, n, op)
  {
    hide Slot, RingSlot, Chain;
    forall k: nat | k < 3
      ensures table[Slot(n, k)] == Chain(op, n)[k]
    {
      assert k == 0 || k == 1 || k == 2;
    }
  }

  lemma Apart(i: nat, n: nat)
    requires i < n <= i + 41
    ensures Disjoint(i, n) && RingSlot(i) != RingSlot(n)
  {
    hide Disjoint, RingSlot;
    DisjointExactly(i, n);
    RingApart(i, n);
  }

  lemma RingApart(i: nat, n: nat)
    requires i < n <= i + 41
    ensures RingSlot(i) != RingSlot(n)
  {
    Distance(i, n);
  }

  lemma {:induction false} StaysPublished(table: seq<Descriptor>, ring: seq<U16>, t: seq<Descriptor>, r: seq<U16>,
            i: nat, n: nat, op: Operation)
    requires |table| == 128 == |ring| && |t| == 128 == |r| && i < n <= i + 41
    requires Published(table, ring, i, op)
    requires forall s: nat | s < 128 && s != Slot(n, 0) && s != Slot(n, 1) && s != Slot(n, 2) :: t[s] == table[s]
    requires forall s: nat | s < 128 && s != RingSlot(n) :: r[s] == ring[s]
    ensures Published(t, r, i, op)
  {
    Apart(i, n);
    hide Slot, RingSlot, Chain;
    forall k: nat | k < 3
      ensures t[Slot(i, k)] == table[Slot(i, k)]
    {
    }
  }

  /** Every header that no later operation has written over is in memory. */
  ghost predicate HeadersHold(headers: map<Word, Header>, ops: seq<Operation>) {
    forall i: nat | i < |ops| && IsKept(ops, i) ::
      ops[i].header in headers && headers[ops[i].header] == HeaderOf(ops[i])
  }

  ghost predicate IsKept(ops: seq<Operation>, i: nat)
    requires i < |ops|
  {
    forall j | i < j < |ops| :: ops[j].header != ops[i].header
  }

  lemma {:induction false} HeadersStep(headers: map<Word, Header>, ops: seq<Operation>, op: Operation)
    requires HeadersHold(headers, ops)
    ensures HeadersHold(headers[op.header := HeaderOf(op)], ops + [op])
  {
    var all := ops + [op];
    hide HeaderOf;
    forall i: nat | i < |all| && IsKept(all, i)
      ensures all[i].header in headers[op.header := HeaderOf(op)]
      ensures headers[op.header := HeaderOf(op)][all[i].header] == HeaderOf(all[i])
    {
      if i < |ops| {
        assert all[|ops|].header != all[i].header;
        assert forall j | i < j < |ops| :: ops[j] == all[j];
        assert IsKept(ops, i);
      }
    }
  }

  /**
    Of all the operations ever started, the device understands each of the last 42, unless a later one has
    written over its header.
   */
  lemma {:induction false} InFlightUnderstood(table: seq<Descriptor>, ring: seq<U16>, next: nat, available: nat,
                                              headers: map<Word, Header>, ops: seq<Operation>, i: nat)
    requires Consistent(table, ring, next, available, ops) && HeadersHold(headers, ops)
    requires |ops| - 42 <= i < |ops| && forall j | i < j < |ops| :: ops[j].header != ops[i].header
    ensures DeviceRequest(table, ring, headers, i % 128)
         == Some(Request(ops[i].isWrite, ops[i].offset - ops[i].offset % 512, ops[i].size % 0x1_0000_0000,
                         ops[i].buffer, ops[i].status))
  {
    assert IsKept(ops, i);
    hide HeaderOf, Published, DeviceRequest;
    DeviceUnderstands(table, ring, headers, i, ops[i]);
  }

  lemma LastPublished(table: seq<Descriptor>, ring: seq<U16>, next: nat, available: nat, ops: seq<Operation>)
    requires Consistent(table, ring, next, available, ops) && ops != []
    ensures Published(table, ring, |ops| - 1, ops[|ops| - 1])
  {
    hide Published;
  }

  // ----- the driver -----

  class VirtIODevice {
    const descriptors: array<Descriptor>
    const ring: array<U16>
    var availableIndex: U16
    var queueIndex: nat
    /** The request headers in memory. */
    var headers: map<Word, Header>
    /** Every operation started so far. */
    ghost var ops: seq<Operation>

    ghost predicate Valid()
      reads this, descriptors, ring
    {
      Consistent(descriptors[..], ring[..], queueIndex, availableIndex, ops) && HeadersHold(headers, ops)
    }

    constructor ()
      ensures Valid() && ops == [] && fresh(descriptors) && fresh(ring)
    {
      descriptors := new Descriptor[128](_ => Descriptor(0, 0, 0, 0));
      ring := new U16[128](_ => 0);
      availableIndex, queueIndex, ops, headers := 0, 0, [], map[];
    }

    method GetNextQueueIndex() returns (index: nat)
      requires queueIndex < 128
      modifies this`queueIndex
      ensures index == old(queueIndex) && queueIndex == (index + 1) % 128
    {
      index := queueIndex;
      queueIndex := (index + 1) % 128;
    }

    method AddToQueue(d: Descriptor) returns (index: nat)
      requires queueIndex < 128 == descriptors.Length
      modifies this`queueIndex, descriptors
      ensures index == old(queueIndex) && queueIndex == (index + 1) % 128
      ensures descriptors[..] == old(descriptors[..])[index :=
                                   if d.flags % 2 == 1 then d.(next := (index + 1) % 128) else d]
    {
      index := GetNextQueueIndex();
      descriptors[index] := d;
      if d.flags % 2 == 1 {
        descriptors[index] := descriptors[index].(next := (index + 1) % 128);
      }
    }

    method AddToAvailable(head: U16)
      requires ring.Length == 128
      modifies this`availableIndex, ring
      ensures ring[..] == old(ring[..])[old(availableIndex) % 128 := head]
      ensures availableIndex == (old(availableIndex) + 1) % 0x1_0000
    {
      ring[availableIndex % 128] := head;
      availableIndex := (availableIndex + 1) % 0x1_0000;
    }

    /** Starts an operation, unless its size is not a whole number of sectors. */
    method BlockOperation(op: Operation) returns (ok: bool)
      requires Valid()
      modifies this, descriptors, ring
      ensures Valid() && (ok <==> op.size % 512 == 0)
      ensures ops == if ok then old(ops) + [op] else old(ops)
      ensures headers == if ok then old(headers)[op.header := HeaderOf(op)] else old(headers)
      ensures ok ==> headers[op.header].kind == (if op.isWrite then 1 else 0) && headers[op.header].reserved == 0
      ensures ok ==>
                DeviceRequest(descriptors[..], ring[..], headers, |old(ops)| % 128)
                == Some(Request(op.isWrite, op.offset - op.offset % 512, op.size % 0x1_0000_0000, op.buffer,
                                op.status))
      ensures !ok ==> descriptors[..] == old(descriptors[..]) && ring[..] == old(ring[..])
    {
      if op.size % 512 != 0 {
        return false;
      }
      headers := headers[op.header := Header(if op.isWrite then WRITE_REQUEST else READ_REQUEST, 0, op.offset / 512)];
      ghost var table, slots, n := descriptors[..], ring[..], |ops|;
      PublishOne(table, slots, queueIndex, availableIndex, ops, op);
      HeadersStep(old(headers), ops, op);
      Counters(n);
      var head := AddChain(op, n);
      AddToAvailable(head);
      ops := ops + [op];
      ok := true;
      LastPublished(descriptors[..], ring[..], queueIndex, availableIndex, ops);
      DeviceUnderstands(descriptors[..], ring[..], headers, n, op);
    }

    /** Header, data and status: three descriptors, each but the last linked to the one after it. */
    method AddChain(op: Operation, ghost n: nat) returns (head: nat)
      requires queueIndex == Slot(n, 0) && descriptors.Length == 128
      modifies this`queueIndex, descriptors
      ensures head == Slot(n, 0) && queueIndex == Slot(n + 1, 0)
      ensures var c := Chain(op, n);
              descriptors[..] == old(descriptors[..])[Slot(n, 0) := c[0]][Slot(n, 1) := c[1]][Slot(n, 2) := c[2]]
    {
      OwnSlots(n);
      hide Slot;
      head := AddToQueue(Descriptor(op.header, 16, NEXT, 0));
      var flags: U16 := if op.isWrite then NEXT else NEXT + WRITE;
      var second := AddToQueue(Descriptor(op.buffer, op.size % 0x1_0000_0000, flags, 0));
      var third := AddToQueue(Descriptor(op.status, 1, WRITE, 0));
    }
  }
}
