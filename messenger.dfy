/** The messenger's local state: its own address, the dispatcher that
    receives incoming messages, and a Lamport clock over unsigned 64-bit
    integers, which wrap around. The transport itself (sending, receiving,
    procedure calls) is not part of this model. */
module MessengerState {
  import opened Wire

  const LAMPORT_MOD := 0x1_0000_0000_0000_0000
  const LAMPORT_MAX: uint64 := 0xFFFF_FFFF_FFFF_FFFF

  /** msg_addr_t and Dispatcher* are opaque; a dispatcher is None while
      unset (null). */
  type MsgAddr = int
  type DispatcherId = nat

  /** lamport_clock++ on an unsigned 64-bit value. */
  function Tick(c: uint64): (r: uint64)
    ensures c < LAMPORT_MAX ==> r == c + 1
    ensures c == LAMPORT_MAX ==> r == 0
  {
    (c + 1) % LAMPORT_MOD
  }

  /** bump_lamport: a time at or past the clock moves it to one past that
      time; an earlier time leaves it. */
  function Bump(c: uint64, other: uint64): uint64
  {
    if other >= c then Tick(other) else c
  }

  /** Below the wrap-around point, a bump leaves the clock past the other
      time and never earlier than it was: the clock becomes the larger of
      its old value and other + 1. */
  lemma BumpMonotone(c: uint64, other: uint64)
    requires other < LAMPORT_MAX
    ensures Bump(c, other) > other
    ensures Bump(c, other) >= c
    ensures Bump(c, other) == if c > other + 1 then c else other + 1
  {
  }

  /** A bump by the largest time wraps the clock to zero. */
  lemma BumpWraps(c: uint64)
    ensures Bump(c, LAMPORT_MAX) == 0
  {
  }

  /** Bumping by a time the clock has already passed changes nothing, so a
      second bump by the same time is a no-op. */
  lemma BumpIdempotent(c: uint64, other: uint64)
    requires other < LAMPORT_MAX
    ensures Bump(Bump(c, other), other) == Bump(c, other)
  {
  }

  class Messenger {
    var dispatcher: Option<DispatcherId>
    var myaddr: MsgAddr
    var lamportClock: uint64
    var lastPcid: int

    constructor (w: MsgAddr)
      ensures dispatcher == None && myaddr == w && lamportClock == 0 && lastPcid == 1
    {
      dispatcher, myaddr, lamportClock, lastPcid := None, w, 0, 1;
    }

    method SetMyaddr(m: MsgAddr)
      modifies this`myaddr
      ensures myaddr == m && GetMyaddr() == m
    {
      myaddr := m;
    }

    function GetMyaddr(): MsgAddr
      reads this
    {
      myaddr
    }

    /** get_lamport: hands out the current time and advances the clock. */
    method GetLamport() returns (t: uint64)
      modifies this`lamportClock
      ensures t == old(lamportClock)
      ensures lamportClock == Tick(old(lamportClock))
    {
      t := lamportClock;
      lamportClock := Tick(lamportClock);
    }

    function PeekLamport(): uint64
      reads this
    {
      lamportClock
    }

    method BumpLamport(other: uint64)
      modifies this`lamportClock
      ensures lamportClock == Bump(old(lamportClock), other)
    {
      if other >= lamportClock {
        lamportClock := Tick(other);
      }
    }

    /** set_dispatcher also calls ready(), whose default does nothing; the
        caller may pass no dispatcher at all, which clears it. */
    method SetDispatcher(d: Option<DispatcherId>)
      modifies this`dispatcher
      ensures dispatcher == d && GetDispatcher() == d
    {
      dispatcher := d;
    }

    function GetDispatcher(): Option<DispatcherId>
      reads this
    {
      dispatcher
    }
  }

  /** Two successive get_lamport calls hand out increasing times, and a
      peek in between sees the second one, unless the clock wraps. */
  method TwoStamps(m: Messenger) returns (t1: uint64, seen: uint64, t2: uint64)
    requires m.lamportClock < LAMPORT_MAX
    modifies m
    ensures t1 < t2 && seen == t2 && t2 == t1 + 1
  {
    t1 := m.GetLamport();
    seen := m.PeekLamport();
    t2 := m.GetLamport();
  }
}
