/** Port ranges over slots (internal/natgateway/allocation.go).

    A NAT IP's ephemeral ports are cut into slots of `width` ports, one slot a network
    interface. */
module Allocation {
  import opened Wrappers
  import opened Api
  import opened Arithmetic
  import K = KeySlots

  const MIN_EPHEMERAL_PORT := 1024
  const MAX_EPHEMERAL_PORT := 65535
  const NO_OF_EPHEMERAL_PORTS := MAX_EPHEMERAL_PORT + 1 - MIN_EPHEMERAL_PORT

  /** A positive int32: the source divides by it, so zero panics. */
  type Width = w: int | 0 < w < 0x8000_0000 witness 1

  function Wrap32(x: int): int {
    (x + 0x8000_0000) % 0x1_0000_0000 - 0x8000_0000
  }

  function SlotsPerIP(width: Width): nat {
    NO_OF_EPHEMERAL_PORTS / width
  }

  function EndPort(width: Width, port: int): int {
    Wrap32(port + width - 1)
  }

  function SlotForPorts(width: Width, port: int, endPort: int): Option<nat> {
    if port < MIN_EPHEMERAL_PORT || port >= endPort || endPort > MAX_EPHEMERAL_PORT then None
    else if EndPort(width, port) != endPort then None
    else Some((port - MIN_EPHEMERAL_PORT) / width)
  }

  function PortsForSlot(width: Width, slot: nat): (int, int) {
    var port := Wrap32(slot * width + MIN_EPHEMERAL_PORT);
    (port, EndPort(width, port))
  }

  /** A range that is exactly one of the slots of the ephemeral range. */
  predicate Aligned(width: Width, port: int, endPort: int) {
    && MIN_EPHEMERAL_PORT <= port
    && endPort == port + width - 1 <= MAX_EPHEMERAL_PORT
    && (port - MIN_EPHEMERAL_PORT) % width == 0
  }

  predicate Overlap(portA: int, endA: int, portB: int, endB: int) {
    portA <= endB && portB <= endA
  }

  lemma SlotBound(width: Width, slot: nat)
    requires slot < SlotsPerIP(width)
    ensures 0 <= slot * width && (slot + 1) * width == slot * width + width <= NO_OF_EPHEMERAL_PORTS
  {
    var n := SlotsPerIP(width);
    assert n * width <= NO_OF_EPHEMERAL_PORTS;
    assert (slot + 1) * width <= n * width;
  }

  /** Every slot gives an aligned range inside the ephemeral ports, and reading the range back
      gives the slot, except that ranges of one port are never read back. */
  lemma SlotRoundTrip(width: Width, slot: nat)
    requires slot < SlotsPerIP(width)
    ensures var (port, endPort) := PortsForSlot(width, slot);
            && port == 1024 + slot * width && endPort == port + width - 1 <= 65535
            && Aligned(width, port, endPort)
            && SlotForPorts(width, port, endPort) == if width == 1 then None else Some(slot)
  {
    SlotBound(width, slot);
    QuotientIsUnique(slot * width, width, slot);
  }

  lemma SlotInside(width: Width, offset: nat)
    requires offset + width <= NO_OF_EPHEMERAL_PORTS
    ensures offset / width < SlotsPerIP(width)
  {
    DivMod(offset, width);
    DivMod(NO_OF_EPHEMERAL_PORTS, width);
    if offset / width >= SlotsPerIP(width) {
      MulGap(SlotsPerIP(width) - 1, offset / width, width);
    }
  }

  lemma PortsForSlotIs(width: Width, slot: nat)
    requires slot < SlotsPerIP(width)
    ensures PortsForSlot(width, slot) ==
              (slot * width + MIN_EPHEMERAL_PORT, slot * width + MIN_EPHEMERAL_PORT + width - 1)
  {
    SlotBound(width, slot);
  }

  lemma ReadsWhenInside(width: Width, port: int, endPort: int)
    ensures SlotForPorts(width, port, endPort).Some? <==>
              width >= 2 && MIN_EPHEMERAL_PORT <= port && endPort == port + width - 1 <= MAX_EPHEMERAL_PORT
  {
  }

  /** A range is read as a slot exactly when it is `width` (at least two) ports inside the
      ephemeral ports; alignment is not checked, and the range is the one the slot stands for
      exactly when it is aligned. */
  lemma PortsRoundTrip(width: Width, port: int, endPort: int)
    ensures var slot := SlotForPorts(width, port, endPort);
            && (slot.Some? <==>
                width >= 2 && 1024 <= port && endPort == port + width - 1 <= 65535)
            && (slot.Some? ==>
                && slot.value < SlotsPerIP(width)
                && (PortsForSlot(width, slot.value) == (port, endPort) <==> Aligned(width, port, endPort)))
  {
    hide SlotsPerIP, PortsForSlot, Wrap32, EndPort;
    ReadsWhenInside(width, port, endPort);
    var slot := SlotForPorts(width, port, endPort);
    if slot.Some? {
      var offset := port - MIN_EPHEMERAL_PORT;
      SlotInside(width, offset);
      PortsForSlotIs(width, slot.value);
      DivMod(offset, width);
    }
  }

  /** Aligned ranges of one width are equal, or disjoint and in different slots. */
  lemma AlignedRanges(width: Width, portA: int, endA: int, portB: int, endB: int)
    requires Aligned(width, portA, endA) && Aligned(width, portB, endB)
    ensures Overlap(portA, endA, portB, endB) <==> portA == portB
    ensures portA == portB <==> (portA - MIN_EPHEMERAL_PORT) / width == (portB - MIN_EPHEMERAL_PORT) / width
  {
    var a, b := portA - MIN_EPHEMERAL_PORT, portB - MIN_EPHEMERAL_PORT;
    DivMod(a, width);
    DivMod(b, width);
    if a / width < b / width {
      MulGap(a / width, b / width, width);
    } else if b / width < a / width {
      MulGap(b / width, a / width, width);
    }
  }

  /** Of the other slots' ranges, one that reads as a slot can only reach into the next, and does
      unless it is aligned. */
  lemma OverlapsNextOnly(width: Width, port: int, endPort: int, s: nat)
    requires SlotForPorts(width, port, endPort).Some?
    requires s < SlotsPerIP(width) && s != SlotForPorts(width, port, endPort).value
    ensures var (p, e) := PortsForSlot(width, s);
            Overlap(port, endPort, p, e) <==>
                s == SlotForPorts(width, port, endPort).value + 1 && !Aligned(width, port, endPort)
  {
    hide SlotsPerIP, PortsForSlot, Wrap32, EndPort;
    var slot := SlotForPorts(width, port, endPort).value;
    PortsRoundTrip(width, port, endPort);
    DivMod(port - MIN_EPHEMERAL_PORT, width);
    PortsForSlotIs(width, s);
    if s < slot {
      MulGap(s, slot, width);
    } else {
      MulGap(slot, s, width);
      if s > slot + 1 {
        MulGap(slot + 1, s, width);
        assert (slot + 1) * width == slot * width + width;
      }
    }
  }

  /** Reserving the slot a range reads as keeps every other slot's range clear of it exactly when
      the range is aligned, or reads as the last slot: an unaligned range reaches into the next. */
  lemma ReservationIsExclusive(width: Width, port: int, endPort: int)
    requires SlotForPorts(width, port, endPort).Some?
    ensures var slot := SlotForPorts(width, port, endPort).value;
            (forall s: nat | s < SlotsPerIP(width) && s != slot ::
               var (p, e) := PortsForSlot(width, s); !Overlap(port, endPort, p, e))
            <==> Aligned(width, port, endPort) || slot + 1 == SlotsPerIP(width)
  {
    hide SlotsPerIP, Aligned, Overlap, SlotForPorts, PortsForSlot;
    var slot := SlotForPorts(width, port, endPort).value;
    forall s: nat | s < SlotsPerIP(width) && s != slot
      ensures var (p, e) := PortsForSlot(width, s);
              Overlap(port, endPort, p, e) <==> s == slot + 1 && !Aligned(width, port, endPort)
    {
      OverlapsNextOnly(width, port, endPort, s);
    }
    assert slot < SlotsPerIP(width) by { SlotIsInRange(width, port, endPort); }
    if slot + 1 < SlotsPerIP(width) {
      var (p, e) := PortsForSlot(width, slot + 1);
      assert Overlap(port, endPort, p, e) <==> !Aligned(width, port, endPort);
    }
  }

  lemma SlotIsInRange(width: Width, port: int, endPort: int)
    requires SlotForPorts(width, port, endPort).Some?
    ensures SlotForPorts(width, port, endPort).value < SlotsPerIP(width)
  {
    PortsRoundTrip(width, port, endPort);
  }

  class AllocationManager {
    const portsPerNetworkInterface: Width
    const slots: K.KeySlots<IP>

    ghost predicate Valid()
      reads this, slots
    {
      slots.Valid() && slots.slotsPerKey == SlotsPerIP(portsPerNetworkInterface)
    }

    ghost function Taken(): set<(IP, nat)>
      reads slots
    {
      slots.Taken()
    }

    ghost function IPs(): set<IP>
      reads slots
    {
      slots.Keys()
    }

    constructor (portsPerNetworkInterface: Width, ips: seq<IP>)
      ensures Valid() && fresh(slots)
      ensures this.portsPerNetworkInterface == portsPerNetworkInterface
      ensures IPs() == (set ip | ip in ips)
      ensures Taken() == {}
    {
      this.portsPerNetworkInterface := portsPerNetworkInterface;
      slots := new K.KeySlots(NO_OF_EPHEMERAL_PORTS / portsPerNetworkInterface, ips);
    }

    predicate HasIP(ip: IP)
      reads slots
    {
      slots.HasKey(ip)
    }

    function Total(): nat
      reads slots
    {
      slots.Total()
    }

    function Used(): nat
      reads slots
    {
      slots.Used()
    }

    lemma UsedCountsTaken()
      requires Valid()
      ensures Used() == |Taken()| <= Total()
    {
      K.TakenWithinGrid(slots.slotsByKey, slots.slotsPerKey);
    }

    lemma TotalCountsSlots()
      requires Valid()
      ensures Total() == |IPs()| * SlotsPerIP(portsPerNetworkInterface)
    {
      assert |slots.slotsByKey| == |slots.slotsByKey.Keys|;
    }

    /** Reserves the slot a range stands for; refused, with nothing changed, for a range of
        another width, an unknown address and a slot already reserved. */
    method Use(ip: IP, port: int, endPort: int) returns (ok: bool)
      requires Valid()
      modifies slots
      ensures Valid() && IPs() == old(IPs())
      ensures var slot := SlotForPorts(portsPerNetworkInterface, port, endPort);
              && (ok <==> slot.Some? && ip in IPs() && (ip, slot.value) !in old(Taken()))
              && (ok ==> Taken() == old(Taken()) + {(ip, slot.value)})
      ensures !ok ==> Taken() == old(Taken())
    {
      PortsRoundTrip(portsPerNetworkInterface, port, endPort);
      var slot := SlotForPorts(portsPerNetworkInterface, port, endPort);
      if slot.None? {
        return false;
      }
      ok := slots.Use(ip, slot.value);
    }

    /** Reserves a free slot of some address; fails exactly when all slots are reserved. */
    method UseNextFree() returns (ip: Option<IP>, port: int, endPort: int, ghost slot: nat)
      requires Valid()
      modifies slots
      ensures Valid() && IPs() == old(IPs())
      ensures ip.Some? <==> old(Used()) < Total()
      ensures ip.None? ==> Taken() == old(Taken())
      ensures ip.Some? ==>
                && ip.value in IPs()
                && slot < SlotsPerIP(portsPerNetworkInterface)
                && (ip.value, slot) !in old(Taken())
                && Taken() == old(Taken()) + {(ip.value, slot)}
                && (port, endPort) == PortsForSlot(portsPerNetworkInterface, slot)
    {
      var s: nat;
      ip, s := slots.UseNextFree();
      port, endPort, slot := 0, 0, s;
      if ip.Some? {
        var ports := PortsForSlot(portsPerNetworkInterface, s);
        port, endPort := ports.0, ports.1;
      }
      assert |slots.slotsByKey| == |slots.Keys()|;
    }
  }
}
