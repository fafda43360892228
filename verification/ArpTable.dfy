/** The address table: virtual device numbers and physical addresses (src/svsBdp.c:573-758). */
module ArpTable {
  import opened BdpWire

  const BDP_MAX := 256
  const BUSES := 2

  // ---------- the table as a value ----------

  predicate Reserved(addr: Address)
  {
    addr == ZERO_ADDRESS || addr == BROADCAST_ADDRESS
  }

  /** The known addresses, in the order of their virtual numbers. */
  ghost predicate TableOk(known: seq<Address>)
  {
    && |known| <= BDP_MAX
    && (forall i :: 0 <= i < |known| ==> !Reserved(known[i]))
    && (forall i, j :: 0 <= i < j < |known| ==> known[i] != known[j])
  }

  /** The table after an update, and whether the update was accepted. */
  ghost function Updated(known: seq<Address>, addr: Address): (result: (seq<Address>, bool))
  {
    if Reserved(addr) then (known, false)
    else if addr in known then (known, true)
    else if |known| >= BDP_MAX then (known, false)
    else (known + [addr], true)
  }

  ghost function Physical(known: seq<Address>, index: nat): (addr: Option<Address>)
  {
    if index == DEVICE_ALL then Some(BROADCAST_ADDRESS)
    else if index < |known| then Some(known[index])
    else None
  }

  ghost predicate IsVirtual(known: seq<Address>, addr: Address, index: Option<nat>)
  {
    match index
    case None => Reserved(addr) || addr !in known
    case Some(i) => !Reserved(addr) && i < |known| && known[i] == addr
  }

  // ---------- the table in place ----------

  class Table {
    const addrs: array<Address>
    const buses: array<nat>
    const busMax: array<nat>
    var bdpMax: nat

    ghost predicate Valid()
      reads this, addrs, buses, busMax
    {
      && addrs.Length == BDP_MAX && buses.Length == BDP_MAX && busMax.Length == BUSES
      && buses != busMax
      && bdpMax <= BDP_MAX
      && TableOk(Known())
      && (forall i :: bdpMax <= i < BDP_MAX ==> addrs[i] == ZERO_ADDRESS)
    }

    ghost function Known(): (known: seq<Address>)
      reads this, addrs
      requires bdpMax <= addrs.Length
    {
      addrs[..bdpMax]
    }

    constructor ()
      ensures Valid() && Known() == [] && fresh(addrs) && fresh(buses) && fresh(busMax)
    {
      addrs := new Address[BDP_MAX](_ => ZERO_ADDRESS);
      buses := new nat[BDP_MAX](_ => 0);
      busMax := new nat[BUSES](_ => 0);
      bdpMax := 0;
    }

    /** svsBdpArpTableUpdate */
    method Update(bus: nat, addr: Address) returns (ok: bool)
      requires Valid() && bus < BUSES
      modifies this, addrs, buses, busMax
      ensures Valid()
      ensures (Known(), ok) == Updated(old(Known()), addr)
      ensures buses[..] == (if bdpMax == old(bdpMax) then old(buses[..]) else old(buses[..][bdpMax := bus]))
      ensures busMax[..] == (if bdpMax == old(bdpMax) then old(busMax[..])
                             else old(busMax[..][bus := busMax[bus] + 1]))
    {
      if addr == ZERO_ADDRESS || addr == BROADCAST_ADDRESS {
        return false;
      }
      var i := 0;
      while i < bdpMax
        invariant i <= bdpMax
        invariant addr !in addrs[..i]
      {
        if addrs[i] == addr {
          return true;
        }
        i := i + 1;
      }
      if bdpMax >= BDP_MAX {
        return false;
      }
      addrs[i] := addr;
      buses[i] := bus;
      bdpMax := bdpMax + 1;
      busMax[bus] := busMax[bus] + 1;
      assert Known() == old(Known()) + [addr];
      return true;
    }

    /** svsArpTableFlush: the per-bus counts stay as they are. */
    method Flush()
      requires Valid()
      modifies this, addrs
      ensures Valid() && Known() == []
    {
      var i := 0;
      while i < bdpMax
        invariant i <= bdpMax == old(bdpMax)
        invariant forall k :: 0 <= k < i || bdpMax <= k < BDP_MAX ==> addrs[k] == ZERO_ADDRESS
      {
        addrs[i] := ZERO_ADDRESS;
        i := i + 1;
      }
      bdpMax := 0;
    }

    /** svsBdpVirtualToPhysical */
    method VirtualToPhysical(index: nat) returns (addr: Option<Address>)
      requires Valid()
      ensures addr == Physical(Known(), index)
    {
      if index >= bdpMax && index != DEVICE_ALL {
        return None;
      }
      if index == DEVICE_ALL {
        return Some(BROADCAST_ADDRESS);
      }
      return Some(addrs[index]);
    }

    /** svsBdpPhysicalToVirtual: the whole table is searched, but unused slots never match. */
    method PhysicalToVirtual(addr: Address) returns (index: Option<nat>)
      requires Valid()
      ensures IsVirtual(Known(), addr, index)
    {
      if addr == ZERO_ADDRESS || addr == BROADCAST_ADDRESS {
        return None;
      }
      var i := 0;
      while i < BDP_MAX
        invariant i <= BDP_MAX
        invariant forall k :: 0 <= k < i ==> addrs[k] != addr
      {
        if addrs[i] == addr {
          return Some(i);
        }
        i := i + 1;
      }
      return None;
    }
  }

  /** An update is accepted exactly when the address is in the table afterwards, which it is exactly when it was
      there before or is a real address for which there is room; a new one gets the next number, and the others
      keep theirs. */
  lemma UpdateAccepted(known: seq<Address>, addr: Address)
    requires TableOk(known)
    ensures var (known', ok) := Updated(known, addr);
            && (ok <==> addr in known')
            && (addr in known' <==>
                  addr in known
                  || (addr != [0, 0, 0, 0, 0, 0, 0, 0] && addr != [255, 255, 255, 255, 255, 255, 255, 255]
                      && |known| < 256))
            && known <= known' && |known'| == |known| + (if addr in known' && addr !in known then 1 else 0)
            && (addr in known' && addr !in known ==> IsVirtual(known', addr, Some(|known|)))
  {
    forall i | 0 <= i < |known| ensures !Reserved(known[i]) {}
  }

  // ---------- the two directions ----------

  /** A known address has exactly one virtual number. */
  lemma VirtualIsUnique(known: seq<Address>, addr: Address, a: Option<nat>, b: Option<nat>)
    requires TableOk(known) && IsVirtual(known, addr, a) && IsVirtual(known, addr, b)
    ensures a == b
  {
  }

  /** Which address a number leads to: 255 to the broadcast address, another one to the address at its position,
      and one beyond the table to none. */
  lemma PhysicalIff(known: seq<Address>, index: nat, addr: Address)
    ensures Physical(known, index) == Some(addr)
        <==> (if index == 255 then addr == [255, 255, 255, 255, 255, 255, 255, 255]
              else index < |known| && known[index] == addr)
  {
  }

  /** From number to address and back: every number below the table's size returns, except 255, which always
      means broadcast. */
  lemma PhysicalThenVirtual(known: seq<Address>, index: nat, found: Option<nat>)
    requires TableOk(known) && index < |known|
    requires IsVirtual(known, Physical(known, index).value, found)
    ensures found == Some(index) <==> index != DEVICE_ALL
    ensures index == DEVICE_ALL ==> found == None
  {
  }

  /** From address to number and back: the address returns exactly when its number is not 255. */
  lemma VirtualThenPhysical(known: seq<Address>, addr: Address, index: nat)
    requires TableOk(known) && IsVirtual(known, addr, Some(index))
    ensures Physical(known, index) == Some(addr) <==> index != DEVICE_ALL
  {
    assert known[index] == addr;
  }

  // ---------- runs ----------

  datatype Op = Update(addr: Address) | Flush

  ghost function Run(known: seq<Address>, ops: seq<Op>): (result: seq<Address>)
    decreases |ops|
  {
    if ops == [] then known
    else
      match ops[0]
      case Update(addr) => Run(Updated(known, addr).0, ops[1..])
      case Flush => Run([], ops[1..])
  }

  /** Every run keeps the addresses distinct, non-zero and non-broadcast; and as long as nothing is flushed
      each address keeps its number. */
  lemma {:induction false} RunKeepsNumbers(known: seq<Address>, ops: seq<Op>)
    requires TableOk(known)
    ensures TableOk(Run(known, ops))
    ensures Flush !in ops ==> known <= Run(known, ops)
    decreases |ops|
  {
    if ops != [] {
      match ops[0]
      case Update(addr) =>
        assert TableOk(Updated(known, addr).0);
        RunKeepsNumbers(Updated(known, addr).0, ops[1..]);
      case Flush =>
        RunKeepsNumbers([], ops[1..]);
    }
  }

  /** A device that answered keeps its number, and no other, through any later run without a flush, even with
      a full table. */
  lemma NumberIsStable(known: seq<Address>, ops: seq<Op>, addr: Address, index: nat, found: Option<nat>)
    requires TableOk(known) && IsVirtual(known, addr, Some(index)) && Flush !in ops
    ensures IsVirtual(Run(known, ops), addr, found) <==> found == Some(index)
  {
    RunKeepsNumbers(known, ops);
    if IsVirtual(Run(known, ops), addr, found) {
      VirtualIsUnique(Run(known, ops), addr, found, Some(index));
    }
  }

  // ---------- the table fills up ----------

  /** Pairwise different addresses. */
  function Numbered(i: nat): (addr: Address)
    requires i < BDP_MAX
  {
    [1, i, 0, 0, 0, 0, 0, 0]
  }

  function Newcomers(from: nat): (ops: seq<Op>)
    requires from <= BDP_MAX
    decreases BDP_MAX - from
  {
    if from == BDP_MAX then [] else [Update(Numbered(from))] + Newcomers(from + 1)
  }

  ghost predicate FirstNumbered(known: seq<Address>, n: nat)
    requires n <= BDP_MAX
  {
    |known| == n && forall i :: 0 <= i < n ==> known[i] == Numbered(i)
  }

  lemma NewcomerJoins(known: seq<Address>, n: nat)
    requires n < BDP_MAX && FirstNumbered(known, n)
    ensures FirstNumbered(Updated(known, Numbered(n)).0, n + 1)
  {
    assert Numbered(n)[0] == 1;
    forall i | 0 <= i < n
      ensures known[i] != Numbered(n)
    {
      assert known[i][1] == i && Numbered(n)[1] == n;
    }
  }

  lemma {:induction false} NewcomersFill(known: seq<Address>, n: nat)
    requires n <= BDP_MAX && FirstNumbered(known, n)
    ensures FirstNumbered(Run(known, Newcomers(n)), BDP_MAX)
    decreases BDP_MAX - n
  {
    if n < BDP_MAX {
      NewcomerJoins(known, n);
      NewcomersFill(Updated(known, Numbered(n)).0, n + 1);
    }
  }

  lemma LastUnreachable(known: seq<Address>, addr: Address)
    requires FirstNumbered(known, BDP_MAX) && addr == Numbered(DEVICE_ALL)
    ensures IsVirtual(known, addr, Some(DEVICE_ALL))
    ensures forall index: nat :: Physical(known, index) != Some(addr)
  {
    assert addr[0] == 1;
    forall index: nat
      ensures Physical(known, index) != Some(addr)
    {
      assert index < BDP_MAX ==> known[index][1] == index;
    }
  }

  /** The device that cannot be addressed exists: after 256 newcomers one of them has number 255, but this and
      every other number leads elsewhere. */
  lemma LastDeviceUnreachable() returns (ops: seq<Op>, addr: Address)
    ensures |Run([], ops)| == BDP_MAX
    ensures IsVirtual(Run([], ops), addr, Some(DEVICE_ALL))
    ensures forall index: nat :: Physical(Run([], ops), index) != Some(addr)
  {
    var none: nat :| none == 0;  // a variable, lest the verifier unroll the 256 steps
    ops, addr := Newcomers(none), Numbered(DEVICE_ALL);
    NewcomersFill([], none);
    LastUnreachable(Run([], ops), addr);
  }
}
