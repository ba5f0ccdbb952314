/** Objects of the API that several components share. */
module Api {
  import opened Wrappers

  type UID = string

  datatype Family = IPv4 | IPv6 | NoFamily

  /** An address. `Unset` is the zero value; it has no family. */
  datatype IP = Unset | V4(bits: nat) | V6(bits: nat) {
    function Family(): Family {
      match this
      case Unset => NoFamily
      case V4(_) => IPv4
      case V6(_) => IPv6
    }

    /** The order NAT tables are sorted in: IPv4 before IPv6, the zero value last. */
    predicate Less(that: IP) {
      match this
      case Unset => false
      case V4(n) => !that.V4? || n < that.bits
      case V6(n) => that.Unset? || (that.V6? && n < that.bits)
    }
  }

  lemma LessIsTotalOrder(a: IP, b: IP, c: IP)
    ensures !a.Less(a)
    ensures a.Less(b) && b.Less(c) ==> a.Less(c)
    ensures a == b || a.Less(b) || b.Less(a)
    ensures !(a.Less(b) && b.Less(a))
    ensures a.V4? && b.V6? ==> a.Less(b)
    ensures (a.V4? && b.V4?) || (a.V6? && b.V6?) ==> (a.Less(b) <==> a.bits < b.bits)
    ensures b == Unset ==> (a.Less(b) <==> a != Unset)
  {
  }

  /** Who claimed an interface's NAT of one family. */
  datatype ClaimRef = ClaimRef(name: string, uid: UID)

  datatype Nat = Nat(family: Family, claimRef: ClaimRef)

  datatype Nic = Nic(uid: UID, name: string, nodeRef: string, ips: seq<IP>, publicFamilies: seq<Family>,
                     nats: seq<Nat>, deleting: bool)

  /** GetNetworkInterfaceNATClaimer: the first entry of the family. */
  function Claimer(nats: seq<Nat>, family: Family): Option<ClaimRef> {
    if nats == [] then None
    else if nats[0].family == family then Some(nats[0].claimRef)
    else Claimer(nats[1..], family)
  }

  /** Somebody claims the family exactly when there is an entry of it, and the first one says who. */
  lemma {:induction false} ClaimerIs(nats: seq<Nat>, family: Family) returns (at: nat)
    ensures Claimer(nats, family).None? <==> forall n | n in nats :: n.family != family
    ensures Claimer(nats, family).Some? ==>
              && at < |nats| && nats[at] == Nat(family, Claimer(nats, family).value)
              && forall i | 0 <= i < at :: nats[i].family != family
  {
    at := 0;
    if nats != [] && nats[0].family != family {
      at := ClaimerIs(nats[1..], family);
      at := at + 1;
      assert nats == [nats[0]] + nats[1..];
    }
  }
}
