/**
 * connman's address record (`struct connman_ipaddress`) and the operations
 * on it: allocation and release, the IPv4, IPv6 and peer setters, the
 * partial reset and the partial copy.
 *
 * The C functions all take a possibly-NULL record pointer and mutate the
 * record in place, so the record is a class, `NULL` is `null`, and each
 * operation is a method over `Address?`. An owned C string that may be
 * `NULL` is an `Option<string>`; `g_free` followed by `g_strdup` is plain
 * assignment of the new value.
 *
 * The value of a record at one moment is a `Fields` datatype; every method
 * states the record's new value as a function of its old value, and the
 * laws about those functions are lemmas at the end of the module.
 */
module IpAddress {
  import opened Wrappers
  import opened Netmask

  // Linux values of the address families and of EINVAL; the model only
  // relies on the two families being different.
  const AfInet: int := 2
  const AfInet6: int := 10
  const EINVAL: int := 22

  /** The contents of a record: `family`, `prefixlen` and the four owned strings. */
  datatype Fields = Fields(
    family: int,
    prefixlen: bv8,
    local: Option<string>,
    peer: Option<string>,
    broadcast: Option<string>,
    gateway: Option<string>)

  // ---------------------------------------------------------------------
  // What each operation does to a record's value

  /** A freshly allocated record: the given family, prefix length 0, no strings. */
  function Fresh(family: int): Fields {
    Fields(family, 0, None, None, None, None)
  }

  /** `set_ipv4` on a record: family, prefix length, local address and gateway are replaced. */
  function WithIPv4(v: Fields, address: Option<string>, prefixlen: bv8, gateway: Option<string>): Fields {
    v.(family := AfInet, prefixlen := prefixlen, local := address, gateway := gateway)
  }

  /** `set_ipv6` on a record, once the address has been accepted. */
  function WithIPv6(v: Fields, address: Option<string>, prefixlen: bv8, gateway: Option<string>): Fields {
    v.(family := AfInet6, prefixlen := prefixlen, local := address, gateway := gateway)
  }

  /** `set_peer` on a record. */
  function WithPeer(v: Fields, peer: Option<string>): Fields {
    v.(peer := peer)
  }

  /** `clear` on a record: everything but the family is reset. */
  function Cleared(v: Fields): Fields {
    Fields(v.family, 0, None, None, None, None)
  }

  /** `copy_address` from `src` into `dst`: only family, prefix length and local address travel. */
  function AddressCopied(dst: Fields, src: Fields): Fields {
    dst.(family := src.family, prefixlen := src.prefixlen, local := src.local)
  }

  /** Two records carry the same address: family, prefix length and local address agree. */
  predicate SameAddress(u: Fields, v: Fields) {
    u.family == v.family && u.prefixlen == v.prefixlen && u.local == v.local
  }

  /** Two records agree on everything `copy_address` leaves alone: peer, broadcast and gateway. */
  predicate SameSurroundings(u: Fields, v: Fields) {
    u.peer == v.peer && u.broadcast == v.broadcast && u.gateway == v.gateway
  }

  /**
   * `check_ipv6_address`: an address is accepted when it is present and
   * libc's `inet_pton(AF_INET6, ...)`, here the parameter `inetPton6`,
   * returns a positive value (1 on success, 0 or -1 otherwise).
   */
  function CheckIPv6Address(address: Option<string>, inetPton6: string -> int): (ok: bool)
    ensures ok ==> address.Some?
  {
    address.Some? && inetPton6(address.value) > 0
  }

  /**
   * The prefix lengths an IPv4 record can carry: a real /0 .. /32 prefix,
   * or the 255 that a malformed netmask leaves behind.
   */
  predicate IPv4PrefixInRange(v: Fields) {
    v.family == AfInet ==> v.prefixlen <= 32 || v.prefixlen == Invalid
  }

  // ---------------------------------------------------------------------
  // The record and its operations

  class Address {
    var family: int
    var prefixlen: bv8
    var local: Option<string>
    var peer: Option<string>
    var broadcast: Option<string>
    var gateway: Option<string>
    /** False once the record has been passed to `Free`. */
    ghost var live: bool

    function Value(): Fields
      reads this
    {
      Fields(family, prefixlen, local, peer, broadcast, gateway)
    }

    constructor (family: int)
      ensures Value() == Fresh(family) && live
    {
      this.family := family;
      prefixlen := 0;
      local := None;
      peer := None;
      broadcast := None;
      gateway := None;
      live := true;
    }
  }

  /**
   * `connman_ipaddress_alloc`. Whether `g_try_new0` can obtain memory is
   * the parameter `memoryAvailable`; without it the result is null.
   */
  method Alloc(family: int, memoryAvailable: bool) returns (a: Address?)
    ensures a == null <==> !memoryAvailable
    ensures a != null ==> fresh(a) && a.live && a.Value() == Fresh(family)
  {
    if !memoryAvailable {
      return null;
    }
    a := new Address(family);
  }

  /** `connman_ipaddress_free`: a null record is ignored; a live one is gone afterwards. */
  method Free(a: Address?)
    requires a != null ==> a.live
    modifies a
    ensures a != null ==> !a.live
  {
    if a == null {
      return;
    }
    a.live := false;
  }

  /**
   * `connman_ipaddress_set_ipv6`: fails with -EINVAL, leaving the record as
   * it was, when there is no record or the address is absent or not an IPv6
   * address; otherwise stores the address, the prefix length as given and
   * the gateway.
   */
  method SetIPv6(a: Address?, address: Option<string>, prefixLength: bv8, gateway: Option<string>,
                 inetPton6: string -> int) returns (err: int)
    requires a != null ==> a.live
    modifies a
    ensures err == (if a == null || !CheckIPv6Address(address, inetPton6) then -EINVAL else 0)
    ensures a != null ==> a.live
    ensures a != null ==> a.Value() == (if err == 0 then WithIPv6(old(a.Value()), address, prefixLength, gateway)
                                        else old(a.Value()))
  {
    if a == null {
      return -EINVAL;
    }
    if !CheckIPv6Address(address, inetPton6) {
      return -EINVAL;
    }
    a.family := AfInet6;
    a.prefixlen := prefixLength;
    a.local := address;
    a.gateway := gateway;
    return 0;
  }

  /**
   * `connman_ipaddress_set_ipv4`: fails with -EINVAL only when there is no
   * record. A malformed netmask is not an error here: it is stored as the
   * prefix length 255 and the call still succeeds.
   */
  method SetIPv4(a: Address?, address: Option<string>, netmask: Option<string>, gateway: Option<string>,
                 inetNetwork: string -> bv32) returns (err: int)
    requires a != null ==> a.live
    modifies a
    ensures err == (if a == null then -EINVAL else 0)
    ensures a != null ==> a.live
    ensures a != null ==> a.Value() == WithIPv4(old(a.Value()), address, PrefixLength(netmask, inetNetwork), gateway)
  {
    if a == null {
      return -EINVAL;
    }
    a.family := AfInet;
    a.prefixlen := NetmaskPrefixLen(netmask, inetNetwork);
    a.local := address;
    a.gateway := gateway;
    return 0;
  }

  /** `connman_ipaddress_set_peer`: a null record is ignored; otherwise only the peer changes. */
  method SetPeer(a: Address?, peer: Option<string>)
    requires a != null ==> a.live
    modifies a
    ensures a != null ==> a.live && a.Value() == WithPeer(old(a.Value()), peer)
  {
    if a == null {
      return;
    }
    a.peer := peer;
  }

  /** `connman_ipaddress_clear`: a null record is ignored; otherwise all but the family is reset. */
  method Clear(a: Address?)
    requires a != null ==> a.live
    modifies a
    ensures a != null ==> a.live && a.Value() == Cleared(old(a.Value()))
  {
    if a == null {
      return;
    }
    a.prefixlen := 0;
    a.local := None;
    a.peer := None;
    a.broadcast := None;
    a.gateway := None;
  }

  /**
   * `connman_ipaddress_copy_address`: nothing happens unless both records
   * are there; otherwise the destination takes the source's family, prefix
   * length and local address and keeps its own peer, broadcast and gateway.
   * Copying a record onto itself while it holds a local address would read
   * the string the call has just released, so callers may not do that.
   */
  method CopyAddress(dst: Address?, src: Address?)
    requires dst != null ==> dst.live
    requires src != null ==> src.live
    requires dst != null && dst == src ==> dst.local.None?
    modifies dst
    ensures dst != null ==> dst.live
    ensures dst != null ==> dst.Value() == if src == null then old(dst.Value())
                                           else AddressCopied(old(dst.Value()), old(src.Value()))
    ensures src != null ==> src.live
    ensures src != null && src != dst ==> src.Value() == old(src.Value())
  {
    if dst == null || src == null {
      return;
    }
    dst.family := src.family;
    dst.prefixlen := src.prefixlen;
    dst.local := src.local;
  }

  // ---------------------------------------------------------------------
  // Laws of the operations

  /** `clear` brings a record back to what `alloc` gives for the same family. */
  lemma ClearedIsFresh(v: Fields)
    ensures Cleared(v) == Fresh(v.family)
  {
  }

  /** Clearing twice is clearing once. */
  lemma ClearIdempotent(v: Fields)
    ensures Cleared(Cleared(v)) == Cleared(v)
  {
  }

  /** After `set_ipv4` and `clear` the record is an empty IPv4 record, whatever it held before. */
  lemma ClearAfterSetIPv4(v: Fields, address: Option<string>, prefixlen: bv8, gateway: Option<string>)
    ensures Cleared(WithIPv4(v, address, prefixlen, gateway)) == Fresh(AfInet)
  {
  }

  /** `clear` also forgets the peer, which the setters of addresses never touch. */
  lemma ClearAfterSetPeer(v: Fields, peer: Option<string>)
    ensures Cleared(WithPeer(v, peer)) == Cleared(v)
  {
  }

  /** The last peer set wins, and setting the peer a record already has changes nothing. */
  lemma SetPeerLastWins(v: Fields, p: Option<string>, q: Option<string>)
    ensures WithPeer(WithPeer(v, p), q) == WithPeer(v, q)
    ensures WithPeer(v, v.peer) == v
  {
  }

  /** `set_peer` changes the peer and nothing else. */
  lemma SetPeerFrame(v: Fields, peer: Option<string>, r: Fields)
    ensures r == WithPeer(v, peer) <==>
              r.peer == peer && SameAddress(r, v) && r.broadcast == v.broadcast && r.gateway == v.gateway
  {
  }

  /** The peer is independent of the address setters: they commute with `set_peer`. */
  lemma SetPeerCommutes(v: Fields, peer: Option<string>, address: Option<string>, prefixlen: bv8,
                        gateway: Option<string>)
    ensures WithPeer(WithIPv4(v, address, prefixlen, gateway), peer) ==
            WithIPv4(WithPeer(v, peer), address, prefixlen, gateway)
    ensures WithPeer(WithIPv6(v, address, prefixlen, gateway), peer) ==
            WithIPv6(WithPeer(v, peer), address, prefixlen, gateway)
  {
  }

  /** An address setter replaces whatever the previous one stored: the last call wins. */
  lemma LastAddressSetterWins(v: Fields, a1: Option<string>, p1: bv8, g1: Option<string>,
                              a2: Option<string>, p2: bv8, g2: Option<string>)
    ensures WithIPv4(WithIPv6(v, a1, p1, g1), a2, p2, g2) == WithIPv4(v, a2, p2, g2)
    ensures WithIPv6(WithIPv4(v, a1, p1, g1), a2, p2, g2) == WithIPv6(v, a2, p2, g2)
    ensures WithIPv4(WithIPv4(v, a1, p1, g1), a2, p2, g2) == WithIPv4(v, a2, p2, g2)
    ensures WithIPv6(WithIPv6(v, a1, p1, g1), a2, p2, g2) == WithIPv6(v, a2, p2, g2)
  {
  }

  /** The address setters leave peer and broadcast alone. */
  lemma AddressSettersKeepPeerAndBroadcast(v: Fields, address: Option<string>, prefixlen: bv8,
                                           gateway: Option<string>)
    ensures WithIPv4(v, address, prefixlen, gateway).peer == v.peer
    ensures WithIPv4(v, address, prefixlen, gateway).broadcast == v.broadcast
    ensures WithIPv6(v, address, prefixlen, gateway).peer == v.peer
    ensures WithIPv6(v, address, prefixlen, gateway).broadcast == v.broadcast
  {
  }

  /**
   * `copy_address` is characterised by its field lists: the result is the
   * one record carrying the source's address and the destination's
   * surroundings.
   */
  lemma CopyAddressCharacterised(dst: Fields, src: Fields, r: Fields)
    ensures r == AddressCopied(dst, src) <==> SameAddress(r, src) && SameSurroundings(r, dst)
  {
  }

  /** Copying the same source again changes nothing; a later copy overrides an earlier one. */
  lemma CopyAddressIdempotent(dst: Fields, s1: Fields, s2: Fields)
    ensures AddressCopied(AddressCopied(dst, s1), s1) == AddressCopied(dst, s1)
    ensures AddressCopied(AddressCopied(dst, s1), s2) == AddressCopied(dst, s2)
  {
  }

  /** Copying a record's address into a record with the same address is the identity. */
  lemma CopySameAddress(dst: Fields, src: Fields)
    requires SameAddress(dst, src)
    ensures AddressCopied(dst, src) == dst
  {
  }

  /** A partial copy is a full copy exactly when the surroundings already agree. */
  lemma CopyIsNotClone(dst: Fields, src: Fields)
    ensures AddressCopied(dst, src) == src <==> SameSurroundings(dst, src)
  {
  }

  /** `clear` after `copy_address` depends only on the source's family. */
  lemma ClearAfterCopy(dst: Fields, src: Fields)
    ensures Cleared(AddressCopied(dst, src)) == Fresh(src.family)
  {
  }

  /**
   * A destination with its own peer takes the source's local address,
   * family and prefix length, and keeps its peer.
   */
  lemma CopyKeepsDestinationPeer(dst: Fields, src: Fields)
    requires src.local == Some("10.0.0.5") && src.peer == Some("10.0.0.9")
    requires dst.peer == Some("192.168.1.1")
    ensures AddressCopied(dst, src).local == Some("10.0.0.5")
    ensures AddressCopied(dst, src).family == src.family
    ensures AddressCopied(dst, src).prefixlen == src.prefixlen
    ensures AddressCopied(dst, src).peer == Some("192.168.1.1")
  {
  }

  // The range of an IPv4 record's prefix length is kept by every operation.

  lemma FreshPrefixInRange(family: int)
    ensures IPv4PrefixInRange(Fresh(family)) && Fresh(family).prefixlen == 0
  {
  }

  /** `set_ipv4` stores a real prefix length or the 255 of a malformed netmask, nothing else. */
  lemma SetIPv4PrefixInRange(v: Fields, address: Option<string>, netmask: Option<string>,
                             gateway: Option<string>, inetNetwork: string -> bv32)
    ensures IPv4PrefixInRange(WithIPv4(v, address, PrefixLength(netmask, inetNetwork), gateway))
    ensures WithIPv4(v, address, PrefixLength(netmask, inetNetwork), gateway).prefixlen == Invalid <==>
              netmask.Some? && !IsValidNetmask(inetNetwork(netmask.value))
  {
  }

  lemma OtherOperationsKeepPrefixInRange(v: Fields, src: Fields, peer: Option<string>,
                                         address: Option<string>, prefixlen: bv8, gateway: Option<string>)
    requires IPv4PrefixInRange(v) && IPv4PrefixInRange(src)
    ensures IPv4PrefixInRange(WithIPv6(v, address, prefixlen, gateway))
    ensures IPv4PrefixInRange(WithPeer(v, peer))
    ensures IPv4PrefixInRange(Cleared(v))
    ensures IPv4PrefixInRange(AddressCopied(v, src))
  {
  }

  /**
   * The netmask-to-length scenario through the record: `set_ipv4` with
   * 10.0.0.5/255.255.255.0 via 10.0.0.1 and then `clear` leaves an empty
   * IPv4 record. `err` and `stored` are what `set_ipv4` returned and the
   * prefix length it stored: success and a /24.
   */
  method SetIPv4ThenClear(a: Address, inetNetwork: string -> bv32) returns (err: int, stored: bv8)
    requires a.live
    requires inetNetwork("255.255.255.0") == 0xFFFF_FF00
    modifies a
    ensures err == 0 && stored == 24
    ensures a.live && a.Value() == Fresh(AfInet)
  {
    err := SetIPv4(a, Some("10.0.0.5"), Some("255.255.255.0"), Some("10.0.0.1"), inetNetwork);
    assert PrefixMask(24) == 0xFFFF_FF00;
    PrefixMaskCounts(24);
    stored := a.prefixlen;
    Clear(a);
  }
}
