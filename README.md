# connman address record, modelled in Dafny

This project models connman's address record, `struct connman_ipaddress`, and the functions in `connman/src/ipaddress.c` that operate on it. A record is one interface's address configuration: an address family, a prefix length and four optional owned strings (`local`, `peer`, `broadcast`, `gateway`).

Files:

- `wrappers.dfy` (module `Wrappers`): `Option`. A C string that may be `NULL` is an `Option<string>`. An absent string is `None`, which is never the empty string.
- `netmask.dfy` (module `Netmask`): the helper `__connman_ipaddress_netmask_prefix_len`, which turns a dotted netmask into a CIDR prefix length.
  - The mask is a `bv32`, so `~mask` and `host + 1` wrap as `in_addr_t` does.
  - The result and the loop counter are `bv8`, like the C `unsigned char`.
  - The specification function `PrefixLength` describes the result. The lemmas relate it to the contiguous masks `PrefixMask(n)` and to three counts: leading ones, popcount and trailing zeros.
  - The method `NetmaskPrefixLen` is the shift loop of the C helper, proved equal to `PrefixLength`.
- `ipaddress.dfy` (module `IpAddress`): the record itself and its operations.
  - The record is the class `Address`. A C `NULL` record is `null`, and each C function is a method taking an `Address?`.
  - Each method states the record's new value (a `Fields` datatype) as a function of its old value.
  - The lemmas give the laws of those functions: `clear` resets everything but the family and is idempotent; `copy_address` is a partial copy, not a clone; the last setter wins; the peer is independent of the address setters; an IPv4 record's prefix length is always 0..32 or 255.

Two libc parsers are parameters of the model:

- `inet_network` is a function `string -> bv32`.
- `inet_pton(AF_INET6, ...)` is a function `string -> int` (positive on success).

Whether `g_try_new0` finds memory is a `bool` parameter of `Alloc`.

Where the code and the natural reading of its interface disagree, the model follows the code:

- A netmask that fails the contiguity test makes the helper `return -1` through an `unsigned char`, which is 255.
- `set_ipv4` stores that 255 as the prefix length and still returns 0. A malformed netmask is not reported to the caller.
- `inet_network` returns 0xFFFFFFFF for a string it cannot parse, so such a netmask passes the test as a /32 (`PrefixLengthExamples`).

## Model

| member | source | states |
|---|---|---|
| Netmask.NetmaskPrefixLen | connman/src/ipaddress.c:66-87 | The shift-counting loop returns exactly `PrefixLength`: 32 for an absent netmask, 255 when `host & (host + 1) != 0`, otherwise the number of leading ones of the mask. The loop has one turn per leading one, so it ends within 32 turns and the `unsigned char` counter never wraps. |
| Netmask.PrefixLengthCases | connman/src/ipaddress.c:72-86 | An absent netmask gives 32. A mask failing the test gives 255. A mask passing it gives some n <= 32 with `PrefixMask(n)` equal to the parsed mask. |
| Netmask.ValidNetmaskIsPrefixMask | connman/src/ipaddress.c:76-80 | The test `host & (host + 1) == 0` accepts a mask if and only if it is one of the 33 contiguous masks /0 .. /32. |
| Netmask.ValidNetmaskHasPrefix | connman/src/ipaddress.c:76-80 | A mask that passes the test is `PrefixMask(n)` for some n <= 32. |
| Netmask.PrefixMaskIsValid | connman/src/ipaddress.c:76-80 | Every contiguous mask /0 .. /32 passes the test. |
| Netmask.ContiguousHostIsLowOnes | connman/src/ipaddress.c:76-80 | A host part of the form 2^h - 1 that fits in f bits is `LowOnes(h)` for some h <= f. |
| Netmask.PrefixMaskInjective | connman/src/ipaddress.c:82-86 | Distinct prefix lengths give distinct masks, so the returned length is determined by the mask. |
| Netmask.PrefixMaskCounts | connman/src/ipaddress.c:82-86 | For the /n mask, the leading ones, the popcount and 32 minus the trailing zeros are all n. |
| Netmask.ShiftValidNetmask | connman/src/ipaddress.c:83-84 | One `mask <<= 1` of a nonzero valid mask leaves a valid mask with one leading one fewer, which is the loop's invariant and its termination measure. |
| Netmask.ValidPrefixLengthCounts | connman/src/ipaddress.c:75-86 | For a netmask that passes the test, the returned length equals the mask's leading ones, its popcount and 32 minus its trailing zeros. |
| Netmask.PrefixLengthExamples | connman/src/ipaddress.c:66-87 | 255.255.255.0 gives 24, 255.255.255.255 gives 32, 0.0.0.0 gives 0, 255.255.255.1 gives 255, an unparsable mask (0xFFFFFFFF) gives 32, and an absent mask gives 32. |
| IpAddress.Address.constructor | connman/src/ipaddress.c:44-49 | The new record has the given family, prefix length 0 and all four strings absent. |
| IpAddress.Alloc | connman/src/ipaddress.c:36-52 | The result is null exactly when allocation fails. Otherwise it is a fresh live record equal to `Fresh(family)`. |
| IpAddress.Free | connman/src/ipaddress.c:54-64 | A null record is ignored. A live record is no longer live afterwards, so no operation may use it again. |
| IpAddress.CheckIPv6Address | connman/src/ipaddress.c:89-102 | Only a present address can be accepted. |
| IpAddress.SetIPv6 | connman/src/ipaddress.c:104-129 | Returns -EINVAL for a null record or a rejected address, and the record is left exactly as it was. Otherwise returns 0 and sets family AF_INET6, the given prefix length verbatim, local and gateway. Peer and broadcast are kept. |
| IpAddress.SetIPv4 | connman/src/ipaddress.c:131-148 | Returns -EINVAL only for a null record. Otherwise returns 0 and sets family AF_INET, the helper's prefix length (255 for a bad mask), local and gateway. Peer and broadcast are kept. |
| IpAddress.SetPeer | connman/src/ipaddress.c:150-158 | A null record is ignored. Otherwise only the peer changes, to the given value or to absent. |
| IpAddress.Clear | connman/src/ipaddress.c:160-178 | A null record is ignored. Otherwise the prefix length becomes 0, all four strings become absent, and the family is kept. |
| IpAddress.CopyAddress | connman/src/ipaddress.c:180-196 | With a null destination nothing happens. With a null source the destination is left exactly as it was. Otherwise the destination takes the source's family, prefix length and local address. The destination keeps its peer, broadcast and gateway, and a distinct source is unchanged. |
| IpAddress.ClearedIsFresh | connman/src/ipaddress.c:160-178 | A cleared record equals a freshly allocated record of the same family. |
| IpAddress.ClearIdempotent | connman/src/ipaddress.c:160-178 | Clearing twice is the same as clearing once. |
| IpAddress.ClearAfterSetIPv4 | connman/src/ipaddress.c:131-178 | `set_ipv4` then `clear` gives an empty IPv4 record, whatever the record held before. |
| IpAddress.ClearAfterSetPeer | connman/src/ipaddress.c:150-178 | `clear` erases a peer set earlier: setting a peer and then clearing gives the same as clearing. |
| IpAddress.SetIPv4ThenClear | connman/src/ipaddress.c:131-178 | Through the methods: `set_ipv4` of 10.0.0.5, 255.255.255.0 and 10.0.0.1 returns 0 and stores a /24 (the returned `err` and `stored`), and a later `clear` leaves an empty record whose family is still AF_INET. |
| IpAddress.SetPeerLastWins | connman/src/ipaddress.c:150-158 | The last peer set wins, and setting the peer a record already has changes nothing. |
| IpAddress.SetPeerFrame | connman/src/ipaddress.c:150-158 | A record is the result of `set_peer` exactly when it has the new peer and agrees with the old record on every other field. |
| IpAddress.SetPeerCommutes | connman/src/ipaddress.c:104-158 | `set_peer` commutes with `set_ipv4` and with a successful `set_ipv6`. |
| IpAddress.LastAddressSetterWins | connman/src/ipaddress.c:104-148 | Each of `set_ipv4` and `set_ipv6` completely overrides an earlier call of either. |
| IpAddress.AddressSettersKeepPeerAndBroadcast | connman/src/ipaddress.c:104-148 | Neither address setter touches peer or broadcast. |
| IpAddress.CopyAddressCharacterised | connman/src/ipaddress.c:180-196 | A record is the result of `copy_address` exactly when it has the source's family, prefix length and local address, and the destination's peer, broadcast and gateway. |
| IpAddress.CopyAddressIdempotent | connman/src/ipaddress.c:180-196 | Copying the same source again changes nothing, and a later copy overrides an earlier one. |
| IpAddress.CopySameAddress | connman/src/ipaddress.c:180-196 | Copying into a record that already carries the same address is the identity. |
| IpAddress.CopyIsNotClone | connman/src/ipaddress.c:180-196 | The copy equals the source exactly when peer, broadcast and gateway already agreed, so it is not a clone. |
| IpAddress.ClearAfterCopy | connman/src/ipaddress.c:160-196 | `clear` after `copy_address` gives a fresh record of the source's family. |
| IpAddress.CopyKeepsDestinationPeer | connman/src/ipaddress.c:185-196 | With source local 10.0.0.5, source peer 10.0.0.9 and destination peer 192.168.1.1, the destination afterwards has local 10.0.0.5, the source's family and prefix length, and still peer 192.168.1.1. |
| IpAddress.FreshPrefixInRange | connman/src/ipaddress.c:36-52 | A new record has prefix length 0, which is in range. |
| IpAddress.SetIPv4PrefixInRange | connman/src/ipaddress.c:131-148 | After `set_ipv4` the prefix length is 0..32 or 255. It is 255 exactly when a present netmask fails the test. |
| IpAddress.OtherOperationsKeepPrefixInRange | connman/src/ipaddress.c:104-196 | `set_ipv6`, `set_peer`, `clear` and a copy from an in-range source keep an IPv4 record's prefix length in 0..32 or at 255. |

## Left out

- Heap management is not modelled. `g_try_new0`, `g_free` and `g_strdup` become allocation of the class and assignment of `Option<string>` values, so leaks and the freeing of old strings are not visible.
- Freed records are modelled only by the ghost flag `live`. Every operation requires a live record, standing for the undefined behaviour of using a record after `free` or freeing it twice.
- `inet_network` and `inet_pton` are not modelled. Their grammars live in libc, so they are function parameters of the model.
- The `DBG` call in `set_ipv6` is not modelled, because it is logging only.
- `connman/ipaddress.h` is not part of this model. The fields' layout follows their uses in connman/src/ipaddress.c, and AF_INET = 2, AF_INET6 = 10 and EINVAL = 22 are the Linux values. Only the two families being distinct matters.
- IpAddress.CopyAddress: requires that a record is not copied onto itself while it holds a local address. In C that call frees `local` and then duplicates the freed string.
- Aliasing between a string argument and a field of the same record is not modelled, because strings are values. An example is `set_ipv6(a, a->local, ...)`, which also duplicates a freed string in C.
- IpAddress.CheckIPv6Address: its body is the definition of connman/src/ipaddress.c:94-101 over the abstract `inet_pton`, and its `ensures` records only that an absent address is rejected.
