# cidr-utils, modelled in Dafny

This project models the core of the Rust crate `cidr-utils`. The crate works on IPv4 and
IPv6 CIDR blocks. It has:

- the block types, with their masks, first and last addresses, sizes, containment test and
  ordering;
- address iterators over a block, double-ended, handing out bytes, 16-bit segments, numbers
  or address values;
- the combiner, a sorted list of disjoint blocks that absorbs, merges and coalesces the
  blocks pushed onto it;
- the separator, which divides a block into `n` combiners (`divide_by`) or into the
  sub-blocks of a given length (`sub_networks`);
- the family-generic wrappers `IpCidr`, `IpCidrCombiner` and `IpCidrSeparator`.

The crate's three generations live side by side in the source:

- the transmute generation (`src/cidr/ipv4_cidr.rs`, `src/cidr/ipv6_cidr.rs`,
  `src/utils/ipv*_cidr_*.rs`), which stores words in host byte order;
- the module generation (`src/cidr/v4`, `src/cidr/v6`, `src/utils/v4`, `src/utils/v6`);
- the newest generation (`src/combiner`, `src/iterator`, `src/separator`, `src/traits.rs`),
  built on the external `cidr` crate.

The model is width-generic: an address of width `w` (32 or 128) is a natural number below
`2^w`, and a block is `Cidr(prefix, mask)`. Bitwise operations are defined bit by bit on
naturals (`Bits`), and big-endian digit strings by `Digits`. A `Generation` parameter selects
the places where the generations differ:

- the IPv6 `cmp` of the older two generations, which panics on equal prefixes;
- the transmute buddy test, computed on byte-swapped words;
- the strict `Ipv6Cidr::new` of the `cidr` crate.

A Rust panic that callers can reach is a result value (`CmpOutcome.IndexPanic`,
`Yield.CounterOverflow`, `Hint.HintUnderflow`, `Produced.Panicked`, `Subnets.ZeroStep`,
and so on), not a precondition.

Objects whose methods update fields in place are classes:

- the cursor (`Cursors.Cursor`, fields `next` and `back`);
- the typed iterators;
- the transmute iterators (a `(u128, bool)` counter);
- the combiner (`Combiners.Combiner`, field `cidrs`);
- the IP combiner.

Their methods state the new state against the old one (`Remaining()`, `Items()`, `Covers`).
Pure helpers are functions and lemmas.

Where the documentation and the code disagree, the model follows the code:

- `divide_by` is documented as dividing a block evenly into `n` subnetworks. On the uneven
  path the code returns `size / (size / n)` combiners.
- The module generation's IPv6 `size` is a `(u128, bool)` pair, whose flag stands for 2^128.
  The module iterators and `IpCidr::size` use `BigUint`.

The files:

| file | modules |
|---|---|
| `wrappers.dfy` | `Option`, `Ordering` |
| `bits.dfy` | bit operations |
| `digits.dfy` | big-endian digits |
| `masks.dfy` | masks |
| `segments.dfy` | `u128` and `[u16; 8]` |
| `able.dfy` | `Ipv4Able` / `Ipv6Able` |
| `cidr.dfy` | the block value |
| `cmp.dfy` | `cmp` |
| `layout.dfy` | the little-endian word layout |
| `transmute.dfy` | the transmute block and iterators |
| `cursor.dfy` | the double-ended cursor |
| `iterators.dfy` | typed iterators |
| `combiner.dfy` | block lists and the combiner |
| `separator.dfy` | tilings, runs of combiners, the separator |
| `ip.dfy` | the `IpCidr` wrappers |

## Model

| member | source | states |
|---|---|---|
| Masks.GetMask | src/cidr/v4/functions.rs:1-10 | shifting a one in from the top `bits` times yields the mask of the first `min(bits, w)` bits |
| Masks.MaskBit | src/cidr/v4/functions.rs:5-7 | bit `i` of the length-`len` mask is set exactly when `i` is among the top `len` positions |
| Masks.MaskInjective | src/cidr/v4/functions.rs:1-10 | two lengths with the same mask are the same length |
| Masks.MaskLength | src/cidr/v4/functions.rs:12-35 | `None` exactly for a word whose set bits are not a leading run; otherwise the length whose mask is the word |
| Masks.ContiguousIffMask | src/cidr/v4/functions.rs:12-35 | a word is a leading run of ones iff it is the mask of some length `0..=w` |
| Masks.MaskToBits | src/cidr/v4/functions.rs:12-35 | the downward scan and its tail check return `MaskLength` for every word |
| Masks.MaskLengthTail32 | src/cidr/v4/functions.rs:28-31 | the `digit == 1` shortcut is right: all ones gives 32, all but the last bit gives 31 |
| Masks.MaskRoundTrip | src/cidr/v4/functions.rs:1-35 | `mask_to_bits(get_mask(len)) == Some(len)` for every `len <= w` |
| Masks.MaskToBitsOfGetMask | src/cidr/v6/functions.rs:1-39 | the two methods chained give back the length, at either width |
| Segments.U128ToU16Array | src/cidr/v6/functions.rs:41-54 | the result is the eight big-endian 16-bit digits of the number |
| Segments.SegmentAt | src/cidr/v6/functions.rs:41-54 | segment `i` is `(x >> 16 * (7 - i)) & 0xFFFF` |
| Segments.BytesAreSplitSegments | src/cidr/v6/functions.rs:41-54 | the 16 big-endian bytes are the segments, each split into its high and low byte |
| Segments.U16ArrayToU128 | src/cidr/v6/functions.rs:56-67 | joining eight segments gives their big-endian value, below 2^128 |
| Segments.SegmentsRoundTrip | src/cidr/v6/functions.rs:41-67 | number to segments and back is the identity |
| Segments.U16ArrayRoundTrip | src/cidr/v6/functions.rs:41-67 | segments to number and back is the identity |
| Able.GetU32 | src/cidr/v4/ipv4_able.rs:5-35 | every `Ipv4Able` reads as a number below 2^32 |
| Able.U8ArrayBigEndian | src/cidr/v4/ipv4_able.rs:16-21 | `[a, b, c, d]` reads as `a·2^24 + b·2^16 + c·2^8 + d` |
| Able.U8ArrayRoundTrip4 | src/cidr/v4/ipv4_able.rs:16-21 | `to_be_bytes` and `from_be_bytes` are inverse both ways |
| Able.AddrIsOctets4 | src/cidr/v4/ipv4_able.rs:23-28 | an `Ipv4Addr` reads as its octets, and its octets are the bytes of that value |
| Able.RefForwards4 | src/cidr/v4/ipv4_able.rs:30-35 | any number of `&` layers read the same value |
| Able.Value6 | src/cidr/v6/ipv6_able.rs:7-44 | every `Ipv6Able` reads as a number below 2^128 |
| Able.GetU128 | src/cidr/v6/ipv6_able.rs:7-44 | the method computes that value for every representation |
| Able.ArraysRoundTrip6 | src/cidr/v6/ipv6_able.rs:18-30 | the byte and segment arrays of a number read back as that number |
| Able.AddrSegments | src/cidr/v6/ipv6_able.rs:32-37 | segment `i` of an address is octet `2i` times 256 plus octet `2i + 1` |
| Able.SplitAddrSegments | src/cidr/v6/ipv6_able.rs:32-37 | splitting the segments gives the octets back |
| Able.AddrIsSegments6 | src/cidr/v6/ipv6_able.rs:32-37 | an `Ipv6Addr` reads as its segments, the way `segments()` would |
| Able.RefForwards6 | src/cidr/v6/ipv6_able.rs:39-44 | any number of `&` layers read the same value |
| Cidrs.Len | src/cidr/v4/ipv4_cidr.rs:47-50 | the length is at most `w` and its mask is the block's mask |
| Cidrs.FromPrefixAndBits | src/cidr/v4/ipv4_cidr.rs:72-88 | `IncorrectBitsRange` exactly when `bits > w`; otherwise a valid block of length `bits` whose prefix is the address with its host bits cleared |
| Cidrs.MaskedBlock | src/cidr/v4/ipv4_cidr.rs:72-88 | `prefix & mask` is the prefix rounded down to the block size, and gives a valid block |
| Cidrs.FromPrefixAndMask | src/cidr/v4/ipv4_cidr.rs:90-107 | `IncorrectMask` exactly for a non-contiguous mask; otherwise the block with that mask and the prefix rounded down |
| Cidrs.StrictNew | src/combiner/v4.rs:104-105 | `Ipv4Cidr::new` accepts exactly when `bits <= w` and no host bit is set, and then agrees with `from_prefix_and_bits` |
| Cidrs.Size | src/traits.rs:22-27 | the size is between 1 and `2^w`, and the block ends within the address space |
| Cidrs.WideSize | src/cidr/v6/ipv6_cidr.rs:189-199 | the flag is set exactly for `/0`, where the pair `(0, true)` stands for 2^128; otherwise the low part is the size |
| Cidrs.NetMask | src/cidr/v4/ipv4_cidr.rs:54-56 | the mask rebuilt from the length is the stored mask (the IPv6 `get_mask` at src/cidr/v6/ipv6_cidr.rs:59-61 is the same) |
| Cidrs.First | src/cidr/v4/ipv4_cidr.rs:194-196 | the first address is a multiple of the block size |
| Cidrs.Last | src/cidr/v4/ipv4_cidr.rs:210-212 | the last address is `prefix + size - 1`, within the space |
| Cidrs.Contains | src/cidr/v4/ipv4_cidr.rs:234-238 | `ip & mask == prefix` exactly when the address lies between the first and the last |
| Cidrs.FirstLastBounds | src/cidr/v4/ipv4_cidr.rs:194-238 | first and last are members, every member lies between them, and `last - first + 1 == size` |
| Cidrs.Order | src/cidr/v4/ipv4_cidr.rs:272-287 | `Equal` exactly for the same block; `Less` exactly for a lower prefix, or the same prefix with a shorter length |
| Cidrs.OrderIsTotal | src/cidr/v4/ipv4_cidr.rs:272-287 | the order is antisymmetric and transitive |
| Cidrs.NestedOrDisjoint | src/utils/v4/ipv4_cidr_combiner.rs:52-73 | of two blocks, the later-starting one either lies past the other's end or inside it |
| Cidrs.DisjointOrdered | src/utils/v4/ipv4_cidr_combiner.rs:52-73 | a block ending before another starts sorts first and shares no address with it |
| Compare.GetBits | src/cidr/v4/ipv4_cidr.rs:47-50 | `get_bits` returns the block's length |
| Compare.CmpV4 | src/cidr/v4/ipv4_cidr.rs:272-287 | the octet-by-octet comparison returns `Order` |
| Compare.FirstDifference | src/cidr/v6/ipv6_cidr.rs:256-262 | the first differing digit decides the order of two big-endian numbers |
| Compare.CmpV6 | src/cidr/v6/ipv6_cidr.rs:252-266 | the loop over `0..16` on eight segments panics exactly when the prefixes are equal; otherwise it returns `Order` |
| Compare.CmpV6Fixed | src/cidr/v6/ipv6_cidr.rs:252-266 | the loop bounded by the segment count always returns `Order` |
| Compare.CmpV6PanicWitness | src/cidr/v6/ipv6_cidr.rs:256 | a block against its first half: the loop as written panics, the bounded one answers `Less` |
| Layout.SwapInvolution | src/cidr/ipv4_cidr.rs:38-45 | transmuting a word to bytes and back is the identity |
| Layout.SwapInjective | src/cidr/ipv4_cidr.rs:38-45 | two addresses share a stored word exactly when they are equal |
| Layout.SwapBit | src/cidr/ipv4_cidr.rs:38-45 | bit `Pos(d)` of the stored word is address bit `d`, counted from the top |
| Layout.SwapXor | src/utils/ipv4_cidr_combiner.rs:96-98 | XOR commutes with the byte swap |
| Layout.SwapAnd | src/cidr/ipv4_cidr.rs:226-227 | AND commutes with the byte swap |
| Layout.BuddyWord | src/utils/ipv4_cidr_combiner.rs:96-98 | the transmuted one-bit word is the stored form of `2^(w - bits)` |
| Layout.BuddyWordTest | src/utils/ipv4_cidr_combiner.rs:96-98 | the buddy test on stored words holds exactly when it holds on the addresses |
| Layout.PartialOctet | src/cidr/ipv4_cidr.rs:29-31 | `0xFF << (8 - d)` is the `d`-bit mask octet |
| Layout.MaskOctetsValue | src/cidr/ipv4_cidr.rs:17-35 | the octets `get_mask` fills read big-endian as the mask of `bits` |
| Layout.GetMaskLe | src/cidr/ipv4_cidr.rs:17-35 | the octets are the mask's big-endian bytes, and the word is the mask's stored form |
| Layout.ScanReads | src/cidr/ipv4_cidr.rs:53-57 | `(mask << index) >> 31` reads address bit `digit` of a stored word |
| Layout.ScanBit | src/cidr/ipv4_cidr.rs:53-57 | the method returns that bit |
| Layout.MaskToBitsLe | src/cidr/ipv4_cidr.rs:48-78 | `mask_to_bits` on a stored word returns `MaskLength` of the address it stores |
| Layout.MaskToBitsLeOfGetMask | src/cidr/ipv6_cidr.rs:34-118 | `mask_to_bits(get_mask(bits)) == Some(bits)` in the transmute layout |
| TransmuteCidrs.ImageInvolution | src/cidr/ipv4_cidr.rs:38-45 | storing a block twice gives it back |
| TransmuteCidrs.StoredPrefix | src/cidr/ipv4_cidr.rs:227 | AND of stored words is the stored form of the AND of the addresses |
| TransmuteCidrs.FromPrefixAndBitsLe | src/cidr/ipv4_cidr.rs:220-233 | an error exactly when `bits > w`; otherwise the stored form of the module-generation block of the same address |
| TransmuteCidrs.FromPrefixAndMaskLe | src/cidr/ipv4_cidr.rs:235-251 | an error exactly when the address-order mask is not contiguous; otherwise the stored form of the module-generation block |
| TransmuteCidrs.ContainsLe | src/cidr/ipv4_cidr.rs:379-383 | the test on stored words agrees with `Contains` on the addresses |
| TransmuteCidrs.SizeCount | src/cidr/ipv6_cidr.rs:402-411 | the `(u128, bool)` size is canonical and its value is the block size; the flag is set exactly for `/0` |
| TransmuteCidrs.ValInjective | src/cidr/ipv6_cidr.rs:438 | `==` on canonical counters is equality of the counts they stand for |
| TransmuteCidrs.Subtract | src/cidr/ipv6_cidr.rs:17-32 | the branch with a full subtrahend and a partial minuend is unreachable; `a - b` underflows exactly when both are partial and `a < b` |
| TransmuteCidrs.SubtractExact | src/cidr/ipv6_cidr.rs:17-32 | for `b <= a` the difference is canonical and its value is `a - b` |
| TransmuteCidrs.WideIterator.constructor | src/cidr/ipv6_cidr.rs:497-511 | the iterator starts at offset 0 of the block and its last offset is the block's last address |
| TransmuteCidrs.WideIterator.Next | src/cidr/ipv6_cidr.rs:436-457 | an exhausted iterator yields nothing; otherwise the address at `next`, encoded, and `next` moves on by one |
| TransmuteCidrs.WideIterator.Last | src/cidr/ipv6_cidr.rs:458-463 | panics exactly for `/0` (`size.0 - 1` underflows in a debug build); otherwise yields the last address |
| TransmuteCidrs.WideIterator.LastChecked | src/cidr/ipv6_cidr.rs:458-463 | with the pair subtracted as a count, always the last address |
| TransmuteCidrs.LastPanicWitness | src/cidr/ipv6_cidr.rs:458-463 | on `::/0`, `last` panics in a debug build |
| TransmuteCidrs.WideIterator.Skip | src/cidr/ipv6_cidr.rs:473-490 | the capped skip moves `next` by `n`, or to the end once that runs past it; unguarded, it panics exactly when the `u128` addition overflows |
| TransmuteCidrs.WideIterator.NthOctets | src/cidr/ipv6_cidr.rs:472-493 | never panics; yields the address `n` past `next`, or ends the iterator |
| TransmuteCidrs.WideIterator.NthSegments | src/cidr/ipv6_cidr.rs:563-580 | panics exactly when the block is `/0`, `next > 0` and `next + n` overflows `u128`; otherwise it behaves as `NthOctets` |
| TransmuteCidrs.NthSegmentsPanicWitness | src/cidr/ipv6_cidr.rs:563-580 | on `::/0`, one `next` then `nth_u128(u128::MAX)` panics |
| TransmuteCidrs.NarrowIterator.constructor | src/cidr/ipv4_cidr.rs:438-451 | the iterator starts at offset 0 and covers the block |
| TransmuteCidrs.NarrowIterator.Next | src/cidr/ipv4_cidr.rs:399-413 | yields the byte-reversed stored word, which is the address at `next` in big-endian octets |
| TransmuteCidrs.NarrowIterator.Last | src/cidr/ipv4_cidr.rs:414-419 | yields the block's last address |
| TransmuteCidrs.NarrowIterator.NthU64 | src/cidr/ipv4_cidr.rs:427-435 | yields the address `n` past `next`, or ends the iterator, and never panics |
| TransmuteCidrs.ReadWord | src/cidr/ipv4_cidr.rs:43-45 | an octet item read back through `transmute` is the stored word `Swap(n, address)`, and swapping that word again gives the address |
| TransmuteCidrs.NarrowWordIterator.constructor | src/cidr/ipv4_cidr.rs:487-494 | `iter()` wraps the octet iterator over the whole block, at offset 0 |
| TransmuteCidrs.NarrowWordIterator.Next | src/cidr/ipv4_cidr.rs:465-467 | yields the stored word `Swap(4, from + next)`, not the address, and moves on by one; an exhausted iterator yields nothing |
| TransmuteCidrs.NarrowWordIterator.Last | src/cidr/ipv4_cidr.rs:470-472 | yields the stored word of the block's last address |
| TransmuteCidrs.NarrowWordIterator.NthU64 | src/cidr/ipv4_cidr.rs:482-484 | yields the stored word of the address `n` past `next`, or ends the iterator |
| TransmuteCidrs.NarrowWordExample | src/cidr/ipv4_cidr.rs:43-45 | the stored word of `10.0.0.1` is `0x0100000A` |
| TransmuteCidrs.NarrowWordWitness | src/cidr/ipv4_cidr.rs:465-467 | `10.0.0.1/32` iterated as numbers yields `0x0100000A` |
| TransmuteCidrs.WideWordIterator.constructor | src/cidr/ipv6_cidr.rs:637-642 | `iter()` wraps the octet iterator over the whole block, at offset 0 |
| TransmuteCidrs.WideWordIterator.Next | src/cidr/ipv6_cidr.rs:613-615 | yields the stored word `Swap(16, from + next)`, not the address, and moves on by one; an exhausted iterator yields nothing |
| TransmuteCidrs.WideWordIterator.Last | src/cidr/ipv6_cidr.rs:618-620 | panics exactly for `/0`, as the octet iterator does; otherwise yields the stored word of the last address |
| TransmuteCidrs.WideWordIterator.NthU128 | src/cidr/ipv6_cidr.rs:630-632 | yields the stored word of the address `n` past `next`, or ends the iterator, and never panics |
| Cursors.RangeIsBlock | src/cidr/v4/ipv4_cidr_iterators.rs:139-149 | the iterated addresses ascend, start at `first`, end at `last`, and are exactly the members of the block |
| Cursors.Cursor.constructor | src/cidr/v4/ipv4_cidr_iterators.rs:139-149 | `iter_as_u8_array` leaves every address of the block to come |
| Cursors.Cursor.RemainingFits | src/cidr/v4/ipv4_cidr_iterators.rs:18-24 | `from + next as u32` never wraps for an address still to come |
| Cursors.Cursor.Next | src/cidr/v4/ipv4_cidr_iterators.rs:68-74 | takes the front of the remaining addresses, or `None` when none are left |
| Cursors.Cursor.NextBack | src/cidr/v4/ipv4_cidr_iterators.rs:123-129 | takes the back of the remaining addresses, or `None` |
| Cursors.Cursor.Nth | src/cidr/v4/ipv4_cidr_iterators.rs:36-46 | panics exactly when the IPv4 `u64` sum `next + n` overflows; otherwise yields the `n`-th remaining address and drops the ones before it, or ends the cursor |
| Cursors.Cursor.NthSaturating | src/cidr/v4/ipv4_cidr_iterators.rs:36-46 | with a saturating addition, never panics and meets the iterator contract |
| Cursors.NthOverflowWitness | src/cidr/v4/ipv4_cidr_iterators.rs:36-46 | after one `next`, `nth_u64(u64::MAX)` overflows; the saturating version returns `None` |
| Cursors.Cursor.NthBack | src/cidr/v4/ipv4_cidr_iterators.rs:49-61 | yields the `n`-th remaining address from the back and drops the ones after it, or ends the cursor |
| Cursors.Cursor.Last | src/cidr/v4/ipv4_cidr_iterators.rs:105-113 | the last remaining address, or `None` |
| Cursors.Cursor.Count | src/cidr/v4/ipv4_cidr_iterators.rs:94-102 | the number of remaining addresses |
| Cursors.Cursor.SizeHint | src/cidr/v4/ipv4_cidr_iterators.rs:82-86 | underflows exactly when `next > back`; otherwise the number of remaining addresses |
| Cursors.Cursor.SizeHintFixed | src/cidr/v4/ipv4_cidr_iterators.rs:94-102 | with the guard `count` has, always the number of remaining addresses |
| Cursors.SizeHintUnderflowWitness | src/cidr/v4/ipv4_cidr_iterators.rs:82-86 | on a one-address block, `next_back` then `nth(0)` leaves `next > back`, and `size_hint` underflows where the guarded one says 0 |
| AddrIterators.DecodeEncode | src/iterator/v6.rs:276-293 | every item encoding (bytes, segments, number, address) reads back as the address |
| AddrIterators.EncodeInjective | src/iterator/v6.rs:340-357 | distinct addresses give distinct items, so each typed iterator yields the cursor's addresses |
| AddrIterators.EncodingShapes | src/iterator/v4.rs:178-195 | a number item is the address itself, an octet item has 4 or 16 bytes, and an IPv6 address item holds the address's big-endian octets |
| AddrIterators.AddrIterator.constructor | src/iterator/v4.rs:217-224 | a new typed iterator has the whole block to come |
| AddrIterators.AddrIterator.Emit | src/iterator/v6.rs:340-347 | the re-encoding step produces `Encode` of the address |
| AddrIterators.AddrIterator.Next | src/iterator/v4.rs:233-240 | the front item of the remaining items, or `None` |
| AddrIterators.AddrIterator.NextBack | src/iterator/v4.rs:252-257 | the back item, or `None` |
| AddrIterators.AddrIterator.Nth | src/iterator/v4.rs:226-231 | panics exactly as the cursor does; otherwise the `n`-th remaining item, or the end |
| AddrIterators.AddrIterator.NthBack | src/iterator/v4.rs:259-261 | the `n`-th item from the back, or the end |
| AddrIterators.AddrIterator.Last | src/iterator/v4.rs:242-245 | the last remaining item, or `None` |
| BlockLists.Merged | src/utils/v4/ipv4_cidr_combiner.rs:93-94 | `from_prefix_and_bits(prefix, bits - 1)` gives a valid block one bit shorter |
| BlockLists.BuddyMerge | src/utils/v4/ipv4_cidr_combiner.rs:86-94 | buddies are adjacent and equal in size; the merged block starts at the first, ends at the second, and is twice as large |
| BlockLists.MergedCovers | src/utils/v4/ipv4_cidr_combiner.rs:86-94 | the merged block holds exactly the addresses of the two buddies |
| BlockLists.MergeNext | src/utils/v4/ipv4_cidr_combiner.rs:80-101 | merging with the next buddy keeps the list sorted and disjoint, and keeps what it covers |
| BlockLists.MergePrev | src/utils/v4/ipv4_cidr_combiner.rs:103-131 | merging with the previous buddy keeps the list sorted and disjoint, and keeps what it covers |
| BlockLists.NoHolder | src/utils/v4/ipv4_cidr_combiner.rs:52-58 | when the block before the insertion point does not hold `x`'s first address, no listed block holds `x` |
| BlockLists.Absorbed | src/utils/v4/ipv4_cidr_combiner.rs:61-73 | removing the blocks `x` holds and putting `x` in their place leaves a sorted, disjoint list covering the same addresses plus `x` |
| BlockLists.TotalSizeBound | src/utils/v4/ipv4_cidr_combiner.rs:153-161 | the sizes of disjoint sorted blocks sum to at most `2^w`, so the IPv4 `u64` sum cannot overflow |
| BlockLists.NormalUnique | src/utils/v4/ipv4_cidr_combiner.rs:47-138 | two sorted, disjoint, buddy-free lists that cover the same addresses are equal, so the list `push` leaves is the only one its contract allows |
| Combiners.Combiner.constructor | src/utils/v4/ipv4_cidr_combiner.rs:17-29 | `new` and `with_capacity` start empty |
| Combiners.Combiner.FromVec | src/utils/v4/ipv4_cidr_combiner.rs:33-37 | adopts a normal list unchanged |
| Combiners.Combiner.Push | src/utils/v4/ipv4_cidr_combiner.rs:47-138 | the list stays sorted, disjoint and buddy-free; it covers the old addresses plus the block's; a block inside a listed one changes nothing; it panics exactly when the older IPv6 `cmp` is used and a listed block has the block's prefix, leaving the list as it was |
| Combiners.PushInto | src/utils/v4/ipv4_cidr_combiner.rs:47-138 | the same, on the list's value, the panic in both directions included |
| Combiners.CompareBlocks | src/utils/v6/ipv6_cidr_combiner.rs:49 | the comparison `binary_search` calls (the `Ord` impls at src/cidr/ipv4_cidr.rs:152-168 and src/cidr/ipv6_cidr.rs:209-224 in the transmute generation) panics exactly for IPv6 in the older generations on an equal prefix; otherwise it is `Order` |
| Combiners.Bisect | src/utils/v4/ipv4_cidr_combiner.rs:48 | found only at an equal block; otherwise the insertion point, with every block before it lower and every block after it higher; with the older IPv6 `cmp`, the search panics if and only if some block has the same prefix |
| Combiners.HeldCovers | src/utils/v4/ipv4_cidr_combiner.rs:52-58 | a block inside a listed one adds nothing to what the list covers |
| Combiners.Absorb | src/utils/v4/ipv4_cidr_combiner.rs:61-73 | removes exactly the run of blocks from the insertion point that lie inside `x`; the next block does not start inside `x` |
| Combiners.BuddyTest | src/utils/v4/ipv4_cidr_combiner.rs:86-92 | the XOR test returns `Buddies` in every generation, the transmute one included |
| Combiners.Rebuild | src/utils/v4/ipv4_cidr_combiner.rs:93-94 | the rebuilt block is the merged block |
| Combiners.MakeBlock | src/combiner/v4.rs:104-105 | the generation's constructor builds the block with that prefix and length |
| Combiners.MergeNextStep | src/utils/v4/ipv4_cidr_combiner.rs:80-101 | one look forward keeps the list normal and the coverage the same; a merge shortens the length |
| Combiners.MergePrevStep | src/utils/v4/ipv4_cidr_combiner.rs:103-131 | one look backward keeps the list normal and the coverage the same; a merge shortens the length |
| Combiners.MergeRound | src/utils/v4/ipv4_cidr_combiner.rs:75-132 | one turn of the merging loop; with no merge, neither neighbour is a buddy |
| Combiners.MergeBuddies | src/utils/v4/ipv4_cidr_combiner.rs:75-132 | the loop ends with a sorted, disjoint, buddy-free list covering what it covered before |
| Combiners.InsertAt | src/utils/v4/ipv4_cidr_combiner.rs:52-134 | pushing at the insertion point leaves a normal list covering the old addresses plus the block's |
| Combiners.Combiner.Contains | src/utils/v4/ipv4_cidr_combiner.rs:142-150 | true exactly when some listed block holds the address |
| Combiners.Scan | src/utils/v4/ipv4_cidr_combiner.rs:142-150 | the loop answers whether some block holds the address |
| Combiners.Combiner.Size | src/utils/v4/ipv4_cidr_combiner.rs:153-161 | the sum of the sizes, at most `2^w` |
| Combiners.SumSizes | src/utils/v4/ipv4_cidr_combiner.rs:153-161 | the loop sums the sizes without exceeding `2^w` |
| Tilings.Log2 | src/utils/v4/ipv4_cidr_separator.rs:33 | `log2 n` truncated: `2^k <= n < 2^(k+1)` |
| Tilings.Log2OfPow2 | src/utils/v4/ipv4_cidr_separator.rs:33 | the logarithm of `2^k` is `k` |
| Tilings.EvenSplit | src/utils/v4/ipv4_cidr_separator.rs:28-30 | `d * n == size` for a power-of-two size exactly when `n` is a power of two, and then `d = 2^(k - log2 n)` |
| Tilings.QuotientAtPow2 | src/utils/ipv6_cidr_separator.rs:35-39 | `u128::MAX / n + 1` is `2^128 / n` for a power of two `n >= 2` |
| Tilings.Tile | src/utils/v4/ipv4_cidr_separator.rs:119 | the `k`-th sub-block is valid, of length `bits`, inside the block, and starts `k` tile sizes into it |
| Tilings.Tiles | src/utils/v4/ipv4_cidr_separator.rs:105-119 | there are `2^(bits - len)` sub-blocks |
| Tilings.TilesChain | src/utils/v4/ipv4_cidr_separator.rs:117-119 | the sub-blocks ascend, each starting right after the one before |
| Tilings.TilesCover | src/utils/v4/ipv4_cidr_separator.rs:117-119 | together they hold exactly the block's addresses |
| Tilings.TilesOfLen | src/utils/v4/ipv4_cidr_separator.rs:101 | splitting to the block's own length gives the block itself |
| Tilings.StepBy | src/utils/v4/ipv4_cidr_separator.rs:118 | `step_by(d)` keeps every `d`-th item, `ceil(n / d)` of them |
| Separators.SkipWalk | src/utils/v4/ipv4_cidr_separator.rs:121-130 | `next`, then `nth_u64(d - 1)` until exhaustion, hands out exactly what `step_by(d)` does |
| Separators.Walk | src/utils/v4/ipv4_cidr_separator.rs:124-129 | the same walk on a given fresh cursor |
| Separators.Starts | src/utils/v4/ipv4_cidr_separator.rs:115-130 | both branches on `d <= usize::MAX` give the `step_by(d)` addresses |
| Separators.StartsAreTiles | src/utils/v4/ipv4_cidr_separator.rs:117-119 | stepping by a tile's size meets each tile's first address, one per tile |
| Separators.Parts | src/utils/v4/ipv4_cidr_separator.rs:30-44 | the even path makes `n` blocks of length `len + log2 n` |
| Separators.EvenParts | src/utils/v4/ipv4_cidr_separator.rs:30-44 | the parts are of length `len + log2 n` and size `size / n`, sorted, disjoint, and together hold the block |
| Separators.BlockSplit | src/utils/v4/ipv4_cidr_separator.rs:28-30 | the test `d * n == size` holds exactly for a power-of-two `n` |
| Separators.OnePerBlock | src/utils/v4/ipv4_cidr_separator.rs:38-44 | one single-block combiner for each start address |
| Separators.EvenPath | src/utils/v4/ipv4_cidr_separator.rs:30-63 | the even path hands out one combiner per part, in order |
| Separators.HostBlock | src/separator/v6.rs:76 | `new(ip, 128)` is the block holding exactly that address |
| Separators.PushUncovered | src/utils/v4/ipv4_cidr_separator.rs:72 | pushing a block whose first address is not yet covered never panics, and adds its addresses |
| Separators.PushAddress | src/utils/v4/ipv4_cidr_separator.rs:72 | pushing the next address onto a combiner holding a run extends the run by one |
| Separators.RunGrows | src/utils/v4/ipv4_cidr_separator.rs:71-72 | a run from `lo` to `a`, plus the block of `a`, is the run to `a + 1` |
| Separators.TakeOne | src/utils/v4/ipv4_cidr_separator.rs:71-82 | a turn with `i < d` pushes the address and keeps the fill invariant |
| Separators.TakeLast | src/utils/v4/ipv4_cidr_separator.rs:71-79 | a turn with `i == d` completes the combiner and hands it over |
| Separators.HandOver | src/utils/v4/ipv4_cidr_separator.rs:74-79 | the handed-over combiner holds its run of `d` addresses, and a fresh one starts |
| Separators.Route | src/utils/v4/ipv4_cidr_separator.rs:71-83 | routes the next address, if any, to the current or a fresh combiner |
| Separators.FillStep | src/utils/v4/ipv4_cidr_separator.rs:71-83 | one turn of `for ip in iter` on the cursor |
| Separators.Fill | src/utils/v4/ipv4_cidr_separator.rs:65-83 | after the loop, every handed-over combiner holds its run of `d` addresses and the current one holds the rest |
| Separators.Spill | src/utils/v4/ipv4_cidr_separator.rs:85-89 | pushing the leftover blocks onto the last combiner makes it hold the run up to the block's end |
| Separators.MoveOne | src/utils/v4/ipv4_cidr_separator.rs:87-88 | one leftover block moves onto the last combiner |
| Separators.Assemble | src/utils/v4/ipv4_cidr_separator.rs:85-92 | the combiners form a division: runs of `d`, the last taking the rest |
| Separators.BucketCount | src/utils/v4/ipv4_cidr_separator.rs:65-83 | the uneven path hands over `size / d` combiners, or `n` when capped |
| Separators.Buckets | src/utils/v4/ipv4_cidr_separator.rs:64-90 | the uneven path divides the block into `size / d` runs of `d` addresses, the last one longer |
| Separators.WideStep | src/utils/ipv6_cidr_separator.rs:35-39 | the `(u128, bool)` step of either path is the true quotient `size / n` |
| Separators.WideQuotient | src/utils/ipv6_cidr_separator.rs:69-73 | `(2^k - 1) / n + 1` or `(2^k - 1) / n` equals `2^k / n`, depending on whether `n` is a power of two |
| Separators.Refuses | src/utils/ipv6_cidr_separator.rs:14 | the refusal test means `n == 0 || n > size`, the `(u128, bool)` size included |
| Separators.EvenTest | src/utils/v6/ipv6_cidr_separator.rs:30-34 | the even path is taken exactly when `n` is a power of two: the `d * n == size` test means that, and for the older IPv6 separators the exact test stands in for the `f64` logarithm test (see Left out) |
| Separators.PartCountBounds | src/utils/v4/ipv4_cidr_separator.rs:28 | the as-written count `size / (size / n)` is never below `n` |
| Separators.EvenCount | src/utils/v4/ipv4_cidr_separator.rs:30 | it is exactly `n` when `n` is a power of two |
| Separators.EvenDivided | src/utils/v4/ipv4_cidr_separator.rs:30-44 | the even parts, one per combiner, form a division into runs of `size / n` |
| Separators.EvenProduct | src/utils/v4/ipv4_cidr_separator.rs:30 | `n` steps of `size / n` make up the block |
| Separators.Divide | src/utils/v4/ipv4_cidr_separator.rs:11-93 | `None` exactly for `n == 0` or `n > size`; otherwise a division of the block, with `n` combiners when capped |
| Separators.Split | src/utils/v4/ipv4_cidr_separator.rs:26-92 | the even or the uneven path, once `n` is accepted |
| Separators.Whole | src/utils/v4/ipv4_cidr_separator.rs:18-24 | `n == 1` gives one combiner holding the block |
| Separators.OneWhole | src/utils/v4/ipv4_cidr_separator.rs:18-24 | one combiner holding the block is its division into one part |
| Separators.EvenCase | src/utils/v4/ipv4_cidr_separator.rs:30-63 | a power of two gives the `n` parts |
| Separators.UnevenCase | src/utils/v4/ipv4_cidr_separator.rs:64-90 | any other `n` gives the uneven division, as written or capped |
| Separators.DivideBy | src/utils/v4/ipv4_cidr_separator.rs:11-93 | as written: refused exactly for `n == 0` or `n > size`; otherwise `size / (size / n)` combiners holding consecutive runs of `size / n` addresses, the last one taking the rest |
| Separators.DivideByExactly | src/utils/v4/ipv4_cidr_separator.rs:11-93 | as documented: exactly `n` combiners, the first `n - 1` holding `size / n` addresses each |
| Separators.TooManyParts | src/utils/v4/ipv4_cidr_separator.rs:64-90 | a `/24` divided by 100 gives 128 combiners |
| Separators.SubStep | src/utils/v4/ipv4_cidr_separator.rs:111 | `size / 2^(bits - len)` is a tile's size within the width, and 0 past it |
| Separators.SubStepOf | src/utils/ipv6_cidr_separator.rs:123-127 | the step computed from the `(u128, bool)` size is the same |
| Separators.SplitCount | src/utils/v4/ipv4_cidr_separator.rs:105 | `2^(bits - len)` is a power of two between 2 and the size |
| Separators.TileSize | src/utils/v4/ipv4_cidr_separator.rs:111 | a tile is between 1 address and the block's size |
| Separators.Carve | src/utils/v4/ipv4_cidr_separator.rs:118-119 | building a block at each start gives the tiles |
| Separators.Tiling | src/utils/v4/ipv4_cidr_separator.rs:113-131 | the `step_by(d)` loop gives the tiles |
| Separators.SubNetworks | src/utils/v4/ipv4_cidr_separator.rs:96-134 | refused exactly below the block's length; the block itself at its length; `2usize.pow` panics exactly for a difference of 64 or more; `step_by(0)` panics exactly past the width; otherwise the tiles of length `bits` |
| Separators.SubNetworksChecked | src/utils/v4/ipv4_cidr_separator.rs:96-134 | with `bits` bounded by the width: refused below the block's length or past the width, never a zero step, the `2usize.pow` panic only within the width, and the tiles otherwise |
| Separators.SubNetworksPastWidth | src/utils/v4/ipv4_cidr_separator.rs:105-118 | an IPv4 block split to length 33: the code panics, the checked version refuses |
| IpCidrs.FromStr | src/cidr/ip_cidr.rs:20-48 | IPv4 first; an IPv4 error other than a bad string is reported; otherwise the IPv6 result with its error mapped |
| IpCidrs.FromFamilyError | src/cidr/ip_cidr_error.rs:14-26 | each family error maps to the error of the same name; it is built as `FromOrdinal(Ordinal(e))`, where `IpCidrs.Ordinal` is the derived `ordinal()` and `IpCidrs.FromOrdinal` is `from_ordinal_unsafe` (lines 17 and 24) |
| IpCidrs.FromFamilyErrorBijective | src/cidr/ip_cidr_error.rs:14-26 | the ordinal mapping is one-to-one and onto |
| IpCidrs.AddrOf | src/iterator/v6.rs:344-346 | the address built from a number reads back as that number |
| IpCidrs.AddrOfInjective | src/iterator/v6.rs:344-346 | distinct numbers give distinct addresses |
| IpCidrs.FirstAddr | src/cidr/ip_cidr.rs:67-73 | the block's first address, in its family |
| IpCidrs.LastAddr | src/cidr/ip_cidr.rs:75-81 | the block's last address, in its family |
| IpCidrs.IpSize | src/cidr/ip_cidr.rs:83-89 | `2^(w - len)` of the block's family, between 1 and `2^w` |
| IpCidrs.IpContains | src/cidr/ip_cidr.rs:93-109 | false across families; otherwise the block's `contains` |
| IpCidrs.AddrInBlock | src/cidr/ip_cidr.rs:93-109 | every iterated address is contained in the block |
| IpCidrs.EqFamily | src/cidr/ip_cidr.rs:122-130 | `IpCidr == Ipv4Cidr` holds exactly for the same family and block |
| IpCidrs.FamilyEq | src/cidr/ip_cidr.rs:132-140 | `Ipv4Cidr == IpCidr` likewise |
| IpCidrs.MixedEqSymmetric | src/cidr/ip_cidr.rs:122-180 | the mixed equalities agree in both directions |
| IpCidrs.IpOrder | src/cidr/ip_cidr.rs:12-16 | the derived order: every IPv4 block before every IPv6 block, then the family order |
| IpCidrs.IpOrderIsTotal | src/cidr/ip_cidr.rs:12-16 | the order is antisymmetric and transitive |
| IpCidrs.CmpIp | src/cidr/ip_cidr.rs:12-16 | panics exactly on two IPv6 blocks with equal prefixes; otherwise returns `IpOrder` |
| IpCidrs.CmpIpWith | src/cidr/ip_cidr.rs:142-150 | `IpCidr` against a family block panics exactly when both are IPv6 with equal prefixes; otherwise agrees with `IpOrder` of the lifted block |
| IpCidrs.CmpWithIp | src/cidr/ip_cidr.rs:152-160 | a family block against `IpCidr` panics exactly when both are IPv6 with equal prefixes; otherwise agrees with `IpOrder` |
| IpCidrs.IpAddrIterator.constructor | src/cidr/ip_cidr_iterators.rs:66-75 | the iterator has the whole block to come |
| IpCidrs.Iter | src/cidr/ip_cidr_iterators.rs:78-80 | `iter` is that iterator |
| IpCidrs.IpAddrIterator.ItemsAreAddresses | src/cidr/ip_cidr_iterators.rs:22-27 | item `i` is the `i`-th remaining address, wrapped in its family |
| IpCidrs.IpAddrIterator.Next | src/cidr/ip_cidr_iterators.rs:22-27 | the front address, or `None` |
| IpCidrs.IpAddrIterator.Last | src/cidr/ip_cidr_iterators.rs:30-35 | the last address, or `None` |
| IpCidrs.IpAddrIterator.Nth | src/cidr/ip_cidr_iterators.rs:38-43 | the IPv4 counter panic, or the `n`-th address, or the end |
| IpCidrs.IpAddrIterator.NextBack | src/cidr/ip_cidr_iterators.rs:48-53 | the back address, or `None` |
| IpCidrs.IpAddrIterator.NthBack | src/cidr/ip_cidr_iterators.rs:56-61 | the `n`-th address from the back, or the end |
| IpCidrs.IpCombiner.constructor | src/utils/ip_cidr_combiner.rs:18-23 | two empty combiners |
| IpCidrs.IpCombiner.FromVecs | src/utils/ip_cidr_combiner.rs:36-44 | adopts the two normal lists |
| IpCidrs.IpCombiner.Push | src/utils/ip_cidr_combiner.rs:71-80 | pushes onto the block's family only, with that combiner's contract: it panics if and only if the block is IPv6, the generation is an older one and a listed block has its prefix; a block inside a listed one changes nothing; onto an empty list it gives `[x]`; otherwise the list covers the old addresses plus the block's |
| IpCidrs.NewestPushV6 | src/utils/ip_cidr_combiner.rs:71-80 | an IPv6 push in the newest generation never panics, and onto an empty combiner it gives the one-block list |
| IpCidrs.IpCombiner.Contains | src/utils/ip_cidr_combiner.rs:84-103 | true exactly when the address's family list covers it |
| IpCidrs.IpCombiner.Ipv4Size | src/utils/ip_cidr_combiner.rs:106-108 | the IPv4 total, at most 2^32 |
| IpCidrs.IpCombiner.Ipv6Size | src/utils/ip_cidr_combiner.rs:111-113 | the IPv6 total, at most 2^128 |
| IpCidrs.PartsNormal | src/utils/ip_cidr_separator.rs:16-21 | every combiner of a division holds a normal list, so the unchecked constructor's assumption holds |
| IpCidrs.Rewrap | src/utils/ip_cidr_separator.rs:14-33 | each family combiner becomes an IP combiner with the same list and an empty other family |
| IpCidrs.DivideIp | src/utils/ip_cidr_separator.rs:12-35 | refused exactly as the family `divide_by`; otherwise the family division, rewrapped |
| IpCidrs.SubNetworksIp | src/utils/ip_cidr_separator.rs:38-45 | the family `sub_networks`, each tile wrapped in its family, with the same refusals and panics |

## Left out

- Parsing and formatting are not modelled. This covers `from_str` of the family types, the
  regular expressions, and `Display`/`Debug`. `IpCidrs.FromStr` takes the two family parse
  results as parameters.
- Separators.EvenTest: the older IPv6 separators (src/utils/v6/ipv6_cidr_separator.rs:30-34
  and src/utils/ipv6_cidr_separator.rs:24-31) test `(log2_n - log2_n.floor()).abs() < 2.0 * EPSILON`
  on `(n as f64).log2()` and take `log2_n as u8` as the length step. The model replaces these
  with the exact test "`n` is a power of two" and the integer logarithm. The two tests agree on
  every power of two, but not on every `n`: for some `n` above 2^48 that are not powers of two,
  such as 2^49 + 1, 2^50 + 1 and 2^52 + 1, the `f64` logarithm rounds to a whole number. For
  `::/64` divided by 2^49 + 1 the source then takes the even path with a step of `size / n`
  and parts that overlap; the model takes the uneven path there and does not capture that
  behaviour. Separators.WideStep requires `even <==> IsPow2(n)`, so it excludes the same
  inputs.
- The transmute generation assumes a little-endian host. The model stores words byte-swapped
  (`Layout.Swap`) and does not model a big-endian host.
- `usize` is taken to be 64 bits wide, so `n < 2^64` and `d <= usize::MAX` are compared
  against `2^64`. The 8-, 16- and 32-bit `cfg` variants of `size_hint` and `count` are left
  out.
- The external `cidr` crate of the newest generation is not part of this model. Its block
  type is the same canonical value, and its `new` is `Cidrs.StrictNew`.
- `BigUint` is an unbounded natural. Its allocation is not modelled.
- A `Vec` is a sequence value. Capacity, reallocation and aliasing are not modelled, and
  neither is `unsafe` `from_*_vec_unchecked` on a list that breaks its invariant: the model
  requires a normal list.
- `Deref`, `Default`, `into_*_vec`, the `get_*_as_*` accessors and the `first_as_*` /
  `last_as_*` conversions are thin views. Their content is covered by `Able`, `Segments` and
  `AddrIterators.Encode`, and they have no members of their own.
- The typed iterators of the module and newest generations that wrap another iterator
  (`Ipv4CidrIterator`, `Ipv6CidrIterator`, `*AddrIterator`) are one class,
  `AddrIterators.AddrIterator`, with the encoding as a field. In the transmute generation the
  number iterators `Ipv4CidrIterator` and `Ipv6CidrIterator` yield stored words, not addresses,
  and are `TransmuteCidrs.NarrowWordIterator` and `TransmuteCidrs.WideWordIterator`. The
  transmute address iterators `Ipv4CidrIpv4AddrIterator` and `Ipv6CidrIpv6AddrIterator`
  (src/cidr/ipv4_cidr.rs:502-541, src/cidr/ipv6_cidr.rs:646-689) are covered through
  `TransmuteCidrs.NarrowIterator`, `TransmuteCidrs.WideIterator` and `AddrIterators.Encode`.
- Panics are modelled as they happen in a debug build, where arithmetic overflow panics. A
  release build would wrap instead, and that is not modelled.
- Separators.Buckets: the uneven path is proved for the cursor's own addresses, pushed one
  block at a time. It does not state the order in which the combiner's internal list
  changes during the pushes.

## Findings

| source | as written | input that shows it | evidently intended | confidence | as-written member | corrected member |
|---|---|---|---|---|---|---|
| src/cidr/v6/ipv6_cidr.rs:256 | `for i in 0..16` indexes a `[u16; 8]` (the same loop is in the transmute generation at src/cidr/ipv6_cidr.rs:215) | two IPv6 blocks with the same prefix, such as `::/0` and `::/1`: index 8 is out of bounds | loop over the eight segments, then compare lengths | high (not executed) | Compare.CmpV6, Compare.CmpV6PanicWitness | Compare.CmpV6Fixed |
| src/cidr/v4/ipv4_cidr_iterators.rs:83 | `size_hint` computes `back - next` with no guard | `10.0.0.1/32`: `next_back()`, then `nth(0)` sets `next = size = 1 > back = 0`; a debug build panics, a release build wraps and returns a hint near `u64::MAX` | return 0 when `next >= back`, as `count` does | high (not executed) | Cursors.Cursor.SizeHint, Cursors.SizeHintUnderflowWitness | Cursors.Cursor.SizeHintFixed |
| src/cidr/v4/ipv4_cidr_iterators.rs:37 | `self.next += n` on `u64` | any IPv4 block: `next()`, then `nth_u64(u64::MAX)`; a debug build panics, a release build wraps `next` to 0 and yields the first address again | saturate, and return `None` past the end | medium (not executed) | Cursors.Cursor.Nth, Cursors.NthOverflowWitness | Cursors.Cursor.NthSaturating |
| src/utils/v4/ipv4_cidr_separator.rs:64-90 | the uneven path hands over one combiner per `d = size / n` addresses | `10.0.0.0/24` divided by 100: `d = 2`, so 128 combiners | exactly `n` combiners, the last taking the rest | high (not executed) | Separators.DivideBy, Separators.TooManyParts | Separators.DivideByExactly |
| src/utils/v4/ipv4_cidr_separator.rs:105-118 | `bits` is not bounded by the width | `10.0.0.0/24` with `bits = 33`: `d = 256 / 512 = 0`, and `step_by(0)` panics | `None` for `bits > 32` | high (not executed) | Separators.SubNetworks, Separators.SubNetworksPastWidth | Separators.SubNetworksChecked |
| src/cidr/ipv6_cidr.rs:460 | `last` computes `self.size.0 - 1` | `::/0`, whose size is `(0, true)`: in a debug build the subtraction underflows and panics; a release build wraps to `u128::MAX`, and the following `next()` then yields `ffff:...:ffff`, the intended answer | the last address `ffff:...:ffff`, in every build | low: a debug-build panic only (not executed) | TransmuteCidrs.WideIterator.Last, TransmuteCidrs.LastPanicWitness | TransmuteCidrs.WideIterator.LastChecked |
| src/cidr/ipv6_cidr.rs:564-580 | the segment iterator's `nth_u128` adds `min(n, size - next)` to `next.0` | `::/0`: `next()`, then `nth_u128((u128::MAX, false))` makes `next.0` reach 2^128; a debug build panics, a release build wraps `next` to `(0, false)` and restarts the iteration | end the iterator, as the octet iterator's `nth_u128` does | medium (not executed) | TransmuteCidrs.WideIterator.NthSegments, TransmuteCidrs.NthSegmentsPanicWitness | TransmuteCidrs.WideIterator.NthOctets |
