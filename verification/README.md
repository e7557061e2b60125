# Kloak's data plane, in Dafny

Kloak lets an application hold a placeholder instead of a secret and swaps the placeholder for the secret inside
the TLS record that is already encrypted. This project models the parts where that has to be exactly right and
proves what they promise.

- **The record patch.** GF(2^128) as GHASH uses it (`gf128.dfy`), the byte loops of the Go and the C code refined to
  it (`gf128_bytes.dfy`), powers, GHASH and its delta form (`gf128_powers.dfy`), the recovered subkey
  (`gf128_halve.dfy`), the in-place patch of a record with its repaired tag (`record_patch.dfy`, `deferred_tag.dfy`)
  and when it leaves the record right (`record_fit.dfy`), what the receiver decrypts (`substitution.dfy`), the chunked
  scan that finds placeholders and stages patches (`placeholder_scan.dfy`), and all of it in a row (`redemption.dfy`).
  AES is an arbitrary keystream and an arbitrary tag mask.
- **Virtual IPs.** The search for a free fake IP (`virtual_ip.dfy`), the planner as a specification, its properties over
  runs and in its inputs' own terms, and the imperative planner (`virtual_ip_plan.dfy`, `virtual_ip_plan_properties.dfy`,
  `virtual_ip_plan_meaning.dfy`, `virtual_ip_planner.dfy`), the recorded real addresses (`vip_upstream.dfy`), and the sync that edits the three shared
  maps one operation at a time while DNS answers are handled in between (`virtual_ip_sync.dfy`,
  `virtual_ip_allocator.dfy`).
- **Sockets.** What the connect, send and close hooks remember about a socket, and the filter of the staged patches
  (`socket_secrets.dfy`): every run of hooks and evictions, against the history it came from.
- **Parsers.** The ClientHello walk against a printer of ClientHellos (`sni_parser.dfy`); the DNS question and answer
  walks against a printer of messages, the rewrite in place and its checksum (`dns_wire.dfy`, `dns_walk.dfy`,
  `dns_rewrite.dfy`, `dns_checksum.dfy`, `dns_program.dfy`).
- **Shadows and grants.** HPACK's Huffman code (`huffman.dfy`), minting shadows and their keys (`shadow.dfy`), the
  reconcile loop over runs (`shadow_reconciler.dfy`), the secret map (`secret_map.dfy`), what bindings grant
  (`grants.dfy`) and how the maps edited by bind, rebind, unbind and sync agree with it (`grants_manager.dfy`).
- **Attaching.** The reservation protocol that attaches the tc program once per network namespace (`tc_attach.dfy`).

`option.dfy`, `arithmetic.dfy` and `wire.dfy` are shared by these.

Code that changes things in place is a class or a method over an array, proved against a function of the old state;
interleavings are state machines over atomic steps. In `virtual_ip_sync.dfy` each recorded address carries the host
of the DNS answer it came from, and in `tc_attach.dfy` a record is kept of what each call did; neither is in the
program. Times are integer seconds, and the FNV hash, the random draws, the clock and the outcome of system calls are
arbitrary.

What the proofs make precise:

- A record survives its patches, for all secrets and subkeys, if and only if each applied patch ends inside the
  ciphertext and the first 2^14 bytes (`RecordFit.FitsExactly`). The program checks the record's length against the
  secret's length alone, and its block index keeps ten bits: a placeholder far into a write longer than one record is
  XORed into the record behind it (`RecordFit.NextRecordHit`).
- Secrets come out right if and only if patches agree where they overlap (`Substitution.SubstitutedExactly`), whatever
  the secrets if and only if no two overlap (`Substitution.DisjointExactly`); overlapping patches can be staged
  (`Redemption.StagedOverlap`).
- A write is scanned whole if and only if it is at most 2,088,763,392 bytes long (`PlaceholderScan.ScanIsWhole`). A
  longer one is not scanned at all, since bpf_loop refuses the iterations or, for the last 248 lengths below 2^32, their
  count wraps to none. From 2^32 on the Go hook takes the length modulo 2^32, and at most that much is scanned.
- A staged patch carries its secret if and only if 128 bytes are mapped at its placeholder, however short the secret
  (`PlaceholderScan.StagedCarries`): the program reads them all and does not look at the result. A failed read is taken
  to leave the buffer cleared, as the kernel's helper does.
- A tag split over two segments is not repaired, nor in general one in a segment whose sequence numbers wrap
  (`DeferredTag.RecognisedExactly`, `DeferredTag.WrappedExactly`).
- `secret_acl` can fall short of what the bindings grant only by unbinding a pod in whose cgroups another pod is
  granted something (`GrantsManager.UnbindKeepsExact`), until the next sync; a run that gets there is
  `GrantsManager.UnbindCanFallShort`. A change of mode leaves `vip_pod_host` exact if and only if no bound pod has an
  address (`GrantsManager.SetModeKeepsHosts`, with a run in `GrantsManager.ModeChangeCanDiffer`).
- Two calls attach to one network namespace only if it was released between their reservations
  (`TcAttach.AttachedOnce`).

## Model

| member | source | states |
|---|---|---|
| `GF128.MulComm` | pkg/ebpf/gf128.go:10-36 | The product on 128-bit elements is commutative (section 6.3 of NIST SP 800-38D) |
| `GF128.MulAssoc` | pkg/ebpf/gf128.go:10-36 | It is associative, proved from the one-bit step alone: a map that is additive and commutes with the step is fixed by its value at 1 |
| `GF128.MulAddRight` | pkg/ebpf/gf128.go:10-36 | It distributes over XOR in its right operand |
| `GF128.MulAddLeft` | pkg/ebpf/gf128.go:10-36 | It distributes over XOR in its left operand |
| `GF128.MulOne` | pkg/ebpf/gf128.go:86-88 | The block 0x80 0 ... 0 is its identity, on the left |
| `GF128.MulOneRight` | pkg/ebpf/gf128.go:86-88 | The block 0x80 0 ... 0 is its identity, on the right |
| `GF128.MulXIsMul` | pkg/ebpf/bpf/helpers.h:151-158 | The one-bit step is the product by the element x |
| `GF128.MonomialIsPow` | pkg/ebpf/bpf/helpers.h:124-130 | The bit positions are the powers of x |
| `GF128.ReductionPolynomial` | pkg/ebpf/bpf/helpers.h:124-130 | x times x^127 is 1 + x + x^2 + x^7: the reduction polynomial the code documents |
| `GF128.PowAdd` | pkg/ebpf/bpf/helpers.h:173-194 | H^(m+n) = H^m H^n |
| `GF128.PowMul` | pkg/ebpf/bpf/helpers.h:173-194 | H^(m n) = (H^m)^n |
| `GF128Bytes.GF128Mul` | pkg/ebpf/gf128.go:13-36 | The Go loop on 16 bytes computes the product of the elements, for every two blocks |
| `GF128Bytes.GF128MulStep` | pkg/ebpf/bpf/helpers.h:144-159 | One masked step adds v to z when the bit is set and multiplies v by x, in place on both arrays |
| `GF128Bytes.GF128MulMasked` | pkg/ebpf/bpf/helpers.h:162-171 | 128 masked C steps compute the same product as the Go loop |
| `GF128Bytes.ShiftIsMulX` | pkg/ebpf/gf128.go:24-33 | Bytes shifted right by one bit with the carry folded in as 0xe1 are the element times x |
| `GF128Bytes.ToElemXor` | pkg/ebpf/gf128.go:57-60 | XOR of blocks is addition of elements |
| `GF128Powers.GF128HPower` | pkg/ebpf/gf128.go:85-99 | Square and multiply gives H^p for every exponent p |
| `GF128Powers.GF128HPower11` | pkg/ebpf/bpf/helpers.h:175-194 | The 11-step loop gives H^(p mod 2048), hence H^p for every p below 2048 |
| `GF128Powers.ComputeHPowerTable` | pkg/ebpf/gf128.go:42-49 | Entry i of the table is H^(2^i), i = 0..10 |
| `GF128Powers.GF128HPowerTable` | pkg/ebpf/bpf/tls_uprobe.c:1841-1874 | One product per set bit of p with the table's entries gives H^(p mod 2048) |
| `GF128Powers.GHASHCompute` | pkg/ebpf/gf128.go:54-64 | The loop over the blocks computes GHASH (section 6.4 of NIST SP 800-38D) |
| `GF128Powers.GhashAdd` | pkg/ebpf/gf128.go:66-69 | GHASH is linear: of XORed inputs it is the XOR of the GHASHes |
| `GF128Powers.GhashSingle` | pkg/ebpf/gf128.go:70-81 | GHASH of one changed block is that block times H^(n+1-i) |
| `GF128Powers.GhashDeltaInsert` | pkg/ebpf/gf128.go:70-81 | One more changed block adds its product, whatever the others are |
| `GF128Powers.GHASHIncrementalDelta` | pkg/ebpf/gf128.go:70-82 | Visiting the changed blocks in any order, the sum is the GHASH of the XOR delta, for any number of blocks |
| `GF128Powers.IncrementalDelta` | pkg/ebpf/gf128.go:66-69 | GHASH(new) = GHASH(old) XOR the delta's GHASH, whatever the additional data and the length block |
| `GF128Halve.HalveUndoesDouble` | pkg/ebpf/bpf/helpers.h:269-290 | Halving the two words undoes the doubling the libraries store, for every subkey |
| `GF128Halve.HalveIsMulX` | pkg/ebpf/bpf/helpers.h:282-295 | Halving is the product by x on the block |
| `GF128Halve.GF128HalveToH` | pkg/ebpf/bpf/helpers.h:282-295 | The block written is the subkey whose doubled form was read |
| `RecordPatch.GhashBlockDelta` | pkg/ebpf/bpf/helpers.h:313-325 | The branch-free block delta holds, at each byte, the patch's delta where the patch covers it and 0 elsewhere, with 64-bit wrap-around and the 10-bit block mask as in the code |
| `RecordPatch.GhashPatchIter` | pkg/ebpf/bpf/tls_uprobe.c:1877-1949 | For a patch anywhere: the at most nine blocks it touches below the end of the ciphertext add to the tag delta the GHASH of the patch's bytes in the ciphertext's blocks, those from 2^14 on left out; records up to the legal maximum |
| `RecordPatch.GhashTagDelta` | pkg/ebpf/bpf/tls_uprobe.c:3281-3311 | The loop over the staged patches, wherever they lie, yields the GHASH of all the bytes it sees, overlaps included |
| `RecordPatch.TcEgressPatch` | pkg/ebpf/bpf/tls_uprobe.c:3210-3242 | In place on the segment: every patch the record and the segment can hold is XORed in, the others get length 0, and nothing else changes |
| `RecordPatch.TcPatchRecord` | pkg/ebpf/bpf/tls_uprobe.c:3210-3345 | For patches anywhere, every subkey, additional data and tag mask: the applied patches are XORed into the record, and it verifies with nothing changed outside its ciphertext and tag if and only if the patches fit it; those inside the ciphertext and the first 2^14 bytes do |
| `RecordPatch.SeenIsDeltaAndStray` | pkg/ebpf/bpf/tls_uprobe.c:3281-3311 | What the tag program computes is the GHASH of the changed ciphertext XOR that of the bytes seen past its end or not seen from 2^14 on |
| `RecordFit.FitsExactly` | pkg/ebpf/bpf/tls_uprobe.c:3220-3225 | Patches at given places leave the record right for all deltas and all subkeys if and only if each applied one ends inside the ciphertext and the first 2^14 bytes |
| `RecordFit.SettledInside` | pkg/ebpf/bpf/tls_uprobe.c:3222-3233 | Whether an applied patch ends inside, told before the call from its place and the lengths of record and segment: the test on the record's length alone leaves the segment's end as the only other bound |
| `RecordFit.GivenPatchesFitExactly` | pkg/ebpf/bpf/tls_uprobe.c:3281-3323 | Given patches leave a record of at most 2^14 + 16 bytes of ciphertext right for every subkey if and only if they change no byte past the ciphertext or from 2^14 on |
| `RecordFit.Overrun` | pkg/ebpf/bpf/tls_uprobe.c:3220-3225 | For every place that ends outside there are a delta and a subkey for which the record breaks |
| `RecordFit.NextRecordHit` | pkg/ebpf/bpf/tls_uprobe.c:3171-3177 | A placeholder at byte 20000 of a write longer than one record is XORed into the record after it, for every subkey |
| `RecordFit.TagHit` | pkg/ebpf/bpf/tls_uprobe.c:3220-3231 | A placeholder that straddles the end of the ciphertext is XORed into the tag, which then fails |
| `DeferredTag.TcDeferredTag` | pkg/ebpf/bpf/tls_uprobe.c:3034-3055 | A later segment recognised to hold the tag has its 16 bytes repaired in place and the entry deleted; nothing else changes |
| `DeferredTag.RecognisedExactly` | pkg/ebpf/bpf/tls_uprobe.c:3036-3039 | While sequence numbers do not wrap, a segment is recognised if and only if it holds the whole tag; a tag split over two is never repaired |
| `DeferredTag.WrappedExactly` | pkg/ebpf/bpf/tls_uprobe.c:3036-3039 | In a segment whose sequence numbers wrap, a tag it holds is recognised if and only if the tag's own numbers wrap |
| `RecordPatch.TagRepaired` | pkg/ebpf/gf128.go:66-69 | The old tag XOR the delta is the GCM tag of the patched ciphertext (section 7.1 of NIST SP 800-38D) |
| `Substitution.DecryptCommutes` | pkg/ebpf/bpf/tls_uprobe.c:3236-3239 | Decrypting the patched ciphertext is patching the plaintext, for every keystream |
| `Substitution.PatchesSubstitute` | pkg/ebpf/bpf/tls_uprobe.c:3210-3242 | Disjoint patches turn the plaintext into the plaintext with exactly their placeholders replaced |
| `Substitution.SubstitutedExactly` | pkg/ebpf/bpf/tls_uprobe.c:3210-3242 | Any number of patches replace exactly their placeholders by their secrets if and only if at every byte covered twice or more the secrets agree and, under an even number of patches, agree with the byte that was there |
| `Substitution.DisjointExactly` | pkg/ebpf/bpf/tls_uprobe.c:3210-3242 | By their places alone: patches replace their placeholders whatever secrets they carry if and only if no two overlap |
| `Substitution.OverlapGarbles` | pkg/ebpf/bpf/tls_uprobe.c:3210-3242 | Two patches over a byte whose secret differs from what was there do not both come out |
| `Substitution.RewrittenRecord` | pkg/ebpf/bpf/tls_uprobe.c:3210-3242 | What the receiver decrypts, with any keystream, is the plaintext with every placeholder replaced if and only if the patches agree where they overlap; always, if they are disjoint |
| `RecordPatch.SegmentPatched` | pkg/ebpf/bpf/tls_uprobe.c:3210-3242 | Patching the segment patches the record's ciphertext and tag bytes, wherever the segment ends, and nothing else of it |
| `PlaceholderScan.Prescan` | pkg/ebpf/bpf/tls_uprobe.c:2697-2718 | The chunked scan finds exactly the first four matches of a flat scan of the write's length modulo 2^32, if that is at most 8388608 * 249, and nothing otherwise: bpf_loop refuses more iterations, and the count wraps to none just below 2^32 |
| `PlaceholderScan.ScanFinds` | pkg/ebpf/bpf/tls_uprobe.c:1373-1381 | Of a write of at most 2088763392 bytes the scan finds the first four places, in order, that have kl:: or the first three bytes of its HPACK code, and 8 bytes in all |
| `PlaceholderScan.ScanIsWhole` | pkg/ebpf/bpf/tls_uprobe.c:2824-2831 | Every write of a length is scanned for its first four placeholders if and only if the length is at most 8388608 * 249 = 2088763392 |
| `PlaceholderScan.Missed` | pkg/ebpf/bpf/tls_uprobe.c:2824-2831 | For every longer length, a write whose only placeholder, the last 8 bytes, is not found |
| `PlaceholderScan.PrescanChunk` | pkg/ebpf/bpf/tls_uprobe.c:1346-1387 | After chunk i the matches are those of a flat scan up to the end of the chunk's stride; it stops early only when nothing more can be found |
| `PlaceholderScan.FlatScanSound` | pkg/ebpf/bpf/tls_uprobe.c:1373-1381 | Every match is a placeholder position with its 8-byte key |
| `PlaceholderScan.FlatScanOrdered` | pkg/ebpf/bpf/tls_uprobe.c:1373-1381 | Positions increase, so none is listed twice |
| `PlaceholderScan.FlatScanComplete` | pkg/ebpf/bpf/tls_uprobe.c:1373-1381 | No position is missed |
| `PlaceholderScan.MoreMatches` | pkg/ebpf/bpf/tls_uprobe.c:1358-1359 | Once four are found, scanning on changes nothing |
| `PlaceholderScan.ChunksCover` | pkg/ebpf/bpf/tls_uprobe.c:2717-2718 | Up to 8388608 * 249 bytes the chunk count is one bpf_loop takes and covers the write; beyond, it is more than BPF_MAX_LOOPS or wraps to 0 |
| `PlaceholderScan.XorPath` | pkg/ebpf/bpf/tls_uprobe.c:1639-1766 | For any matches in any mapped memory: a patch is staged at a place for a key if and only if they match, the key names a secret of 1 to 128 bytes and is allowed; in order, with the XOR delta of the 128 bytes read, or of what a failed read leaves |
| `PlaceholderScan.RedeemedExactly` | pkg/ebpf/bpf/tls_uprobe.c:1698-1704 | Redeemed are exactly the matches whose key names a secret of 1 to 128 bytes and is allowed |
| `PlaceholderScan.StagedCarries` | pkg/ebpf/bpf/tls_uprobe.c:1716-1738 | A staged patch that ends inside the write carries its secret if and only if all 128 bytes at its placeholder are mapped, however short the secret |
| `Redemption.RedeemWrite` | pkg/ebpf/bpf/tls_uprobe.c:1639-1766 | Scan, staging and record patch in a row: patched are exactly the first four placeholders whose key names a secret of 1 to 128 bytes and is allowed, and with none allowed the segment is untouched; if they are mapped and end inside a write of at most 2^14 bytes, the record verifies, nothing outside its ciphertext and tag changed, and it decrypts, byte for byte, to the plaintext with the secrets in place if and only if they agree where they overlap; always, if they are disjoint |
| `Redemption.OnlyGrantedIsRedeemed` | pkg/ebpf/bpf/tls_uprobe.c:281-296 | Every place a write is patched at holds a key that some binding with the process's cgroup grants |
| `Redemption.HostSecretStaysWithItsHost` | pkg/ebpf/bpf/tls_uprobe.c:2238-2251 | After a sync, in enforce mode, a secret with a host of 1 to 63 bytes leaves only on a socket that last connected to a fake IP of that host, was sent to an address of it and named it in its ClientHello |
| `Redemption.StagedOverlap` | pkg/ebpf/bpf/tls_uprobe.c:1373-1387 | Two placeholders back to back are both found and staged, and with a first secret longer than its key what comes out is not both secrets |
| `Redemption.StandsForItsSecret` | pkg/ebpf/bpf/tls_uprobe.c:1698-1733 | After a sync, the raw form of a minted secret of up to 128 bytes is replaced by exactly its value and the Huffman form by exactly its encoding, each as long as the form it replaces |
| `FreeVirtualIP.FreeVirtualIP4` | pkg/ebpf/virtual_ip.go:474-495 | The probing loop returns the cyclically first free usable address from the hash |
| `FreeVirtualIP.FreeVirtualIP6` | pkg/ebpf/virtual_ip.go:501-530 | So does the IPv6 loop with three more probes than addresses taken, on offsets that wrap at 64 bits |
| `FreeVirtualIP.FirstFreeExact` | pkg/ebpf/virtual_ip.go:478-493 | The result is the first free probe, and none only if no probe is free |
| `FreeVirtualIP.FreeIPExactly` | pkg/ebpf/virtual_ip.go:474-530 | The address returned is the first, from the hash modulo the size of the range on and around, that is not taken, not the first or last, and in IPv4 does not end in .0 or .255 |
| `FreeVirtualIP.FreeIPFresh` | pkg/ebpf/virtual_ip.go:474-530 | A returned address is in the range, usable and not taken |
| `FreeVirtualIP.FreeIP4FailsIffFull` | pkg/ebpf/virtual_ip.go:474-495 | IPv4 fails if and only if every usable address of the range is taken |
| `FreeVirtualIP.FreeIP4Found` | pkg/ebpf/virtual_ip.go:474-495 | With fewer than 8128 taken no range of /19 or larger fails |
| `FreeVirtualIP.FreeIP6Found` | pkg/ebpf/virtual_ip.go:512-528 | IPv6 never fails when the range has at least three more offsets than addresses taken (a counting argument over distinct probes) |
| `VirtualIPPlanner.VipPlan.EvictOldestRetired` | pkg/ebpf/virtual_ip.go:437-458 | Whatever order the map is visited in, the entry deleted is the one retired first, lowest IP on a tie |
| `VirtualIPPlanner.KeepValid` | pkg/ebpf/virtual_ip.go:360-381 | Kept are exactly the entries with a host, in the range, and active or retired for less than 86400 seconds; grouped by host in address order |
| `VirtualIPPlanner.ChooseKeep` | pkg/ebpf/virtual_ip.go:389-397 | The IP a watched host keeps: its lowest active one, else its lowest |
| `VirtualIPPlanner.SettleAll` | pkg/ebpf/virtual_ip.go:383-410 | Each watched host keeps one active IP, every other IP is retired now or stays retired |
| `VirtualIPPlanner.EvictToCapacity` | pkg/ebpf/virtual_ip.go:412-413 | Retired reservations beyond capacity are evicted oldest first |
| `VirtualIPPlanner.AllocateHost` | pkg/ebpf/virtual_ip.go:415-431 | One host's allocation: evict when full, else leave it out |
| `VirtualIPPlanner.PlanVirtualIPs` | pkg/ebpf/virtual_ip.go:354-433 | The imperative planner computes one specified plan, whatever the order in which maps are visited; every entry has a host, is in the range, and is active or retired for less than 86400 seconds |
| `VirtualIPPlanMeaning.PlanHoldsExactly` | pkg/ebpf/virtual_ip.go:357-381 | An entry that still counts (a host, in the range, active or retired for less than 86400 seconds) stays its host's, retired since when it was or since now, unless it is evicted; every entry of a plan counts, and is active for a watched host or was there before |
| `VirtualIPPlanMeaning.PlanGivesExactly` | pkg/ebpf/virtual_ip.go:383-433 | A host has an address if and only if it is the one active for it; beyond capacity nothing is retired; evictions went by retirement time and address, and none left comes before one |
| `VirtualIPPlanMeaning.PlanWithinCapacity` | pkg/ebpf/virtual_ip.go:412-431 | A plan goes beyond capacity only with active entries there were before |
| `VirtualIPPlanMeaning.PlanPrefers` | pkg/ebpf/virtual_ip.go:383-402 | A watched host with an entry that counts keeps its lowest active one or, with none, its lowest retired one, active again |
| `VirtualIPPlanMeaning.PlanGivesFirst` | pkg/ebpf/virtual_ip.go:343-345 | A host without one gets the first address from its hash on that can be handed out and is not reserved by the plan or an entry it evicted |
| `VirtualIPPlanMeaning.PlanServesExactly` | pkg/ebpf/virtual_ip.go:415-431 | With fewer than 8128 entries and hosts, a watched host goes without only when the map is full of active entries, and only a full plan evicts |
| `VirtualIPPlanMeaning.PlanServesInOrder` | pkg/ebpf/virtual_ip.go:415-421 | Of two hosts without an entry that counts, the later in the dictionary has an address only if the earlier has one |
| `VirtualIPPlanProperties.PlanSound` | pkg/ebpf/virtual_ip.go:336-353 | The invariant every step of a plan keeps: Hosts is the inverse of the active entries, all entries are current, evictions in order, capacity |
| `VirtualIPPlanProperties.PlanServes` | pkg/ebpf/virtual_ip.go:351-353 | With room in the range, a watched host is left out only when the map is full of active reservations, and nothing is evicted unless the plan ends up full |
| `VirtualIPPlanProperties.RoomIPv4` | pkg/ebpf/virtual_ip.go:474-495 | When an IPv4 range has that room |
| `VirtualIPPlanProperties.RoomIPv6` | pkg/ebpf/virtual_ip.go:501-530 | When an IPv6 range has that room |
| `VirtualIPPlanProperties.KeepsActive` | pkg/ebpf/virtual_ip.go:340-342 | A watched host keeps its sole active in-range IP |
| `VirtualIPPlanProperties.Reactivates` | pkg/ebpf/virtual_ip.go:383-402 | A watched host with only retired IPs gets its lowest back |
| `VirtualIPPlanProperties.ReservedForADay` | pkg/ebpf/virtual_ip.go:346-353 | Over any run with a fixed range, an address active for a host stays that host's, active or retired since the plan that retired it, as long as no plan evicts it or finds it retired at least 24 hours before |
| `VirtualIPPlanProperties.HandedOnMeans` | pkg/ebpf/virtual_ip.go:346-353 | An address that passed from one host to another or was dropped was evicted on the way, or released by a plan made at least 24 hours after the one that retired it |
| `VirtualIPPlanProperties.StaysItsHosts` | pkg/ebpf/virtual_ip.go:366-376 | From a reservation in any state: while no plan evicts it or finds its recorded retirement 24 hours old, it stays its host's |
| `VirtualIPPlanProperties.PlanAgainIdle` | pkg/ebpf/virtual_ip.go:336-353 | With room in the range the plan is a fixpoint: replanning its entries at the same time changes nothing |
| `VirtualIPPlanProperties.PlanNonZero` | pkg/ebpf/virtual_ip.go:474-530 | No plan reserves the all-zero address, which stands for none |
| `VipUpstream.VipUpstreamRecord` | pkg/ebpf/bpf/helpers.h:1010-1030 | In place on the four slots: a known address keeps the later expiry, a new one takes the first slot that expires first, the rest stay |
| `VipUpstream.RecordedMeans` | pkg/ebpf/bpf/helpers.h:1005-1030 | The address is held afterwards, and only a slot with the least expiry can lose its address |
| `VipUpstream.VipUpstreamPick` | pkg/ebpf/bpf/helpers.h:1037-1070 | An unexpired address is picked if there is one (the rnd-th), else the first that expired last, and none only if all slots are empty |
| `VipUpstream.PickedOnce` | pkg/ebpf/bpf/helpers.h:1051-1070 | That determines the pick |
| `VirtualIPMaps.VipRedirect` | pkg/ebpf/bpf/tls_uprobe.c:3635-3674 | A connect is left alone outside the range, refused without a reservation or address of its family, and otherwise sent to the picked address for the reservation's host |
| `VirtualIPMaps.GoesOneWay` | pkg/ebpf/bpf/tls_uprobe.c:3635-3674 | Exactly one of these happens |
| `VirtualIPMaps.ConnectGoesToItsHost` | pkg/ebpf/bpf/tls_uprobe.c:3635-3674 | In safe maps a redirected connect goes to an address that a DNS answer for the fake IP's current host returned |
| `VirtualIPMaps.ConnectExactly` | pkg/ebpf/bpf/tls_uprobe.c:3635-3674 | By ranges, reservations and recorded addresses: passed on exactly outside both ranges; redirected to an unexpired recorded address, or the last to expire, of the fake IP's family and host; refused only without a reservation or address, or where one of the other family is picked |
| `VirtualIPMaps.AnsweredSafe` | pkg/ebpf/bpf/tls_uprobe.c:3534-3599 | A DNS answer handled at any moment keeps the maps safe |
| `VirtualIPMaps.AnsweredKeeps` | pkg/ebpf/bpf/tls_uprobe.c:3534-3599 | It cannot record an address under a fake IP that is changing hands, at any point of the sync |
| `VirtualIPMaps.Release` | pkg/ebpf/virtual_ip_linux.go:523-532 | Deleting one unplanned reservation keeps every handed-out fake IP resolvable |
| `VirtualIPMaps.Prune` | pkg/ebpf/virtual_ip_linux.go:630-657 | Deleting one entry's addresses keeps the maps safe and mid-sync consistent |
| `VirtualIPMaps.Reserve` | pkg/ebpf/virtual_ip_linux.go:534-550 | Writing one planned reservation does, because stale addresses are gone by then |
| `VirtualIPMaps.Assign` | pkg/ebpf/virtual_ip_linux.go:552-561 | Handing a host fake IPs whose reservations are written does |
| `VirtualIPMaps.DroppedIsStable` | pkg/ebpf/virtual_ip_linux.go:510-522 | Once hosts that lose a fake IP are dropped, every fake IP still handed out keeps its host in the plan |
| `VirtualIPAllocator.PlanVirtualIPRanges` | pkg/ebpf/virtual_ip.go:318-334 | Each family is planned apart, with half of the capacity when there is an IPv6 range |
| `VirtualIPAllocator.SharedMaps.DnsRewrite` | pkg/ebpf/bpf/tls_uprobe.c:3534-3599 | One DNS answer as an atomic step: the host's fake IP is handed out exactly when it is in its family's range, the pod may have it, the map has room and the answer holds an address outside the ranges; each such address is recorded in turn until its TTL runs out (RFC 2181), under that fake IP alone; otherwise nothing changes |
| `VirtualIPAllocator.RecordedExactly` | pkg/ebpf/bpf/tls_uprobe.c:3578-3597 | A record's address, an IPv4-mapped one as IPv4, is held until its TTL runs out (0 with the top bit set), for the answer's host and in place of what expires first if it was not held; a fake one changes nothing |
| `VirtualIPAllocator.DropHosts` | pkg/ebpf/virtual_ip_linux.go:510-522 | The first pass drops exactly the hosts that are gone or whose fake IPv4 or IPv6 changes or goes |
| `VirtualIPAllocator.ReleaseAll` | pkg/ebpf/virtual_ip_linux.go:523-532 | The second releases the unplanned reservations, any of which may fail |
| `VirtualIPAllocator.PruneUpstreams` | pkg/ebpf/virtual_ip_linux.go:630-657 | The third leaves no address under a fake IP that changes hands, with DNS answers in between, and all that is under one that does not |
| `VirtualIPAllocator.ReserveAll` | pkg/ebpf/virtual_ip_linux.go:534-550 | The fourth writes the reservations; a failed one is not handed out |
| `VirtualIPAllocator.AssignAll` | pkg/ebpf/virtual_ip_linux.go:551-561 | The fifth hands out only what is reserved |
| `VirtualIPAllocator.SyncMaps` | pkg/ebpf/virtual_ip_linux.go:488-571 | Every state the maps go through is in their log, one map operation or one DNS answer from the one before, and safe, whatever answers come in between and whatever writes and releases fail. With no failure the maps hold the plan: a host has a fake IPv4 or IPv6 if and only if it is the one reserved and active for it; every watched host has one of each family with a range unless its share, half of the map with IPv6, is full of active entries (fewer than 8128 entries and hosts); entries that count stay their host's unless it is full; and a fake IP that stays its host's keeps its recorded addresses |
| `SocketSecrets.SocketTable.VipConnect` | pkg/ebpf/bpf/tls_uprobe.c:3739-3775 | The connect hooks' effect on the two socket maps, and when the connect is refused |
| `SocketSecrets.SocketTable.InetSockSetState` | pkg/ebpf/bpf/tls_uprobe.c:2139-2155 | A new connection forgets the name; a close also the host and the destination |
| `SocketSecrets.SocketTable.SendmsgSni` | pkg/ebpf/bpf/tls_uprobe.c:2091-2128 | The first handshake record decides, and only a contrary ClientHello changes it, to MISMATCH |
| `SocketSecrets.SocketTable.SocketFilterPatches` | pkg/ebpf/bpf/tls_uprobe.c:2185-2267 | The in-place compaction leaves in front exactly the patches that may pass: the secret exists, a host of 1 to 63 bytes is the one recorded for the socket and (unless audit) named by its hello, and address and port are those recorded or the socket's own; the rest of the array as it was |
| `SocketSecrets.VipSocketCheck` | pkg/ebpf/bpf/helpers.h:1086-1098 | A socket passes if and only if it meets the secret's host, if that has 1 to 63 bytes, its IP and its port |
| `SocketSecrets.AllowedExactly` | pkg/ebpf/bpf/tls_uprobe.c:2219-2251 | When a patch may pass, by the three maps' entries and the secret's lengths alone |
| `SocketSecrets.SurvivorsExactly` | pkg/ebpf/bpf/tls_uprobe.c:2211-2266 | Each patch survives as often as it was staged if it is allowed, and never otherwise |
| `SocketSecrets.SurvivorsInOrder` | pkg/ebpf/bpf/tls_uprobe.c:2211-2266 | Survivors keep their order |
| `SocketSecrets.HostIsOfLatestConnect` | pkg/ebpf/bpf/tls_uprobe.c:3635-3674 | In every run, a socket is recorded for a host if and only if its latest connect was redirected for that host and it was not closed or evicted since |
| `SocketSecrets.DstIsOfLatestConnect` | pkg/ebpf/bpf/tls_uprobe.c:3710-3719 | The recorded destination is that of its latest TCP connect that was not refused, with the same exceptions |
| `SocketSecrets.SniIsOfFirstHello` | pkg/ebpf/bpf/tls_uprobe.c:2053-2128 | The recorded name is SEEN and a host if and only if the first handshake record since the last connection, close or eviction named it and no ClientHello since speaks against it |
| `SocketSecrets.AllowedMeans` | pkg/ebpf/bpf/tls_uprobe.c:2219-2251 | After any run of connects, closes, sends and evictions a patch is allowed if and only if its secret exists and the socket's history entitles it |
| `SocketSecrets.HostSecretLeavesForItsHost` | pkg/ebpf/bpf/tls_uprobe.c:2171-2184 | In enforce mode a host-restricted patch survives only if the socket's latest connect was to a fake IP then reserved for that host and went to an address recorded for it, and its first ClientHello names the host with none since against it; that hello followed that connect where the socket was closed before it connected again |
| `SniParser.TlsParseSni` | pkg/ebpf/bpf/helpers.h:500-630 | The C parser with its masked reads computes the parse of the copied bytes: every read is in bounds, so the mask never changes an offset |
| `SniParser.WalkExtensions` | pkg/ebpf/bpf/helpers.h:543-588 | Its loop over the extensions is the specified walk |
| `SniParser.CopyHost` | pkg/ebpf/bpf/helpers.h:612-629 | Its copy loop lowercases, validates and strips one trailing dot |
| `SniParser.SeenExactly` | pkg/ebpf/bpf/helpers.h:492-499 | Of any well-formed ClientHello and any part of it that was copied: SEEN with a host if and only if it has at most 32 extensions, none of type 0xfe0d, one of type 0 with one host_name of 1 to 63 letters, digits, -, . and _ that is the host but for case and a final dot, and what decides that was copied |
| `SniParser.NamesExactly` | pkg/ebpf/bpf/helpers.h:543-629 | The same of the hello alone: the parser's lists and tables are those types, lengths and characters |
| `SniParser.SeenStarts` | pkg/ebpf/bpf/helpers.h:500-520 | Whatever is SEEN starts as a handshake record with a ClientHello no longer than the record |
| `SniParser.SeenIsHello` | pkg/ebpf/bpf/helpers.h:492-499 | Whatever is SEEN is such a ClientHello |
| `SniParser.WalkExts` | pkg/ebpf/bpf/helpers.h:543-597 | The extension walk comes to a clean end exactly for such a list |
| `SniParser.ServerNamesExactly` | pkg/ebpf/bpf/helpers.h:574-581 | The server_name data accepted is exactly a list of one host_name of 1 to 63 bytes |
| `DnsProgram.QuestionWalk.Step` | pkg/ebpf/bpf/helpers.h:746-795 | One byte of the question walk, on the struct's fields |
| `DnsProgram.DnsParseQuestion` | pkg/ebpf/bpf/helpers.h:805-811 | The driver computes the specified walk of at most 65 steps |
| `DnsProgram.AnswersWalk.Step` | pkg/ebpf/bpf/helpers.h:847-911 | One label or record of the answer walk, on the struct's fields |
| `DnsProgram.DnsScanAddrRecords` | pkg/ebpf/bpf/helpers.h:922-930 | The driver computes the specified walk of at most 64 steps |
| `DnsWalk.QuestionExactly` | pkg/ebpf/bpf/helpers.h:719-795 | The question walk ends in OK if and only if the message is an untruncated NOERROR response to one query whose name a host can have, and then gives its lowercased name, type and the start of the answers (section 4.1 of RFC 1035); 65 steps suffice for every such name |
| `DnsWalk.ScanExactly` | pkg/ebpf/bpf/helpers.h:847-930 | Of any printed answer section: OK if and only if its addresses have the right length, at most 8 answer, and the steps suffice; then the list is exactly the IN records of the question's type, in order, with their offsets, TTLs and addresses |
| `DnsWalk.ScanIsOfRecords` | pkg/ebpf/bpf/helpers.h:847-930 | Whatever is OK is such an answer section, wholly inside the message |
| `DnsWire.ListingDisjoint` | pkg/ebpf/bpf/helpers.h:899-906 | The listed addresses lie inside the section and do not overlap |
| `DnsRewrite.RewrittenPrints` | pkg/ebpf/bpf/tls_uprobe.c:3605-3622 | Overwriting the listed addresses prints the same records with those addresses replaced |
| `DnsRewrite.RewriteScansAgain` | pkg/ebpf/bpf/tls_uprobe.c:3605-3622 | Scanning the rewritten answer finds the same offsets and TTLs, every address fake |
| `DnsRewrite.RewriteKeepsQuestion` | pkg/ebpf/bpf/tls_uprobe.c:3605-3622 | Its question is the same |
| `DnsProgram.TcDnsRewrite` | pkg/ebpf/bpf/tls_uprobe.c:3512-3622 | On one message, in place: rewritten if and only if it is such a response, else left alone; rewritten, every listed real address is replaced, with the checksum kept right |
| `DnsProgram.RewrittenExactly` | pkg/ebpf/bpf/tls_uprobe.c:3505-3569 | A message is rewritten if and only if it is an untruncated NOERROR response to one A or AAAA query for a name of at most 63 letters, digits, - and _ in labels, whose host has a fake address, and its printed answers have at most 8 IN records of the type, all of the right length, one of them not fake, and few enough names to walk |
| `DnsProgram.RewrittenIs` | pkg/ebpf/bpf/tls_uprobe.c:3600-3622 | It is then the same message with the address of each such record replaced, if it was not fake |
| `DnsProgram.RewrittenReadsAsBefore` | pkg/ebpf/bpf/tls_uprobe.c:3559-3622 | A rewritten message reads as before with fake addresses only, and rewriting it again leaves it alone |
| `DnsChecksum.VipRewriteAddr` | pkg/ebpf/bpf/tls_uprobe.c:3383-3412 | Storing an address and updating the checksum word by word agrees with summing the message again, at even and odd offsets |
| `DnsChecksum.RewriteAnswer` | pkg/ebpf/bpf/tls_uprobe.c:3605-3622 | So does rewriting any set of records: modulo 0xFFFF, a right checksum stays right (RFC 1071, section 3 of RFC 1624) |
| `DnsChecksum.SumPut` | pkg/ebpf/bpf/tls_uprobe.c:3396-3411 | Overwriting bytes moves the sum by the difference of theirs at that parity |
| `DnsChecksum.CsumOddSwaps` | pkg/ebpf/bpf/helpers.h:932-941 | The helper swaps the bytes of each half of its word |
| `DnsChecksum.SumOddBytes` | pkg/ebpf/bpf/helpers.h:932-941 | Swapped bytes sum at an even offset as the bytes do at an odd one |
| `Grants.IndexSecrets` | pkg/ebpf/secret_binding.go:122-132 | The index holds exactly the last secret of each owner and key of the snapshot |
| `Grants.Each` | pkg/ebpf/secret_binding.go:134-150 | Exactly the secrets a reference grants |
| `Grants.SecretACL` | pkg/ebpf/secret_binding.go:154-175 | A cgroup and key are in the list if and only if some binding has the cgroup and a reference to an owner, naming its key or all keys, whose last secret of the snapshot has a shadow that starts, or whose HPACK code starts, with the key |
| `Grants.VipPodHosts` | pkg/ebpf/secret_binding.go:183-207 | A pod's address and a host are in the list if and only if some binding has the address and reaches such a secret with that host, of 1 to 63 bytes; in audit mode every bound address with every host |
| `GrantsManager.UprobeManager.BindPodSecrets` | pkg/ebpf/uprobe.go:2295-2299 | A full bind replaces the pod's binding, and edits the two maps |
| `GrantsManager.UprobeManager.BindPodNetwork` | pkg/ebpf/uprobe.go:2304-2308 | A network bind keeps the pod's cgroups and replaces its addresses and references |
| `GrantsManager.UprobeManager.BindPodContainer` | pkg/ebpf/uprobe.go:2315-2327 | A container bind adds one cgroup, keeps the others and the addresses, if any, and replaces the references |
| `GrantsManager.UprobeManager.BindLocked` | pkg/ebpf/uprobe.go:2331-2356 | The new binding's entries are granted; the previous binding's that nobody grants any more are revoked |
| `GrantsManager.UprobeManager.RevokeLost` | pkg/ebpf/uprobe.go:2363-2404 | Revoked is exactly what the previous binding granted, the new one does not, and no other does |
| `GrantsManager.UprobeManager.UnbindPod` | pkg/ebpf/uprobe.go:2407-2444 | Every entry of the pod's cgroups goes, and the hosts are recomputed |
| `GrantsManager.UprobeManager.SyncSecrets` | pkg/ebpf/uprobe.go:2253-2262 | Both maps are made what the bindings grant over the new snapshot |
| `GrantsManager.StepKeepsWithin` | pkg/ebpf/uprobe.go:2295-2444 | No operation lets the access list allow more than the bindings grant, and a sync makes both maps exact |
| `GrantsManager.BindKeepsExact` | pkg/ebpf/uprobe.go:2331-2404 | Binding and rebinding keep the access list equal to the recomputation |
| `GrantsManager.UnbindKeepsExact` | pkg/ebpf/uprobe.go:2407-2436 | Unbinding keeps it equal if and only if no other pod is granted anything in the pod's cgroups |
| `GrantsManager.UnbindCanFallShort` | pkg/ebpf/uprobe.go:2407-2436 | A run from start-up after which it is not: two pods with one cgroup, one of them unbound |
| `GrantsManager.SetModeKeepsHosts` | pkg/ebpf/uprobe.go:2267-2270 | Setting the mode keeps the pods' hosts equal to the recomputation if and only if the mode is the same or no bound pod has an address |
| `GrantsManager.ModeChangeCanDiffer` | pkg/ebpf/uprobe.go:2267-2270 | A run from start-up after which they are not: on leaving audit mode a pod keeps its leave to reach every host |
| `GrantsManager.StepKeepsHosts` | pkg/ebpf/uprobe.go:2331-2444 | Every operation that leaves the mode alone keeps the pods' hosts equal to the recomputation |
| `GrantsManager.RunStaysWithin` | pkg/ebpf/uprobe.go:2238-2444 | Over any run from start-up the access list is never larger than the recomputation from all bindings |
| `GrantsManager.RunIsExact` | pkg/ebpf/uprobe.go:2238-2444 | It is equal to it as long as an unbound pod's cgroups are its own |
| `GrantsManager.RunHostsExact` | pkg/ebpf/uprobe.go:2238-2444 | Over any run the pods' hosts are equal to theirs, unless since the last sync or unbinding of a pod with an address the mode changed while a bound pod had one |
| `GrantsManager.AclOfRun` | pkg/ebpf/secret_binding.go:154-175 | Over any run, by the snapshot and the bindings alone: the access list holds nothing that is not so granted and, while unbound pods' cgroups were their own, all that is |
| `GrantsManager.HostsOfRun` | pkg/ebpf/secret_binding.go:183-207 | So for the pods' hosts, under the condition above |
| `Huffman.InitTables` | pkg/secrets/huffman.go:60-87 | The start-up loops fill the length table and the buckets (64 copies make the byte count exact) |
| `Huffman.CountBits` | pkg/secrets/huffman.go:94-100 | The table sum is the number of bits of the encoding (section 5.2 of RFC 7541) |
| `Huffman.BucketsNotEmpty` | pkg/secrets/huffman.go:69-85 | Every bucket from 5 to 8 bits has a byte |
| `Huffman.NextChar` | pkg/ebpf/secret_binding.go:75-83 | No short code starts another: eight bits determine the byte they start with |
| `Huffman.SameChars` | pkg/ebpf/secret_binding.go:75-83 | Bit strings that agree on 8n bits and start with the codes of n short bytes start with the same bytes |
| `Shadows.CanShadowExactly` | pkg/secrets/shadow.go:277-311 | CanShadow accepts a length and a bit count if and only if a shadow with them exists |
| `Shadows.Window` | pkg/secrets/shadow.go:182-206 | The window for the next code length is never empty, and any choice in it leaves a feasible rest |
| `Shadows.GenerateShadowValue` | pkg/secrets/shadow.go:167-220 | For all draws, minting succeeds exactly when CanShadow accepts, never meets an empty window or bucket, and gives exactly the length and the bits asked for |
| `Shadows.SlotFits` | pkg/ebpf/sync.go:159-196 | A shadow's encoded length is its value's, at most the value's length |
| `Shadows.NoRawIsHuffman` | pkg/ebpf/secret_binding.go:60-71 | No raw key is any shadow's Huffman key |
| `Shadows.SameHuffmanSameRaw` | pkg/ebpf/secret_binding.go:75-83 | Shadows with the same Huffman key have the same raw key: the prefix and four codes always fit the first 64 bits |
| `ShadowReconciler.ShadowGenerator.Collides` | pkg/secrets/shadow.go:124-142 | A shadow collides if and only if some other owner holds its prefix |
| `ShadowReconciler.ShadowGenerator.Record` | pkg/secrets/shadow.go:110-122 | Recording adds the owner under the prefix and nothing else |
| `ShadowReconciler.ShadowGenerator.Generate` | pkg/secrets/shadow.go:86-108 | A minted shadow has the asked form and a prefix nobody held; it is unsatisfiable exactly when CanShadow refuses |
| `ShadowReconciler.SeedShadowGenerator` | pkg/secrets/k8s/source.go:186-219 | The seed holds exactly the prefixes of the persisted shadows, with their owners |
| `ShadowReconciler.ShadowOf` | pkg/controller/secret_reconciler.go:121-178 | One key's shadow fits its value, has a prefix no other owner and no other key has, and is the persisted one if that still fits and is free |
| `ShadowReconciler.ShadowData` | pkg/controller/secret_reconciler.go:121-181 | So for all keys, in whatever order they are visited |
| `ShadowReconciler.Reconcile` | pkg/controller/secret_reconciler.go:62-231 | One reconcile: disabled, failed, left alone or updated, and no other owner's shadow touched; not failed, exactly the values of at least 8 bytes that a shadow of their length and encoded bits exists for get one |
| `ShadowReconciler.ReconciledExactly` | pkg/controller/secret_reconciler.go:121-181 | Each shadow is kl:: and characters with codes of 5 to 8 bits, with its value's length and encoded bits and first 8 bytes no other shadow has; one that still fits is kept |
| `ShadowReconciler.StepKeepsDistinct` | pkg/controller/secret_reconciler.go:121-181 | A reconcile over a complete seed keeps all raw keys pairwise distinct |
| `ShadowReconciler.RunKeepsDistinct` | pkg/controller/secret_reconciler.go:121-181 | So does any run of reconciles from an empty cluster |
| `ShadowReconciler.ReconcileAgain` | pkg/controller/secret_reconciler.go:136-166 | Reconciling again with the same data changes no shadow |
| `ShadowReconciler.KeysLeadToOneSecret` | pkg/ebpf/secret_binding.go:60-83 | Then every key, raw or Huffman, belongs to one shadow, once |
| `SecretMap.BpfSecretMap.ApplySecrets` | pkg/ebpf/sync.go:67-243 | Afterwards the map has exactly the keys of the secrets with a host below 64 bytes and a shadow of at least 8, raw and Huffman; with one secret per key each entry holds its value's first 128 bytes (the Huffman one filled with 0xff to the placeholder's length), its shadow's first 42, its protocol, port and host or else address; and the result is the hosts |
| `SecretMap.SnapshotOfDistinct` | pkg/ebpf/sync.go:97-110 | A snapshot of a cluster of distinct shadows has one secret per key: the sync meets no collision |
| `SecretMap.SlotIsExact` | pkg/ebpf/sync.go:147-196 | The Huffman entry exists exactly when the shadow has a Huffman key, and up to 128 bytes it is the value's encoding without padding or truncation |
| `SecretMap.PlaceholderKeysLeadToValue` | pkg/ebpf/secret_binding.go:58-71 | Every key the access list is given leads to its secret: the raw key to the value, the Huffman key to its encoding |
| `TcAttach.BeginExactly` | pkg/ebpf/uprobe.go:616-639 | LoadOrStore: a free inode is reserved, a pinned one returns nil, and one that another call is attaching returns an error |
| `TcAttach.RunKeepsInv` | pkg/ebpf/uprobe.go:616-660 | In every interleaving of attaches and releases: placeholders belong to running calls, no netns fd is lost or closed twice, and nil is returned only after a completed attach |
| `TcAttach.RunKeepsOwns` | pkg/ebpf/uprobe.go:604-639 | From its LoadOrStore on, a call keeps the inode's slot until it is done without having attached, or the inode is released |
| `TcAttach.AttachedOnce` | pkg/ebpf/uprobe.go:604-639 | If two calls attached on one inode, it was released between their LoadOrStores |
| `TcAttach.ReleaseAllowsTwo` | pkg/ebpf/uprobe.go:1209-1213 | With such a release two can: the condition is needed |
| `TcAttach.QuietMeansNoPlaceholder` | pkg/ebpf/uprobe.go:641-653 | A failed attach has freed its slot, and no stale placeholder can turn a retry away |
| `TcAttach.ReturnedFdAccounted` | pkg/ebpf/uprobe.go:864-894 | Once a call has returned, its netns fd is pinned once in the map or closed once |
| `TcAttach.AttachTable.AttachTCEgress` | pkg/ebpf/uprobe.go:599-894 | The call as its atomic steps with any other goroutines in between: nil means some attach on the inode completed, an error leaves no placeholder of its own |

## Left out

- RecordPatch.TcPatchRecord: the record and the length of its explicit nonce are given; choosing the record in a segment and retransmission are not modelled, nor an offset so large that its 32-bit sum wraps, which no scanned write has.
- RecordFit.GivenPatchesFitExactly: past 2^14 + 16 bytes of ciphertext, which TLS does not allow but the header check does, the exact condition for given deltas is the equation of RecordPatch.Fits for each subkey.
- RecordPatch.GhashPatchIter: the callbacks are plain loops; that bpf_loop gives up after a failed map lookup is not modelled.
- DeferredTag.TcDeferredTag: while an entry is pending, the connection's other segments pass unpatched; that is not modelled.
- PlaceholderScan.Prescan: reads of the write's own bytes succeed; a chunk whose pages are not resident is not modelled.
- Redemption.RedeemWrite: the filter by socket between staging and patching is SocketSecrets.SocketTable.SocketFilterPatches and is not run in this method; the keys the process may redeem are given as a set, all of them in audit mode.
- PlaceholderScan.XorPath: one lookup per key stands for the repeated lookups of secret_map, which do not change in between.
- FreeVirtualIP.FreeVirtualIP6: the bitwise or with the range's base is an addition, since the base is aligned to the offsets' span.
- VirtualIPPlanner.PlanVirtualIPs: the lists kept for the log (released, retired, reactivated, allocated) are left out, except evictions; the hash of a host is an arbitrary function.
- VirtualIPAllocator.SyncMaps: deletes from vip_host_ip and vip_upstream succeed; a failed one is logged by the program and retried, and until then a fake IP may stay handed out.
- VirtualIPAllocator.SharedMaps.DnsRewrite: one DNS answer is one atomic step; two answers for one host racing on vip_upstream are not modelled.
- SocketSecrets.SocketTable.VipConnect: updates of the socket maps succeed; the connect hooks are attached; the fake address kept for getpeername is left out.
- SocketSecrets.AllowedMeans: secret_map and the mode do not change during one check; hosts are strings instead of zero-padded buffers of 64 bytes; counters and events are left out.
- SniParser.TlsParseSni: the bytes of a refused name that were already copied to the host buffer are not modelled.
- DnsProgram.TcDnsRewrite: the frame, IP and UDP headers, the trusted resolvers and the maps are left out (the lookup of the fake address is a parameter); a store that fails drops the packet in the program and is not modelled.
- DnsChecksum.VipRewriteAddr: the kernel's checksum helper is its standard ones' complement update on bytes in network order; RFC 1071 makes the order of bytes in a register irrelevant.
- Grants.SecretACL: the grants' maps are sets of keys, as every value is 1.
- GrantsManager.UprobeManager.BindLocked: map operations succeed; pod names, kept for logs, are left out.
- ShadowReconciler.Reconcile: reconciles run one at a time over a complete list of the managed shadows; reading the secret, labels and owner references are left out.
- SecretMap.BpfSecretMap.ApplySecrets: map operations succeed; the comparison of the stored prefix in the data plane is left out.
- Huffman.CountBits: the HPACK library is its code table and padding.
- TcAttach.AttachTable.AttachTCEgress: the worker is one step, which attaches everything or leaves nothing attached; which cgroup's release removes an inode is left out, so any release may happen at any time.
- TcAttach.AttachedOnce: a call that cannot read the inode attaches without a reservation and is left out.
- AES, the extraction of the subkey from library structs, the tail calls and other accommodations of the BPF verifier.
- Kubernetes plumbing, netlink and namespace switching, offset detection, the command line and logging.
