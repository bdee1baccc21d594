# DRANET in Dafny

A model of the parts of the DRANET Kubernetes network driver where correctness is subtle, with proofs:

- the node-local address allocator, the device preparation and unpreparation that use it, and the
  durable pod store behind them, as classes and as a state machine with failures and crashes
  (`LocalIpam`, `PodConfigs`, `Lifecycle`, `Driver`);
- the SLAAC wire layer: checksum, Neighbor Discovery codec, packet codec, BPF program generator with an
  interpreter to run it against, address autoconfiguration and the solicitation loop
  (`Bytes`, `Checksum`, `NdMessage`, `NdRoundTrip`, `NdPacket`, `NdLayout`, `PacketFilter`, `Autoconf`, `Solicit`);
- address derivation for the cloud providers (`CloudRanges`, `EfloRange`, `OkeAddresses`);
- the merge of layered configurations and the exclusion of uplink interfaces (`ConfigMerge`, `Uplinks`).

`dafny verify dfyconfig.toml` checks all of it. Code that updates state or loops is a class or a method
proved against a function of its inputs or of the old state; the properties are lemmas about those functions.

How the parts connect: `Driver.NetworkDriver` is the imperative driver. Its `Valid()` says that its trace of
actions is a run of the state machine `Lifecycle` from the initial state to the driver's own state, and every
method keeps that, so each theorem about runs is a theorem about the driver. `Lifecycle` additionally lets a
crash fall between any two steps inside a call. `CloudRanges` and `EfloRange` prove their ranges satisfy
`LocalIpam.Wraps`, the condition under which allocation never misses a free address.

Clocks, network reads, checkpoint failures, device lookups and the caller's `accept` are parameters (for a
preparation, the fields of `Driver.Env`), so contracts say when an operation succeeds and not only what it then
does; the random offset of an allocation is a nondeterministic choice.

## Where the code falls short of what one would expect

Each of these is a lemma, with the exact condition under which the code is right, or a run that shows it:

- A checkpoint delete that fails is never retried: the comment at pkg/driver/pod_device_config.go:278-288
  relies on the kubelet retrying, but `unprepareResourceClaim` always succeeds and `DeleteClaim` looks only at
  memory (`Lifecycle.StaleCheckpointStays`). After a restart two pods can hold one address
  (`Lifecycle.FailedDeleteSharesAddress`). Between calls, sharing can still come about exactly when an address is
  already on disk twice, or stored but unknown to the allocator (`Lifecycle.SharingReachableWhen`).
- Rolling back a device the provider does not recognise releases addresses it never reserved
  (`Lifecycle.ForeignDeviceFreesAddress`); the rollback is exact if and only if the device is recognised or none
  of its addresses was in use (`Lifecycle.RollbackRestoresWhen`).
- Unpreparing one claim of a pod drops the pod's other claims, whose addresses stay taken
  (`Lifecycle.SharedPodLosesAddress`); nothing is lost if and only if no other claim's device holds an address in
  the claim's pods (`Lifecycle.UnprepareLosesNothingWhen`). A restart reserves addresses of subinterfaces without a
  profile, which nothing releases (`Lifecycle.BareAddressIsLost`, `Lifecycle.RestartLosesNothingWhen`).
- The allocator locks each range, not a whole Allocate. While a call that is going to fail holds an address, another
  caller's allocation from a range with nothing else free fails, and so does a Reserve of that address
  (`LocalIpam.PassingCallStarvesAnother`, with the exact conditions in `LocalIpam.AllocationSeesCallWhen` and
  `LocalIpam.ReservationSeesCallWhen`). Where no other operation fails for it, the failed call has no net effect,
  however interleaved, beyond which address another call happens to find
  (`LocalIpam.FailedAllocateLeavesNothing`).
- The address walk does not wrap around a range that ends at the family's last address
  (`LocalIpam.WalkCoversRange`, `LocalIpam.ExhaustedOnlyWhenFull`); one block in IPv6, the last /64, makes
  drawn offsets leave the address space (`CloudRanges.BlockRangeWraps`).
- Packet filters for 251 or for more than 252 types pass frames they should not, because a one-byte jump wraps
  (`PacketFilter.FilterExactWhen`).
- A link-layer address over 2038 bytes, or a message over 65535, does not survive sending
  (`NdRoundTrip.MessageRoundTrip`, `NdPacket.PacketRoundTrip`).
- A prefix advertised off-link and then on-link loses its on-link entry, and one advertised on-link both for
  autoconfiguration and not gets two (`Autoconf.TwiceAdvertisedCanBeLost`, `Autoconf.TwiceAdvertisedCanBeDoubled`,
  with the exact condition in `Autoconf.RepresentedOnceWhen`).
- Default routes with a metric above MaxInt32 never win (`Uplinks.SomeGatewayWinsWhen`).
- A merge without any provider layer skips deduplication of the user's lists (`ConfigMerge.LayeredMergeIsFlat`).
- A NIC index whose offset wraps around 64 bits is not recovered (`OkeAddresses.IndexOfDerivedParent`,
  `OkeAddresses.WrappedIndexIsLost`).

## Model

| member | source | states |
|---|---|---|
| LocalIpam.WalkVisitsOnce | pkg/ipam/local_ipam.go:237-265 | the iterator's walk visits no address twice and none outside the range |
| LocalIpam.WalkCoversRange | pkg/ipam/local_ipam.go:237-283 | the walk visits every address of the range if and only if the start offset stays in the address space and, for a range that ends at the family's top, the walk starts at the range's first address |
| LocalIpam.DrawnOffsetsStayInSpace | pkg/ipam/local_ipam.go:199-233 | every offset that can be drawn stays in the address space if and only if the range is IPv4, is small enough to be counted, or has 2^64 addresses above its start |
| LocalIpam.IpIterator.constructor | pkg/ipam/local_ipam.go:237-240 | a new iterator stands before the first address of the walk |
| LocalIpam.IpIterator.Next | pkg/ipam/local_ipam.go:241-264 | call number k gives the k-th address of the walk, and every call after the last gives the invalid address |
| LocalIpam.FirstFreeIsFree | pkg/ipam/local_ipam.go:162-187 | the search fails exactly when every visited address is in use, and otherwise finds a visited address that is free |
| LocalIpam.LocalIPAM.constructor | pkg/ipam/local_ipam.go:42-54 | the allocator starts with exactly the addresses of the texts that parse |
| LocalIpam.LocalIPAM.Release | pkg/ipam/local_ipam.go:119-132 | exactly the text's address, if it parses, is freed |
| LocalIpam.LocalIPAM.Reserve | pkg/ipam/local_ipam.go:137-158 | succeeds exactly when every text parses and no address is in use; otherwise nothing changes |
| LocalIpam.LocalIPAM.AllocateForRange | pkg/ipam/local_ipam.go:162-187 | takes the first free address of the walk from a drawn offset, or nothing |
| LocalIpam.LocalIPAM.Allocate | pkg/ipam/local_ipam.go:69-115 | success takes one new in-range address per supplied family, IPv4 first; failure changes nothing and has a cause in the input or an exhausted range |
| LocalIpam.LocalIPAM.TakeNext | pkg/ipam/local_ipam.go:79-104 | a range gives a new address of its own family, or the call has a reason to fail |
| LocalIpam.ExhaustedExactlyWhenFull | pkg/ipam/local_ipam.go:162-187 | on a range that wraps, some draw fails if and only if every address of the range is taken |
| LocalIpam.UnwrappedRangeCanStarve | pkg/ipam/local_ipam.go:162-187 | every other range of two or more addresses can be reported exhausted with an address free |
| LocalIpam.ExhaustedOnlyWhenFull | pkg/ipam/local_ipam.go:162-187 | a range is reported exhausted only when full, if and only if it wraps or has one address |
| LocalIpam.StepKeepsOneHolder | pkg/ipam/local_ipam.go:69-158 | an operation by a caller that releases only what it holds keeps every address with at most one holder |
| LocalIpam.InterleavingsKeepOneHolder | pkg/ipam/local_ipam.go:69-158 | no address has two holders after any interleaving of such operations |
| LocalIpam.ReleaseKeepsOneHolderWhen | pkg/ipam/local_ipam.go:119-132 | a release keeps single holders if and only if its text does not parse or its address is the caller's own or free |
| LocalIpam.FailedAllocateLeavesNothing | pkg/ipam/local_ipam.go:69-187 | a failed Allocate, its takes and drops interleaved with any other operations none of which fails because of it, leaves every caller with what the same operations give without the call, up to the offsets they draw |
| LocalIpam.AllocationSeesCallWhen | pkg/ipam/local_ipam.go:162-187 | an allocation during such a call fails as without it if and only if its walk had nothing free or has something free that the call has not taken; it finds the same address if and only if the call has not taken that one |
| LocalIpam.PassingCallStarvesAnother | pkg/ipam/local_ipam.go:69-187 | a run in which a call that gives its address back makes another caller's allocation fail |
| LocalIpam.ReservationSeesCallWhen | pkg/ipam/local_ipam.go:137-158 | a Reserve during such a call goes as without it if and only if it fails anyway or asks for nothing the call has taken |
| LocalIpam.StrangerReleaseSharesAddress | pkg/ipam/local_ipam.go:119-132 | releasing someone else's address lets it be taken twice |
| PodConfigs.BoltCheckpointer.Store | pkg/driver/pod_device_config_bolt.go:133-153 | if the transaction commits the entry is stored, otherwise nothing changes |
| PodConfigs.BoltCheckpointer.GetOrCreate | pkg/driver/pod_device_config_bolt.go:155-199 | if the database can be read, returns every stored device and nothing else, without empty pods |
| PodConfigs.BoltCheckpointer.DeletePod | pkg/driver/pod_device_config_bolt.go:201-213 | if the transaction commits the pod's bucket goes, otherwise nothing changes |
| PodConfigs.PodConfigStore.SetDeviceConfig | pkg/driver/pod_device_config.go:244-264 | if the checkpoint commits, memory and disk both get the entry, otherwise neither changes |
| PodConfigs.PodConfigStore.GetDeviceConfig | pkg/driver/pod_device_config.go:268-276 | the configuration in memory, if there is one |
| PodConfigs.PodConfigStore.DeleteClaim | pkg/driver/pod_device_config.go:354-376 | memory loses exactly the pods that use the claim, with all their devices; disk loses exactly those whose delete commits |
| PodConfigs.PodConfigStore.GetInUseSubinterfaceIPs | pkg/driver/pod_device_config.go:399-412 | the addresses of all stored subinterfaces and no others |
| PodConfigs.OpenStore | pkg/driver/pod_device_config.go:187-207 | if the checkpoint can be read, the started store holds exactly the devices on disk |
| Lifecycle.ResolvedHoldsAcquired | pkg/driver/dra_hooks.go:764-779 | what a resolved configuration would release is exactly what its profile acquired, for recognised devices |
| Lifecycle.StepKeepsInv | pkg/driver/dra_hooks.go:230-593 | every step of a preparation, unpreparation or crash keeps the invariant: memory on disk, addresses exclusive, allocator tight, each under the failures that have not happened |
| Lifecycle.RunKeepsInv | pkg/driver/dra_hooks.go:230-593 | so does every run |
| Lifecycle.CalmRunKeepsExclusive | pkg/driver/dra_hooks.go:230-593 | from any state, whatever failed before, steps other than failed deletes and foreign devices keep addresses exclusive and known to the allocator |
| Lifecycle.SharingReachableWhen | pkg/driver/pod_device_config.go:289-299 | between calls, two devices can come to share an address by such steps if and only if an address is on disk twice, or stored but unknown to the allocator |
| Lifecycle.AddressesStayExclusive | pkg/driver/dra_hooks.go:230-281 | from an empty node, in every run with crashes in which checkpoint deletes succeed and managed devices are recognised, no two stored configurations share an allocator address, and each such address is in the allocator's set unless just released |
| Lifecycle.NoAddressIsLost | pkg/driver/dra_hooks.go:560-593 | if also pods have one claim each and subinterface addresses come through profiles, between calls the allocator's set is exactly the stored addresses |
| Lifecycle.CheckpointCoversMemory | pkg/driver/pod_device_config.go:244-299 | under any failures everything in memory is on disk; memory equals disk when no delete has failed and no write is under way |
| Lifecycle.StoredConfigSurvives | pkg/driver/pod_device_config.go:187-264 | a stored configuration survives every run, crashes and failures included, that does not drop its pod |
| Lifecycle.StaleCheckpointStays | pkg/driver/pod_device_config.go:278-299 | a checkpoint whose delete failed is untouched by any later unpreparation |
| Lifecycle.FailedDeleteSharesAddress | pkg/driver/pod_device_config.go:289-299 | a run with one failed delete and a restart after which two pods hold one address |
| Lifecycle.ForeignDeviceFreesAddress | pkg/cloudprovider/gce/gce.go:181-242 | a run in which an unrecognised device's rollback frees a stored address |
| Lifecycle.RollbackRestoresWhen | pkg/driver/dra_hooks.go:273-281 | a rollback leaves the allocator as it was if and only if the provider recognises the device or none of the configured addresses was in use |
| Lifecycle.SharedPodLosesAddress | pkg/driver/pod_device_config.go:354-376 | a run in which unpreparing one of a pod's two claims loses the other's address |
| Lifecycle.UnprepareLosesNothingWhen | pkg/driver/dra_hooks.go:560-593 | from an allocator that matches the stored addresses, unpreparing a claim keeps the match if and only if no other claim's device holds an address in the claim's pods |
| Lifecycle.RestartLosesNothingWhen | cmd/dranet/app.go:227 | a restart makes the allocator match the stored addresses if and only if every stored subinterface address is held through a profile |
| Lifecycle.BareAddressIsLost | pkg/driver/pod_device_config.go:399-412 | a run in which an address stored without a profile stays reserved after a restart and an unpreparation |
| Driver.NetworkDriver.GetProfileConfig | pkg/cloudprovider/gce/gce.go:181-242 | nothing for an unrecognised device or a passthrough interface; static addresses reserved, exactly when all parse and are free; otherwise one new host address from each of the ranges, IPv4 first, failing only if there is none to give; failure leaves the allocator as it was |
| Driver.NetworkDriver.ResolveProfile | pkg/driver/dra_hooks.go:764-779 | the addresses a subinterface resolves to: as configured, static ones without repeats where routing is synthesised, or the allocated ones; failure only for a reason of the profile request |
| Driver.NetworkDriver.ReleaseProfileConfig | pkg/cloudprovider/gce/gce.go:364-373 | takes a subinterface configuration's addresses out, and nothing for others |
| Driver.NetworkDriver.PrepareDevice | pkg/driver/dra_hooks.go:230-515 | a stored device is left alone; fails exactly for a bad user configuration, a refused profile, DHCP on a subinterface, a failed lookup or a failed checkpoint, and then nothing is stored and the allocator is as before, less the configured addresses of a foreign device in the inventory; on success the configuration with the addresses it resolves to is in memory and on disk and the allocator grew by exactly those, or by none for a foreign device; always a run of the state machine |
| Driver.NetworkDriver.CommitOrRollBack | pkg/driver/dra_hooks.go:266-515 | after resolution, commits exactly when the configuration, the lookups and the checkpoint are in order, and otherwise makes the deferred release; the exact configuration stored and allocator of each, as a run of the state machine |
| Driver.NetworkDriver.UnprepareResourceClaim | pkg/driver/dra_hooks.go:560-593 | gives back exactly the claim's addresses, drops the claim's pods from memory and, where the delete commits, from disk, as a run of the state machine; loses no address if and only if no other claim's device holds one in those pods |
| Driver.NetworkDriver.ReleaseClaim | pkg/driver/dra_hooks.go:560-583 | releases exactly the claim's devices, each once |
| Driver.NetworkDriver.Restart | cmd/dranet/app.go:220-231 | if the checkpoint can be read, a restart is the state machine's crash: memory reloaded, allocator reseeded |
| Checksum.SumFits | pkg/internal/slaac/packet.go:127-149 | the 32-bit accumulator cannot overflow for payloads up to 131034 bytes |
| Checksum.FoldIsResidue | pkg/internal/slaac/packet.go:145-148 | folding ends at the residue modulo 65535, 65535 standing for a nonzero multiple |
| Checksum.ZeroExactlyWhenDivisible | pkg/internal/slaac/packet.go:102-106 | a payload verifies if and only if its sum is a multiple of 65535 |
| Checksum.ChecksumNegatesCovered | pkg/internal/slaac/packet.go:127-149 | the checksum is the negation modulo 65535 of the big-endian number written by source, destination, payload length, next header 58 and payload |
| Checksum.FilledChecksumVerifies | pkg/internal/slaac/packet.go:67-71 | a filled-in checksum always verifies |
| Checksum.OneWordChangeDetected | pkg/internal/slaac/packet.go:127-149 | replacing one aligned word is missed if and only if old and new word agree modulo 65535 |
| Checksum.AddWords | pkg/internal/slaac/packet.go:129-137 | the accumulating loop adds the big-endian words, an odd last byte as a high byte, modulo 2^32 |
| Checksum.Compute | pkg/internal/slaac/packet.go:127-149 | the loops compute the checksum for payloads of any length |
| NdMessage.ParseOptionsLoop | pkg/internal/slaac/message.go:458-475 | the loop computes the recursive option parser |
| NdMessage.OptionsExact | pkg/internal/slaac/message.go:458-475 | parsing yields opts if and only if they are well-formed and concatenate to the input |
| NdMessage.AppendPrefixes | pkg/internal/slaac/message.go:307-332 | the loop appends every prefix option in order, or fails at one that does not fit |
| NdMessage.AppendRoutes | pkg/internal/slaac/message.go:334-360 | the loop appends every route option in order, or fails at one that does not fit |
| NdMessage.MarshalAdvertisement | pkg/internal/slaac/message.go:258-305 | the buffer built step by step is the advertisement's body |
| NdMessage.ParseAdvertisementLoop | pkg/internal/slaac/message.go:362-400 | the loop over options computes the advertisement |
| NdRoundTrip.PrefixRoundTrip | pkg/internal/slaac/message.go:307-422 | a prefix option parses back, masked and in whole seconds |
| NdRoundTrip.RouteRoundTrip | pkg/internal/slaac/message.go:334-447 | a route option parses back, masked and in whole seconds, with its preference |
| Bytes.MaskedRoundsDown | pkg/internal/slaac/message.go:307-360 | masking a prefix rounds its number down to a multiple of 2^(128 - length) |
| NdRoundTrip.MessageRoundTrip | pkg/internal/slaac/message.go:78-109 | a marshalled message parses back to its normal form if and only if its link-layer address fits an option |
| NdRoundTrip.ParseMarshalParse | pkg/internal/slaac/message.go:94-109 | a parsed message is normal, marshals again if and only if it has no IPv4-mapped prefix, and then parses to itself |
| NdRoundTrip.MarshalledLen | pkg/internal/slaac/message.go:258-360 | the exact length of a marshalled message |
| NdRoundTrip.ParsedLen | pkg/internal/slaac/message.go:362-475 | no parsed message needs more bytes than it was parsed from |
| NdPacket.PacketRoundTrip | pkg/internal/slaac/packet.go:58-122 | a sent message is received with source, destination and normal form, whatever padding follows, if and only if it fits 65535 bytes, its link-layer address fits and its source is legal |
| NdPacket.CorruptedWordRejected | pkg/internal/slaac/packet.go:102-106 | changing one aligned payload word to one that differs modulo 65535 makes the receiver drop the packet |
| NdPacket.PaddingIsIgnored | pkg/internal/slaac/packet.go:80-101 | bytes behind the announced payload do not matter |
| NdPacket.LinkLocalIs | pkg/internal/slaac/packet.go:111-115 | a link-local source is one in fe80::/10, or in 169.254.0.0/16 if IPv4-mapped |
| NdLayout.AdvertisementLayout | pkg/internal/slaac/message.go:258-287 | the bytes of the fixed part of a sent advertisement, at their offsets |
| NdLayout.AdvertisementOptions | pkg/internal/slaac/message.go:289-305 | the options follow in order: link-layer address, MTU, prefixes, routes |
| NdLayout.SolicitationLayout | pkg/internal/slaac/message.go:123-126 | the bytes of a sent solicitation |
| NdLayout.LinkLayerOptionLayout | pkg/internal/slaac/message.go:479-487 | type, length, address and zero padding of a link-layer address option |
| NdLayout.MtuOptionLayout | pkg/internal/slaac/message.go:290-293 | an MTU option, or none for zero |
| NdLayout.PrefixOptionLayout | pkg/internal/slaac/message.go:307-332 | the bytes of a prefix option at their offsets |
| NdLayout.RouteOptionLayout | pkg/internal/slaac/message.go:334-360 | the bytes of a route option at their offsets, with 0, 8 or 16 prefix bytes |
| NdLayout.PacketLayout | pkg/internal/slaac/packet.go:58-72 | the bytes of a sent packet at their offsets |
| NdLayout.PrefixAccepted | pkg/internal/slaac/message.go:405-422 | exactly which prefix option bodies are accepted, and what they say |
| NdLayout.RouteAccepted | pkg/internal/slaac/message.go:427-447 | exactly which route option bodies are accepted, surplus prefix bytes included, and what they say |
| NdLayout.MessageAccepted | pkg/internal/slaac/message.go:94-109 | exactly which messages are accepted |
| NdLayout.AdvertisementSays | pkg/internal/slaac/message.go:362-400 | what an accepted advertisement says: fixed fields, accepted prefixes and routes in order, last link-layer address and MTU |
| NdLayout.SolicitationSays | pkg/internal/slaac/message.go:128-143 | what an accepted solicitation says: its last link-layer address |
| NdLayout.PacketAccepted | pkg/internal/slaac/packet.go:80-122 | exactly which packets are accepted, and their addresses |
| NdLayout.LegalSourceIs | pkg/internal/slaac/packet.go:111-120 | exactly which sources each kind of message is taken from |
| NdPacket.MarshalPacketInPlace | pkg/internal/slaac/packet.go:58-72 | the buffer filled in place is header, message and checksum |
| PacketFilter.BuildFilter | pkg/internal/slaac/packet.go:158-216 | the loop that appends jumps builds the program, jump offsets cut to one byte |
| PacketFilter.LinkFilterExact | pkg/internal/slaac/packet.go:172-181 | the link part passes exactly the frames of the interface that are not addressed to another host |
| PacketFilter.FilterIsExact | pkg/internal/slaac/packet.go:158-216 | run on any frame, the program accepts exactly those with matching link, version, next header, hop limit and type, for up to 250 types |
| PacketFilter.FilterExactWhen | pkg/internal/slaac/packet.go:185-216 | for every list this holds if and only if it has at most 250 types, or 252 |
| PacketFilter.ValidPacketsPass | pkg/internal/slaac/packet.go:80-216 | no packet on the link that the parser accepts with a listed type is dropped, and the socket's copy parses the same if and only if header and payload fit 65535 bytes |
| Autoconf.AutoconfigureLoop | pkg/internal/slaac/autoconf.go:106-156 | the loops compute the configuration |
| Autoconf.AutoconfigureExact | pkg/internal/slaac/autoconf.go:106-173 | addresses and routes are distinct, and are exactly those the advertisement asks for, stated without the loop |
| Autoconf.RoutesAreRoutable | pkg/internal/slaac/autoconf.go:158-164 | only the default route and global unicast prefixes are installed |
| Autoconf.RepeatedPrefixChangesNothing | pkg/internal/slaac/autoconf.go:106-156 | appending a copy of a prefix option changes nothing |
| Autoconf.RepeatedRouteChangesNothing | pkg/internal/slaac/autoconf.go:106-173 | appending a copy of a route option changes nothing |
| Autoconf.FormAddressInjective | pkg/internal/slaac/autoconf.go:69-76 | a formed address determines the prefix it was formed from |
| Autoconf.FormAddressIs | pkg/internal/slaac/autoconf.go:69-76 | an address is formed exactly from a /64 that is not IPv4-mapped: the prefix's first 64 bits, then the identifier |
| Autoconf.ConfiguredAddressIs | pkg/internal/slaac/autoconf.go:106-156 | every configured address ends in the identifier, lies in an autonomous advertised /64 with a preferred lifetime, and has length 64 if on-link and 128 otherwise |
| Autoconf.OptionIsServed | pkg/internal/slaac/autoconf.go:106-156 | every such option whose prefix can be routed has its address configured |
| Autoconf.RoutableIs | pkg/internal/slaac/autoconf.go:158-164 | a prefix can be routed exactly when it is ::/0 or not ::, ::1, IPv4-mapped, multicast or link-local |
| Autoconf.ByRouteWhen | pkg/internal/slaac/autoconf.go:106-156 | a prefix has an on-link route if and only if some effective on-link option for it forms no address |
| Autoconf.ByAddressWhen | pkg/internal/slaac/autoconf.go:106-156 | a prefix is represented by an address with its length if and only if the first effective option that forms its address is on-link |
| Autoconf.RepresentedOnceWhen | pkg/internal/slaac/autoconf.go:106-156 | an on-link prefix is represented exactly once if and only if exactly one of the two holds; twice if both do, and lost only if its first address came off-link |
| Autoconf.OnLinkPrefixRepresentedOnce | pkg/internal/slaac/autoconf.go:106-156 | in particular, if no prefix is advertised twice, each effective on-link prefix is represented exactly once |
| Autoconf.TwiceAdvertisedCanBeLost | pkg/internal/slaac/autoconf.go:106-156 | advertised off-link and then on-link, a prefix is represented by neither |
| Autoconf.TwiceAdvertisedCanBeDoubled | pkg/internal/slaac/autoconf.go:106-156 | advertised on-link with and without autoconfiguration, a prefix is represented by both |
| Solicit.Run | pkg/internal/slaac/solicit.go:59-126 | sends follow the schedule; the loop ends with the first turn that breaks, in which the context has ended, or whose advertisement is approved, and with that outcome, reporting exactly the rejections before; otherwise it goes on |
| Solicit.TakeTurn | pkg/internal/slaac/solicit.go:81-125 | exactly when one turn breaks the loop off, ends it, accepts or goes on, and what it then counts |
| Solicit.SendIfDue | pkg/internal/slaac/solicit.go:82-89 | fails exactly when a due solicitation cannot be sent; otherwise the timer moves on if one was due |
| Solicit.SolicitationsAreSpaced | pkg/internal/slaac/solicit.go:74-89 | in every run at most three solicitations, retransmission k at least 2^(k-1) seconds after the last, none due left unsent |
| Solicit.EarliestSolicitations | pkg/internal/slaac/solicit.go:74-89 | solicitations go out no earlier than 0, 1 and 3 seconds after the start |
| Solicit.ReportIsFair | pkg/internal/slaac/solicit.go:118-124 | reported routers are distinct senders, at most eight, no more than the rejections, complete unless eight |
| ConfigMerge.Deduplicate | pkg/apis/config_merge.go:80-134 | the backward loop keeps the last entry of each key |
| ConfigMerge.KeepsTheLastOfEachKey | pkg/apis/config_merge.go:80-134 | the entries kept are exactly those at the last position of their key, in order |
| ConfigMerge.KeepLastKeys | pkg/apis/config_merge.go:80-134 | the key set is kept |
| ConfigMerge.UserWins | pkg/apis/config_merge.go:60-69 | a merged list is the deduplicated provider entries whose keys the user lacks, then the deduplicated user list |
| ConfigMerge.KeepLastIdempotent | pkg/apis/config_merge.go:80-134 | deduplicating twice changes nothing |
| ConfigMerge.NestedMergeIsFlat | pkg/apis/config_merge.go:60-69 | deduplicating an inner layer first changes nothing |
| ConfigMerge.MergeLists | pkg/apis/config_merge.go:30-77 | all four lists are concatenated provider first and deduplicated by their own keys |
| ConfigMerge.MergedHolds | pkg/apis/config_merge.go:60-134 | a route is in the merged list exactly when no route to the same destination in the same table follows it in the provider's list and then the user's; a neighbor, none for the same destination; an address or rule, if in either |
| ConfigMerge.KeptOnce | pkg/apis/config_merge.go:80-134 | no two kept entries share a key |
| ConfigMerge.LayeredMergeIsFlat | pkg/driver/dra_hooks.go:764-779 | merging provider then profile gives the lists of one flat merge if and only if some lower layer is present or the user's lists have no duplicates |
| Uplinks.BuildAdjacency | pkg/inventory/net.go:137-150 | every link is under its master, and the seeds are the gateways' indexes |
| Uplinks.VisitBelow | pkg/inventory/net.go:152-168 | the worklist ends on any table, stays within every set closed under children and leaves nothing below a seed |
| Uplinks.GetExcludedUplinkInterfaces | pkg/inventory/net.go:128-169 | exactly the gateways' names and those of links whose chain of masters reaches a gateway link |
| Uplinks.GetDefaultGwInterfaces | pkg/inventory/net.go:36-116 | exactly the interfaces of the lowest-metric default routes, per family |
| Uplinks.SomeGatewayWinsWhen | pkg/inventory/net.go:36-116 | a family has a winner if and only if it has a default route with a metric of at most MaxInt32 |
| CloudRanges.RangeIsBlockInterior | pkg/cloudprovider/cloudutil.go:38-93 | a block yields a range if and only if it has room for it; the range is the block without its ends and the reserved addresses, inside the address space |
| CloudRanges.RangeStaysInBlock | pkg/cloudprovider/cloudutil.go:38-93 | every address of the range has the block's prefix |
| CloudRanges.BlockRangeWraps | pkg/cloudprovider/cloudutil.go:38-73 | allocation from such a range never misses a free address, if and only if the block is not the last IPv6 /64 |
| CloudRanges.GetIPv6Range | pkg/cloudprovider/gce/gce.go:474-506 | the address filled in place is the NIC's leading bytes, the marker and zeros |
| CloudRanges.GceBlockIs | pkg/cloudprovider/gce/gce.go:474-506 | there is a block exactly for IPv6 prefixes up to /96: the prefix rounded up to 16-bit groups, c0de, zeros |
| CloudRanges.BaseBytesIsLeast | pkg/cloudprovider/gce/gce.go:492-494 | the groups kept are the fewest that cover the prefix |
| CloudRanges.GceRangeIsUsable | pkg/cloudprovider/gce/gce.go:447-506 | the derived block, never an IPv4-mapped one, gives a range without its first and last address, on which allocation is complete |
| CloudRanges.GceRangeIsInsideNic | pkg/cloudprovider/gce/gce.go:474-506 | every address of the block has the NIC's prefix |
| EfloRange.SetIPBit | pkg/cloudprovider/alibaba/alibaba.go:326-334 | the addressed bit of the array becomes the given one and the other 127 stay |
| EfloRange.GetBitIsBitAt | pkg/cloudprovider/alibaba/alibaba.go:320-324 | bit i of the bytes is bit 127 - i of the number |
| EfloRange.SetBitValue | pkg/cloudprovider/alibaba/alibaba.go:326-334 | setting a bit adds its weight if it was clear, clearing subtracts it if it was set |
| EfloRange.EfloRDMASubinterfaceRange | pkg/cloudprovider/alibaba/alibaba.go:291-318 | fails exactly for prefixes longer than /124; otherwise the bit loop keeps the prefix bits and takes the pattern's up to /124 |
| EfloRange.PatternValue | pkg/cloudprovider/alibaba/alibaba.go:288-289 | the pattern is 0:f:0:c00 |
| EfloRange.EfloClosedForm | pkg/cloudprovider/alibaba/alibaba.go:291-318 | for a masked prefix, that is the network address plus the pattern's middle bits |
| EfloRange.EfloBlockIsInsideNic | pkg/cloudprovider/alibaba/alibaba.go:253-318 | the whole /124 has the NIC's prefix |
| EfloRange.EfloRangeIsUsable | pkg/cloudprovider/alibaba/alibaba.go:253-318 | the block as its text reads, IPv6 or (if IPv4-mapped) IPv4, gives a range without its first and last address, on which allocation is complete |
| OkeAddresses.ValidateChildIPv4Range | pkg/cloudprovider/oke/oke.go:307-323 | accepts exactly the masked IPv4 ranges of 8 to 30 bits that hold no address of 0/8, 127/8, 169.254/16 or 224.0.0.0 and up |
| OkeAddresses.ParentStaysInside | pkg/cloudprovider/oke/oke.go:1271-1289 | a parent lies in the OCA network at exactly its offset, without wrapping |
| OkeAddresses.ChildStaysInside | pkg/cloudprovider/oke/oke.go:1293-1330 | the child lies in its range at the parent's offset |
| OkeAddresses.AddressesStayApart | pkg/cloudprovider/oke/oke.go:1293-1330 | parent, child and VNIC subnet never meet |
| OkeAddresses.IndexOfDerivedParent | pkg/cloudprovider/oke/oke.go:1271-1350 | the inverse recovers the index of a derived parent if and only if the offset did not wrap around 64 bits |
| OkeAddresses.WrappedIndexIsLost | pkg/cloudprovider/oke/oke.go:1271-1350 | on every subnet up to /30 an index that wraps is accepted wherever index 0 is, and is recovered as 0 |
| OkeAddresses.SmallIndexDoesNotWrap | pkg/cloudprovider/oke/oke.go:1271-1289 | no index below 2^32 wraps |
| OkeAddresses.ParentOfRecoveredIndex | pkg/cloudprovider/oke/oke.go:1271-1350 | deriving from a recovered index gives the address back, if and only if the formula accepts the network |
| OkeAddresses.NicsGetDistinctAddresses | pkg/cloudprovider/oke/oke.go:1293-1330 | two NICs on one subnet get the same parent, and the same child, if and only if the host is the same and the indexes differ by a multiple of what wraps around 64 bits; for indexes that are not negative, if and only if host and index are the same |
| OkeAddresses.ChildRangeHoldsAllIndexes | pkg/cloudprovider/oke/oke.go:1293-1330 | a range holds all 16 indexes for every host if and only if it is at least 4 bits shorter than the subnet |
| OkeAddresses.EveryNicIsServed | pkg/cloudprovider/oke/oke.go:1293-1330 | with OCA and child ranges at least 4 bits shorter than the subnet, masked, allowed and sharing no address with each other or the subnet, derivation succeeds for every host and all 16 indexes |
| OkeAddresses.DefaultRangesServe | pkg/cloudprovider/oke/oke.go:96-102 | so the default ranges serve every host of every subnet from /16 on that is clear of them |
| OkeAddresses.DerivesWhen | pkg/cloudprovider/oke/oke.go:1293-1330 | derivation succeeds if and only if the index is below 16, the ranges are masked, allowed and share no address, the child range is no smaller than the subnet and the NIC's place is in both |
| OkeAddresses.DerivedAddressesAre | pkg/cloudprovider/oke/oke.go:1271-1330 | parent and child are the first address of their range plus index times subnet size plus the host's place in the subnet |
| OkeAddresses.OverlapsWhen | pkg/cloudprovider/oke/oke.go:1278-1311 | networks overlap if and only if some address is in both |
| OkeAddresses.ContainsWhen | pkg/cloudprovider/oke/oke.go:1254-1265 | a masked network contains the addresses from its own on, as many as its length leaves |

## Left out

- The memory-only store (no checkpointer), the pod network namespace and the last-activity time, schema migration and the wait for pods at stop.
- JSON and bbolt encodings: the checkpoint is a transactional map with a lossless codec.
- Netlink, namespaces, ethtool, eBPF, RDMA, DHCP leases and host routes in device preparation: one nondeterministic success or failure between resolution and commit; a passthrough interface may gain addresses there.
- Configuration validation: only that a subinterface with DHCP is rejected; other rejections are among the nondeterministic failures.
- Scalar fields of the configuration merge, and slices shared between layers: only the four lists are modelled.
- Interleavings inside one call: preparations and unpreparations are taken one after another; crashes fall between any two steps.
- The OKE and Alibaba providers' own profile methods: the lifecycle models the allocating provider as GCE has it.
- Hashes: the interface identifier is any eight bytes, and stable identifier generation is not modelled.
- IPv4 or invalid prefixes in `Autoconfigure`: the parser yields IPv6 prefixes only; zones are not modelled.
- Socket reads and hardware-address checks around the packet codec, provider metadata, flags, metrics and inventory attributes.
- Reserved counts near MaxInt64 in `IPRangeFromCIDR`, where the addition would wrap.
