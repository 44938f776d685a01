# A model of libnl's hard parts and of the HSR wait list

This project models the parts of the vendored, locally patched libnl in which state, arithmetic and
protocol interact, and the wait list of the HSR daemon, and proves properties of them with Dafny 4.11.
`dafny verify dfyconfig.toml` checks everything.

| file | what it models |
|---|---|
| `Lookup3.dfy` | Jenkins' lookup3 as libnl uses it: the mixing steps, the three alignment-specific loops, `nl_hash_any` |
| `Objects.dfy`, `ObjectTypes.dfy` | object identity, difference and filters from `oo_compare` and the id attributes; addresses; HSR nodes, inet-diag messages and the id attributes of neighbours as concrete types |
| `Caches.dfy` | reference-counted objects, the chained hash table, the cache with its list, count and index |
| `CacheRuns.dfy` | runs of NEW and DEL messages, change callbacks, the request loop and sweep of a resynchronisation |
| `CacheWorld.dfy`, `CacheProgram.dfy` | each call among any number of caches and objects; any run of calls of a program that counts its references |
| `Attributes.dfy`, `MessageBuilder.dfy` | the attribute stream, its parser and policies; building attribute trees in place in a message |
| `LocalPorts.dfy` | the 1024-bit map of local ports, the two modular walks, sockets and `nl_connect` |
| `Receive.dfy` | `recvmsgs`, `nl_complete_msg` and `nl_wait_for_ack`: the sequence protocol over datagrams (RFC 3549, sections 2.3.2 and 2.3.2.2) |
| `Mpls.dfy` | the text form of an MPLS label stack (RFC 3032, section 2.1) |
| `Flags.dfy` | flag words as comma separated names |
| `WaitList.dfy` | the HSR daemon's wait list under link and configuration events |
| `Arithmetic.dfy`, `CStrings.dfy`, `Errors.dfy`, `Wrappers.dfy` | division by a known quotient; NUL-terminated buffers; error codes; `Option` |

Code that changes things in place is a method over a class or an array, proved against a function
of the old state; what the source promises is then proved about that function for all inputs, or is
an invariant every method keeps. Code made of expressions is functions and lemmas.

## Main results

- **One hash.** The 32-bit, 16-bit and byte-wise branches of `hashlittle` all compute one fold over
  12-byte blocks with a zero-padded tail, so the hash and the second word never depend on alignment.
  `mix` and `final` are bijections, hence two keys of equal length that differ in one block only,
  tail included, never meet in the internal state. The published hash of a known text comes out.
- **List and index agree.** Every cache operation keeps list, table and count in exact agreement;
  lookup by hash returns what the linear scan returns; `nl_cache_find`'s fast path returns what the
  filter scan returns if and only if the scan finds nothing or an object with the filter's own id
  attributes, which with static id attributes is always so.
- **The cache is a map.** Any run of NEW and DEL messages is the fold of insert and delete on a map
  from identity classes. Every callback of a run, of either kind, is truthful when it is made, and
  replaying them leaves an observer that agrees with the cache in every attribute of every identity,
  also over a resynchronisation and its deletions. After a successful resynchronisation each older
  undelivered object has gone with one callback, and the cache is, as a map, the fold of the
  delivered messages over the empty map if and only if no message met both an old object and one
  delivered before: so in every cache without two identical objects.
- **References are conserved** over any run of calls on any number of caches: every object's count
  is what the program holds, plus its list, plus its table, plus one for each move that clashed,
  which `nl_cache_move` loses; an object is freed exactly when nothing of that is left.
- **Attribute trees round-trip** through the builder and the walk: whichever containers are ended
  with `nla_nest_end` and which with `nla_nest_end_keep_empty`, the message walks back to the tree
  with the empty ones of the first kind pruned at every level, and to the whole tree if and only if
  there are none. The build succeeds exactly when every container fits its length field and the
  buffer has the room that takes. All padding of the message is zero. Parsing what was built finds the
  last attribute of each type with its content, searching the first, and it is accepted exactly when
  every content meets its policy. For any byte stream the walk ends, stays inside and does not overlap.
- **Ports.** Both walks visit everything once from every start; the allocator fails exactly when all
  1024 bits are set, and otherwise takes the free number the walks come to first. `nl_connect` returns
  the error of exactly the step that failed, after six attempts with ports of its own, or as many as
  are free. Over any run of calls the set bits are exactly the ports of sockets without
  `NL_OWN_PORT`, and no release can hit an unset bit.
- **Sequence numbers.** With a peer that answers in order and polite callbacks, `recvmsgs` never
  reports a mismatch and the distance of the two numbers is always the number of unfinished requests.
  With callbacks that let it through, a whole multipart reply is read exactly to its end, and the
  result says how it ended: with any callbacks for errors, truncated errors, overruns, interrupted dumps
  and ends, the result is the one they decide. The loop body follows one table of callbacks.
- **Texts round-trip**, through the buffer they are printed to: MPLS stacks exactly when the parser
  has room for the labels, flag words exactly when each printed mask is wholly set (always, for
  single-bit masks). Labels may also be written in other bases, and names in any case.
- **Wait list.** Over any run of events there is at most one node per interface, and each link event
  takes at most one node and keeps the order. The bits for missing slaves are exact throughout a run
  if and only if no link that a node then waits for comes or goes without `new_link` or
  `link_deleted`: so as long as no HSR link, and no link that is not Ethernet, is a slave.

## Where the code does less than it seems to promise

- `nla_put` truncates `nla_len` to 16 bits: a payload reads back if and only if it has at most 65531
  bytes (`MessageBuilder.PutReadsBackIff`).
- When `nla_put` truncates the length, the padding it zeroes is not the attribute's: the attribute's own
  padding keeps what the buffer held (`MessageBuilder.ReservedPadding`).
- Cancelling a container restores the aligned length, which may exceed the length before it was
  opened by up to three bytes. The padding that `_nest_end` reserves is not zeroed there.
- `nl_cache_move` leaves an extra reference behind exactly when it returns `-NLE_EXIST`
  (`Caches.Cache.Move`). List links stay stale after `nl_list_del`, so the tests in `nl_cache_add`
  and `nl_cache_move` for being listed do not mean membership (field `listed`).
- The fast path of `nl_cache_find` can miss an object the filter scan returns when id attributes
  depend on the object: for neighbours, exactly when the first match is a bridge entry that differs
  from the filter in being the device's own, or is one and differs in providing destination or VLAN
  (`ObjectTypes.NeighMatchFoundIff`, `ObjectTypes.NeighFastPathMisses`).
- An HSR node without a second address is never identical to one that has it.
- `nl_addr_cmp` does not compare the prefix lengths of two addresses without bytes (`Objects.AddrCmpZero`).
- The sequence count needs the two callbacks that run before it, `NL_CB_MSG_IN` and
  `NL_CB_SEQ_CHECK`, to let the end of every reply pass: an end is counted if and only if both do
  (`Receive.EndCountedIff`), and a skipped end makes the next reply a mismatch
  (`Receive.SkippedEndDesynchronises`). NOOP and OVERRUN messages are counted like the end of a reply.
- An ACK does not reset `multipart`, so `recvmsgs` reads on behind the ACK of a multipart reply (`Receive.AckReadsOn`);
  `nl_wait_for_ack` stops there.
- `__flags2str` takes its flags as an `int`, which is sign-extended against the 64-bit masks: with bit 31
  set it also prints rows above bit 31, exactly when such a row stands before the row of bit 31
  (`Flags.HighRowsPrintedIff`, for single-bit masks).
- A container that `nla_nest_end` strips still needs room for its header while it is open, so a
  message can fail to build although its final form fits (`Room` in `MessageBuilder.BuildMessage`).
- In an unhashed cache, `nl_cache_resync` replaces one identical object for each delivery, old ones
  first. If the cache holds two identical objects and their identity is delivered twice, as after an
  interrupted dump, two are left (`CacheRuns.TwoOldLeaveTwo`, `CacheRuns.ArrivedAloneIff`).
- `mpls_ntop1` fails without terminating the buffer when the buffer ends just after a separator.
- `link_changed_released` does not look at the bits for missing slaves, so it can try an interface
  over a deleted slave (`WaitList.ReleasedIgnoresMissing`): exactly when the node it takes is not the
  one `new_link` would take for the same link (`WaitList.ReleasedOverPresentSlavesIff`).
- The schema allows any interface as a slave (confdb-hsr/data/angtel-hsr.yang:19-25), and `main_check` looks
  slaves up whatever their kind, but only Ethernet links that are not HSR links reach `new_link` and
  `link_deleted`. A node with an HSR link as a slave keeps its bits when that link goes or comes
  (`WaitList.HsrSlaveGoesUnnoticed`), and the daemon can try an interface over the very HSR link whose
  deletion it was just told (`WaitList.HsrDeletedTakesItsOwn`): exactly when the node taken names it
  (`WaitList.HsrDeletedCreatesOverPresentIff`). Links that are not Ethernet are ignored altogether.
- `libnl-master/include/netlink/hash.h:17` tests only whether `__LITTLE_ENDIAN` is defined, which it is on every host
  with `endian.h`, so `hashlittle` is always the one used.

## Model

| member | source | states |
|---|---|---|
| Lookup3.MixBijective | libnl-master/lib/hash.c:102-110 | `mix` has an explicit two-sided inverse, so it is a bijection on triples of words |
| Lookup3.FinalBijective | libnl-master/lib/hash.c:137-146 | the same for `final` |
| Lookup3.RoundInverse | libnl-master/lib/hash.c:102-110 | each line of `mix` can be undone, whatever the rotation |
| Lookup3.StepInverse | libnl-master/lib/hash.c:137-146 | each line of `final` can be undone |
| Lookup3.MixWords | libnl-master/lib/hash.c:102-110 | the statements of the macro, one word after another, are the six rounds that MixBijective inverts |
| Lookup3.FinalWords | libnl-master/lib/hash.c:137-146 | the statements of the macro are the seven steps that FinalBijective inverts |
| Lookup3.HashWords | libnl-master/lib/hash.c:185-250 | the 32-bit branch, with its loop and its tail switch, computes the fold over zero-padded 12-byte blocks, both words |
| Lookup3.HashHalves | libnl-master/lib/hash.c:252-297 | the 16-bit branch computes the same fold |
| Lookup3.HashBytes | libnl-master/lib/hash.c:299-345 | the byte-wise branch computes the same fold |
| Lookup3.HashLittle | libnl-master/lib/hash.c:176-345 | for every key, length and seed the result and the second word are the fold, whatever the address of the key |
| Lookup3.HashAny | libnl-master/lib/hash.c:477-483 | `nl_hash_any` is the first word of the fold, whatever the address |
| Lookup3.TailWords | libnl-master/lib/hash.c:200-250 | the masked word loads of the tail add the zero-padded rest of the key |
| Lookup3.TailHalves | libnl-master/lib/hash.c:267-297 | the half-word loads of the tail add the zero-padded rest of the key |
| Lookup3.AbsorbInjective | libnl-master/lib/hash.c:190-198 | blocks that differ lead from one state to different states |
| Lookup3.AbsorbKeepsDifference | libnl-master/lib/hash.c:190-198 | different states stay different over the same block |
| Lookup3.DigestKeepsDifference | libnl-master/lib/hash.c:176-345 | different states stay different over any same rest of the key, `final` included |
| Lookup3.OneBlockApart | libnl-master/lib/hash.c:176-345 | keys of equal length that differ in one block only end in different internal states |
| Lookup3.KnownHashes | libnl-master/lib/hash.c:176-345 | the two words for the key "Four score and seven years ago", two blocks and a half |
| Lookup3.EmptyHash | libnl-master/lib/hash.c:176-183 | the words for the empty key and any seed |
| Lookup3.HashOfZeros | libnl-master/lib/hash.c:176-345 | the hash of thirteen zero bytes |
| Errors.Numbers | libnl-master/include/netlink/errno.h:13-47 | the numbers of the error codes |
| LocalPorts.BlockWalkVisitsEachOnce | libnl-master/lib/socket.c:77-91 | from every start the walk by 7 modulo 31 visits each of the 32 blocks at exactly one step, block 0 last |
| LocalPorts.BitWalkVisitsEachOnce | libnl-master/lib/socket.c:93-96 | from every start the walk by 13 modulo 32 tries each bit at exactly one step |
| LocalPorts.FindClearBit | libnl-master/lib/socket.c:93-98 | in a word that is not full the inner walk ends at a clear bit |
| LocalPorts.BlocksUsed | libnl-master/lib/socket.c:77-91 | when the outer walk finds every block full, all 1024 bits are set |
| LocalPorts.FirstFree | libnl-master/lib/socket.c:77-98 | the free number found is the one the two walks come to first |
| LocalPorts.Process.GenerateLocalPort | libnl-master/lib/socket.c:60-114 | 0 iff all bits are set and then nothing changes; else exactly one clear bit is set, the first on the two walks from the new index state, and the port carries its number over the process id, with 1024 for number zero of process id zero; a number below 32 only when all others are used |
| LocalPorts.Process.TakeBit | libnl-master/lib/socket.c:93-98 | in a block that is not full exactly one clear bit is set, the first on its walk |
| LocalPorts.Process.ReleaseLocalPort | libnl-master/lib/socket.c:116-132 | clears exactly the bit of a port that is set; the `BUG_ON` conditions are its precondition |
| LocalPorts.Process.ReleaseAll | libnl-master/lib/socket.c:134-149 | clears exactly the bits given, all of which were set |
| LocalPorts.UsedPortsSet | libnl-master/lib/socket.c:151-166 | adds exactly the number of the port to the set put aside |
| LocalPorts.Process.UsedAreOwned | libnl-master/lib/socket.c:331-350 | in every valid state the set bits are exactly the numbers of the sockets without `NL_OWN_PORT`, all distinct |
| LocalPorts.Process.AllocSocket | libnl-master/lib/socket.c:174-192 | a new socket owns no port and the accounts stay valid |
| LocalPorts.Process.FreeSocket | libnl-master/lib/socket.c:237-250 | freeing gives the port back when libnl chose it, and no release fails |
| LocalPorts.Process.GetLocalPort | libnl-master/lib/socket.c:358-383 | returns the socket's port, choosing one if there is none; 0 only when all numbers are used; accounts kept |
| LocalPorts.Process.SetLocalPort | libnl-master/lib/socket.c:397-403 | the old port goes back if libnl chose it, the new one is the socket's; accounts kept |
| LocalPorts.Process.SetLocalPortNoRelease | libnl-master/lib/socket.c:331-350 | the socket takes a fresh number or none, while rejected numbers stay put aside |
| LocalPorts.Process.TryPort | libnl-master/lib/nl.c:138-160 | a port is taken iff not all are used; it is kept, or put aside when the address is in use |
| LocalPorts.Process.TryOnce | libnl-master/lib/nl.c:130-160 | one turn of the retry loop: it goes on exactly when the port is in use, ends without a port after six or when none is free, and puts every rejected port aside |
| LocalPorts.Process.BindFreshPort | libnl-master/lib/nl.c:125-162 | the loop tries own ports until one is bound or fails otherwise than by being in use, but six at most and no more than are free; then none is kept; every rejected port is given back |
| LocalPorts.Process.BindAndName | libnl-master/lib/nl.c:125-203 | all attempts to bind but the last found the address in use; the last one or the name read back decides the result: 0, the error of that step, or `-NLE_EXIST`; the accounts are kept on every path |
| LocalPorts.Process.Connect | libnl-master/lib/nl.c:97-211 | `nl_connect` returns the error of the step that failed: socket, buffer, the last attempt to bind, or the name; 0 iff none did; a socket without a port tries six of its own, or all that are free, before it leaves the choice to the kernel; it keeps the accounts always and closes the descriptor on error |
| LocalPorts.Process.AdoptDescriptor | libnl-master/lib/socket.c:609-688 | `nl_socket_set_fd`: the result is that of the first check that fails, in order; on success the descriptor, its port and protocol are the socket's and a port libnl chose goes back; on every error nothing changes |
| LocalPorts.Process.CloseSocket | libnl-master/lib/nl.c:224-232 | `nl_close`: no descriptor and no protocol any more, and the port stays |
| LocalPorts.Process.ProtocolOf | libnl-master/lib/socket.c:652-680 | the descriptor's protocol is taken iff it is detected and not contradicted, or undetectable and given |
| LocalPorts.Process.Run | libnl-master/lib/socket.c:116-166 | after any run of alloc, free, get, set, connect, set-descriptor and close exactly the sockets allocated and not freed are there and the accounts are valid, so no `BUG_ON` has fired |
| Attributes.WalkStaysInside | libnl-master/lib/attr.c:142-171 | in any byte stream every attribute the walk visits lies inside the stream, and it ends at most 3 bytes past it |
| Attributes.WalkDoesNotOverlap | libnl-master/lib/attr.c:142-171 | each attribute starts at or after the padded end of the one before |
| Attributes.WalkFollowsOffsets | libnl-master/include/netlink/attr.h:312-327 | what the recursive walk returns is what stands at the visited offsets, in order |
| Attributes.TlvReads | libnl-master/lib/attr.c:103-128 | length, type with and without its flag bits, and payload of an encoded attribute read back wherever it stands |
| Attributes.WalkOfEncode | libnl-master/include/netlink/attr.h:312-327 | walking the wire form of any tree that fits gives that tree, after any aligned prefix |
| Attributes.ItemOfEncode | libnl-master/lib/attr.c:1014-1029 | a nested attribute reads back as the tree it encodes |
| Attributes.WireExample | libnl-master/lib/attr.c:450-514 | the bytes of a leaf of one byte, and of a container around it |
| Attributes.EncodeIsZeroPadded | libnl-master/lib/attr.c:467-468 | all padding in the wire form of a tree is zero, at every level |
| Attributes.OffsetsOfEncode | libnl-master/include/netlink/attr.h:312-327 | the walk over the wire form of a list visits its elements in order, each with its type and content |
| Attributes.FixedSizes | libnl-master/lib/attr.c:173-180 | what a policy without limits asks of each kind of payload |
| Attributes.Validate | libnl-master/lib/attr.c:182-215 | zero iff the type is beyond the checked ones or the payload meets its policy; `-NLE_RANGE` only for a length out of bounds, `-NLE_INVAL` only for a string without its NUL |
| Attributes.NoErrorIffAllMeet | libnl-master/lib/attr.c:288-302 | a stream has no error iff every attribute in it passes its policy |
| Attributes.Parse | libnl-master/lib/attr.c:236-270 | returns the first validation error; on success entry t is the last attribute of type t, and null iff there is none |
| Attributes.ValidateStream | libnl-master/lib/attr.c:288-302 | returns the same first error, so it succeeds iff `nla_parse` with this policy does |
| Attributes.Find | libnl-master/lib/attr.c:317-327 | returns the first attribute of the type, or null iff there is none |
| Attributes.FirstOfIsFirst | libnl-master/lib/attr.c:317-327 | the found offset is in the walk and none before it has the type |
| Attributes.ParsedTree | libnl-master/lib/attr.c:236-270 | the index of a built list: each type leads to the content of its last attribute, and to none iff there is none |
| Attributes.FoundInTree | libnl-master/lib/attr.c:317-327 | searching a built list gives the content of the first attribute of the type, and none iff there is none |
| Attributes.AcceptedTree | libnl-master/lib/attr.c:288-302 | a built list has no error iff the content of every attribute of a checked type meets its policy |
| MessageBuilder.PutReadsBackIff | libnl-master/lib/attr.c:450-514 | what `nla_put` leaves reads back as the same attribute iff the payload has at most 65531 bytes |
| MessageBuilder.ReservedThenPayload | libnl-master/lib/attr.c:450-514 | within 16 bits, reserving and copying leaves header, payload and zero padding, and nothing else changes |
| MessageBuilder.ReservedPadding | libnl-master/lib/attr.c:450-478 | the padding of a reserved attribute is zero if its length fits 16 bits, whatever the buffer held; else it is untouched |
| MessageBuilder.Msg.Reserve | libnl-master/lib/attr.c:450-478 | fails iff negative or too long, changing nothing; else the attribute starts at the aligned end, the length grows by its padded size, and its padding is zero |
| MessageBuilder.Msg.PutAttr | libnl-master/lib/attr.c:494-514 | the error code on each path; on success exactly the wire form is written at the aligned end, and every byte of its padding is zero, or, when the length is truncated, what it was |
| MessageBuilder.Msg.ReserveRoom | libnl-master/lib/msg.c:404-428 | `nlmsg_reserve`: fails iff the padded length does not fit; every byte of the padding is zero |
| MessageBuilder.Msg.NestStart | libnl-master/lib/attr.c:896-907 | an empty attribute with the nested flag at the aligned end, or nothing |
| MessageBuilder.Msg.NestEnd | libnl-master/lib/attr.c:909-977 | patches the length in place; strips an empty container unless told to keep it; cancels one too long for 16 bits with an error |
| MessageBuilder.Msg.NestCancel | libnl-master/lib/attr.c:988-999 | every byte of the container is zero and it is taken off, so that the aligned length is where it started |
| MessageBuilder.NestImage | libnl-master/lib/attr.c:896-977 | opening, filling and patching a container leaves exactly its wire form, whatever was touched behind it meanwhile |
| MessageBuilder.BuildMessage | libnl-master/lib/attr.c:494-514 | a message built from any tree walks back to the tree with the containers pruned that stay empty and are ended with `nla_nest_end`, at every level, and to the tree itself iff none is; all its padding is zero; the build succeeds iff every container fits its length field and the buffer has the room |
| MessageBuilder.BuildAll | libnl-master/lib/attr.c:896-977 | from any message length, building a list leaves the wire form of the pruned list at the aligned end and touches nothing before it or behind the room it takes; it succeeds iff every container fits its length field and the buffer has that room |
| MessageBuilder.FillNest | libnl-master/lib/attr.c:896-977 | the contents and the end of an opened container: the wire form of what is left of it, iff its containers fit and the buffer has the room; earlier bytes stay |
| MessageBuilder.CloseNest | libnl-master/lib/attr.c:909-977 | ending a filled container leaves its wire form, or nothing if it stayed empty and is not kept; it fails iff the contents exceed 16 bits, and earlier bytes stay |
| MessageBuilder.PrunedIsSameIff | libnl-master/lib/attr.c:909-962 | pruning changes a tree iff some container that is not kept is empty; otherwise building takes no more room than the wire form |
| MessageBuilder.PrunedFit | libnl-master/lib/attr.c:909-925 | if every container can be ended, what is left of the tree fits its 16-bit fields at every level |
| MessageBuilder.StartMessage | libnl-master/lib/msg.c:503-525 | `nlmsg_put` with a payload: aligned room for the family header, or failure iff it does not fit |
| MessageBuilder.OpenFillCancel | libnl-master/lib/attr.c:988-999 | in a buffer of any size, a container opened, filled as far as it goes and cancelled restores the aligned length and every earlier byte |
| MessageBuilder.OpenCloseEmpty | libnl-master/lib/attr.c:909-962 | ending an empty container strips it: aligned length and earlier bytes as before |
| Objects.AddrCmpZero | libnl-master/lib/addr.c:581-605 | `nl_addr_cmp` is zero iff both are absent, or family and bytes agree and, unless there are no bytes, the prefix lengths too |
| Objects.MemCmpZero | libnl-master/lib/addr.c:594-601 | the byte comparison is zero iff the bytes are equal |
| Objects.MemCmpFirst | libnl-master/lib/addr.c:594-601 | otherwise it is the difference of the first bytes that differ |
| Objects.AddrCmpOrder | libnl-master/lib/addr.c:581-605 | what decides the sign: null pointers, family, length, bytes, prefix length |
| Objects.ObjectOps.IdentityIsEquivalence | libnl-master/lib/object.c:307-345 | `nl_object_identical` is reflexive, symmetric and transitive when the comparer is built over equivalences |
| Objects.ObjectOps.NoDiffIsEquivalence | libnl-master/lib/object.c:359-367 | so is a zero `nl_object_diff64` |
| Objects.ObjectOps.CompareEmpty | libnl-master/include/netlink-private/object-api.h:204-260 | the difference mask is empty iff no attribute asked for and known mismatches in presence or value |
| Objects.ObjectOps.DiffTells | libnl-master/lib/object.c:359-367 | a difference contains exactly the attributes of the type that one object has, or that both have and that compare as different |
| Objects.ObjectOps.NoDiffIffAgree | libnl-master/lib/object.c:359-367 | there is none iff the objects agree in every attribute of the type |
| Objects.ObjectOps.IdentityTells | libnl-master/lib/object.c:307-345 | identity for declared, undeclared and computed id attributes, attribute by attribute |
| Objects.ObjectOps.MatchTells | libnl-master/lib/object.c:403-412 | an object matches a filter iff it has each attribute of the filter and none compares as different |
| Objects.ObjectOps.IdenticalIffMatching | libnl-master/lib/object.c:307-412 | a filter that carries exactly its own id attributes is identical to exactly those matches that provide the same id attributes |
| Objects.ObjectOps.IdFilterMatchesIdentical | libnl-master/lib/object.c:403-412 | a filter that carries exactly the static id attributes of a type that ignores the loose flag on them matches exactly the identical objects |
| Objects.ObjectOps.IdFilterExact | libnl-master/lib/object.c:403-412 | among types with static ids that ignore the loose flag on them, it does so for all objects iff the type declares any id attributes |
| ObjectTypes.HnodeOps | libnl-master/lib/genl/hsr_node.c:638-652 | the HSR node type compares by equivalences and is not hashed |
| ObjectTypes.HnodeIdentity | libnl-master/lib/genl/hsr_node.c:68-91 | two nodes are identical iff they provide the same id attributes and agree on them |
| ObjectTypes.HnodeDiff | libnl-master/lib/genl/hsr_node.c:68-91 | the difference of two nodes, attribute by attribute |
| ObjectTypes.HnodeMatches | libnl-master/lib/genl/hsr_node.c:68-91 | when a node matches a filter, attribute by attribute |
| ObjectTypes.AgeDiffers | libnl-master/lib/genl/hsr_node.c:68-91 | a node heard of again with another age is identical and differs in that age alone |
| ObjectTypes.DifferIsApartness | libnl-master/lib/idiag/idiag_msg_obj.c:860-891 | comparing attributes as addresses, bytes or numbers is the negation of an equivalence |
| ObjectTypes.IdiagKeygen | libnl-master/lib/idiag/idiag_msg_obj.c:894-929 | the key is below the table size and does not depend on where the hashed bytes lie |
| ObjectTypes.KeyLayout | libnl-master/lib/idiag/idiag_msg_obj.c:893-928 | where family, address hashes and ports stand in the thirteen bytes hashed |
| ObjectTypes.KeyOfNothing | libnl-master/lib/idiag/idiag_msg_obj.c:893-928 | the key of a message without attributes |
| ObjectTypes.IdiagDiff | libnl-master/lib/idiag/idiag_msg_obj.c:860-891 | the difference of two messages, attribute by attribute |
| ObjectTypes.IdiagIdentity | libnl-master/lib/idiag/idiag_msg_obj.c:860-891 | two messages are identical iff they provide the same of family, ports and addresses and agree on those |
| ObjectTypes.IdiagOps | libnl-master/lib/idiag/idiag_msg_obj.c:932-950 | the inet-diag type is lawful: it compares by equivalences and hashes identical objects alike |
| ObjectTypes.IdenticalKeysAgree | libnl-master/lib/idiag/idiag_msg_obj.c:860-929 | identical messages whose absent id attributes are clean have the same key |
| ObjectTypes.MadeIsAnnounced | libnl-master/lib/idiag/idiag_msg_obj.c:172-825 | in a message made by any sequence of allocating, parsing, setting and cloning the mask names exactly the fields set, so absent id attributes are clean |
| ObjectTypes.MadeKeysAgree | libnl-master/lib/idiag/idiag_msg_obj.c:860-929 | any two identical messages so made have the same key, for every table size |
| ObjectTypes.NeighIdsTell | libnl-master/lib/route/neigh.c:310-325 | the id attributes of the three kinds of neighbours, by number |
| ObjectTypes.NeighDiff | libnl-master/lib/route/neigh.c:258-290 | the difference of two neighbours, attribute by attribute |
| ObjectTypes.CloneIsCopy | libnl-master/lib/idiag/idiag_msg_obj.c:620-667 | cloning such a message copies data and mask, although the clone callback clears and rebuilds the bits of the pointers |
| ObjectTypes.ParsedTells | libnl-master/lib/idiag/idiag_msg_obj.c:681-825 | which attributes a parsed message has |
| ObjectTypes.ParsedValues | libnl-master/lib/idiag/idiag_msg_obj.c:681-825 | and with which values |
| ObjectTypes.ChangedTells | libnl-master/lib/idiag/idiag_msg_obj.c:172-619 | setting an attribute changes its value and its bit and nothing else |
| ObjectTypes.ClonedTells | libnl-master/lib/idiag/idiag_msg_obj.c:620-667 | cloning keeps all values, and the bits but for pointers that are null |
| ObjectTypes.NeighMatchFoundIff | libnl-master/lib/route/neigh.c:258-323 | a neighbour that matches a fast-path filter provides the filter's id attributes iff it is no bridge entry, or agrees with it in being the device's own and then in providing destination and VLAN |
| ObjectTypes.NeighFastPathMisses | libnl-master/lib/route/neigh.c:310-323 | a filter made with the setters that matches a device's own parsed bridge entry without being identical to it |
| Caches.Obj.Get | libnl-master/lib/object.c:198-203 | one reference more, held by the caller |
| Caches.Obj.Release | libnl-master/lib/object.c:209-223 | one reference less; the object is freed iff it was the last, and then it is on no cache |
| Caches.Obj.Clone | libnl-master/lib/object.c:104-139 | a fresh object with the same data, one reference and no cache |
| Caches.HashTable.Lookup | libnl-master/lib/hashtable.c:81-97 | the first identical object in the chain of the key |
| Caches.HashTable.Add | libnl-master/lib/hashtable.c:112-142 | fails iff an identical object is in the chain; else the object is in front of its chain with one reference more |
| Caches.HashTable.Del | libnl-master/lib/hashtable.c:156-185 | unlinks the first identical node of the chain, or fails iff there is none; the reference dropped is one to the argument, whichever object the node was for |
| Caches.BucketLookupIsLinearScan | libnl-master/lib/cache.c:1115-1131 | when the chains index the list, the lookup by hash is the linear scan |
| Caches.IndexAfterAdd | libnl-master/lib/hashtable.c:131-142 | the chains index the list again after both took the object |
| Caches.IndexAfterDel | libnl-master/lib/hashtable.c:156-185 | the chains index the list again after both lost the object |
| Caches.FoundIsUnique | libnl-master/lib/cache.c:1115-1131 | in a list without identical pairs the identical object is the only one |
| Caches.FirstMatchIsFirst | libnl-master/lib/cache.c:1160-1166 | the filter scan returns the first match |
| Caches.RemoveAtKeepsOrder | libnl-master/include/netlink/list.h:45-49 | removing one object keeps the order of the others |
| Caches.LookupIsMatchScanIff | libnl-master/lib/cache.c:1149-1169 | for a filter with exactly its own id attributes, the identity lookup gives what the filter scan gives iff the scan finds nothing or an object with these id attributes |
| Caches.Cache.Link | libnl-master/lib/cache.c:436-457 | appends and indexes, or fails with `-NLE_EXIST` iff a hashed cache has an identical object; list, table and count stay in agreement |
| Caches.Cache.Add | libnl-master/lib/cache.c:481-504 | adds the object or, if it is listed, a clone; the caller's handles do not change on any path |
| Caches.Cache.Move | libnl-master/lib/cache.c:524-540 | leaves the old cache for this one; the caller is left one reference too many iff the result is `-NLE_EXIST` |
| Caches.Cache.Unlink | libnl-master/lib/cache.c:552-576 | the object leaves list and table, the cache's references go, the others keep their order |
| Caches.Cache.Remove | libnl-master/lib/cache.c:552-576 | nothing for an object on no cache; else the object leaves its cache, and the caller's handles stay |
| Caches.Cache.Clear | libnl-master/lib/cache.c:368-376 | the cache is empty and every former member is left to its handles |
| Caches.Cache.Search | libnl-master/lib/cache.c:1115-1131 | the identical object that the scan finds, with one handle more, hashed or not |
| Caches.Cache.Find | libnl-master/lib/cache.c:1149-1169 | the fast path's result is the filter scan's iff the scan finds nothing or an object with the filter's id attributes; with static ids always |
| Caches.Cache.Include | libnl-master/lib/cache.c:789-862 | NEW replaces the identical object or appends, DEL removes it, other actions change nothing; the inner move never fails; the callbacks made and all references are stated |
| Caches.Cache.PickupCheckdup | libnl-master/lib/cache.c:716-733 | always succeeds: the identical object goes and the new one, or a clone of it when it has been on a list, is appended; handles unchanged |
| CacheRuns.StepView | libnl-master/lib/cache.c:789-862 | seen as a map from identity classes, one message is an insert or a delete |
| CacheRuns.RunIsMapFold | libnl-master/lib/cache.c:789-862 | any run of messages is the fold of inserts and deletes, and no identical pair arises |
| CacheRuns.StepReplay | libnl-master/lib/cache.c:823-854 | the callbacks of one message, of either kind, keep an observer and the cache without a difference |
| CacheRuns.ReplayReconstructs | libnl-master/lib/cache.c:823-854 | replaying the callbacks of any run, of either kind, rebuilds the cache up to a zero difference |
| CacheRuns.ReplayAgrees | libnl-master/lib/cache.c:823-854 | so after any run the observer has the identities of the cache, with every attribute present or absent alike and comparing equal |
| CacheRuns.RunTruthful | libnl-master/lib/cache.c:823-854 | over any run, each callback names an object the observer lacks if new, has if changed or deleted, and exactly the attributes that differ if changed |
| CacheRuns.ResyncReplays | libnl-master/lib/cache.c:916-977 | replaying the callbacks of a resynchronisation, deletions included, turns an observer of the old cache into one of the new |
| CacheRuns.IncludeNext | libnl-master/lib/cache.c:789-862 | the method takes the step of the run and makes its callbacks, and leaves the messages to come alone |
| CacheRuns.RunMessages | libnl-master/lib/cache.c:904-914 | a whole run through `cache_include` is the run as a function, list and callbacks |
| CacheRuns.RemainingAreUndelivered | libnl-master/lib/cache.c:962-970 | of a cache without two identical objects, the old ones left over are exactly those no message was identical to |
| CacheRuns.NewsGoBehind | libnl-master/lib/cache.c:916-977 | with NEW messages only, whatever the cache held, the old objects not replaced stay in front, and behind them stands what the messages bring |
| CacheRuns.RemainAndArrive | libnl-master/lib/cache.c:916-977 | what remains are old objects, what arrives are delivered ones |
| CacheRuns.ArrivedAloneIff | libnl-master/lib/cache.c:789-862 | what the messages bring is what they alone would have built from nothing iff none of them meets both an identical old object and one delivered before |
| CacheRuns.ProperMeetsOne | libnl-master/lib/cache.c:789-862 | none does when the cache holds no two identical objects, as a hashed one never does |
| CacheRuns.DistinctMeetsOne | libnl-master/lib/cache.c:789-862 | none does when no two of the delivered objects are identical, whatever the cache held |
| CacheRuns.TwoOldLeaveTwo | libnl-master/lib/cache.c:789-862 | two identical old objects and their identity delivered twice: two are left where the messages alone leave one |
| CacheRuns.MarkAll | libnl-master/lib/cache.c:1178-1187 | every object of the cache is marked and nothing else changes |
| CacheRuns.Sweep | libnl-master/lib/cache.c:962-970 | exactly the marked objects go, in order, with one callback each |
| CacheRuns.Pump | libnl-master/lib/cache.c:940-960 | the request loop delivers the messages of all dumps, interrupted ones included, and ends with the first error or after the last group |
| CacheRuns.Resync | libnl-master/lib/cache.c:916-977 | for any cache: on success it holds what the delivered messages bring, which is what they alone build, and as a map their fold over the empty map, later objects winning, iff none meets an old object and one delivered before; each undelivered old object goes with one callback; on error it is the old cache after the messages so far |
| CacheWorld.Move | libnl-master/lib/cache.c:524-540 | among any number of caches: which lists change and the result code; all caches stay in order, and every handle count stays, but for one more on a clash |
| CacheWorld.Add | libnl-master/lib/cache.c:481-504 | the result code, what is appended (the object or a clone the cache alone holds), all other lists and all handles unchanged, and all caches in order |
| CacheWorld.Remove | libnl-master/lib/cache.c:552-576 | the object leaves whichever cache it is on, all other lists and all handles unchanged, and all caches in order |
| CacheWorld.Clear | libnl-master/lib/cache.c:368-376 | the cache is empty, all other lists and all handles unchanged, and all caches in order |
| CacheWorld.Search | libnl-master/lib/cache.c:1115-1131 | the scan's result with one handle more; all lists unchanged and all caches in order |
| CacheWorld.Find | libnl-master/lib/cache.c:1149-1169 | what either path returns, with one handle more on it; all lists unchanged and all caches in order |
| CacheWorld.Include | libnl-master/lib/cache.c:789-862 | `cache_include` among any number of caches: list, callbacks and the list the object came from; every handle count stays and all caches stay in order |
| CacheWorld.PickupCheckdup | libnl-master/lib/cache.c:716-733 | the same for `pickup_checkdup_cb`, which always succeeds |
| CacheWorld.NewObject | libnl-master/lib/object.c:48-69 | a new object has one reference, its caller's |
| CacheWorld.NewCache | libnl-master/lib/cache.c:184-216 | a new cache is empty and apart from the others |
| CacheWorld.Release | libnl-master/lib/object.c:209-223 | the caller's put frees the object iff no handle and no cache holds it, so no cached object is freed |
| CacheWorld.TakeAnother | libnl-master/lib/object.c:198-203 | one handle more for its holder, all caches in order |
| CacheWorld.OthersInOrder | libnl-master/lib/cache.c:481-576 | whatever a call does not touch stays in order: caches, and objects with their references |
| CacheProgram.CreateObject | libnl-master/lib/object.c:48-69 | a new object and the program's one reference to it; the books balance |
| CacheProgram.CreateCache | libnl-master/lib/cache.c:184-216 | a new empty cache; the books balance |
| CacheProgram.Handle | libnl-master/lib/object.c:198-223 | getting and removing any live object, and putting one the program holds, change its hold as they do the handles; the books balance |
| CacheProgram.Enter | libnl-master/lib/cache.c:481-504 | what is appended by an add or a pickup, and when nothing is; the books balance, and a clone owes the program nothing |
| CacheProgram.Relocate | libnl-master/lib/cache.c:524-540 | moving: the list, and one reference lost exactly when the move clashes; the books balance |
| CacheProgram.Refill | libnl-master/lib/cache.c:789-862 | including and clearing: the list; the books balance |
| CacheProgram.Look | libnl-master/lib/cache.c:1086-1169 | searching and finding: the object and one reference more to give back; the books balance |
| CacheProgram.Lend | libnl-master/lib/cache.c:114-150 | looking at an object of a cache gives the program no reference and leaves everything as it is |
| CacheProgram.HeldIsAlive | libnl-master/lib/object.c:209-223 | an object the program holds a reference to is not freed |
| CacheProgram.Run | libnl-master/lib/cache.c:481-576 | after any run of calls by a program on any number of caches, with objects it holds or only looked up, every object's count is what the program holds, plus its list and table, plus its clashing moves; it is freed iff all of that is zero; what it holds follows the calls one by one |
| Receive.DataPasses | libnl-master/lib/nl.c:869-1012 | with polite callbacks a data message of the expected reply goes on to the next message and is not counted |
| Receive.LastCounts | libnl-master/lib/nl.c:869-902 | the message that ends the expected reply is counted, whatever the loop does then |
| Receive.EndCountedIff | libnl-master/lib/nl.c:850-1013 | over the whole datagram that ends a reply, the end is counted iff the message-in and the sequence callback let its last message pass |
| Receive.HandleFollowsTable | libnl-master/lib/nl.c:866-1009 | for every message and callbacks the loop body goes where one table says: the first callback due that does not return OK, or is due and not set and has a default, decides |
| Receive.HandleCounts | libnl-master/lib/nl.c:892-935 | when a message counts, announces more, notes an interrupted dump, and ends a multipart reply, in terms of the table |
| Receive.MismatchesIff | libnl-master/lib/nl.c:883-890 | a datagram is left with `-NLE_SEQ_MISMATCH` iff a message of it fails the check with no callback to ask, when nothing else makes that code |
| Receive.ReportsMismatchIff | libnl-master/lib/nl.c:821-1039 | and so is that the result of `recvmsgs`, unless an interrupted dump hides it |
| Receive.SkippedEndDesynchronises | libnl-master/lib/nl.c:869-902 | a skipped end of reply makes the next request's reply a mismatch |
| Receive.TakeMessage | libnl-master/lib/nl.c:866-1009 | the loop body, statement by statement, changes expected number, multipart and interrupted and leaves as its specification says, for every combination of callbacks |
| Receive.StrictOrdering | libnl-master/lib/nl.c:877-890 | with no callback to ask, a datagram of data is left with `-NLE_SEQ_MISMATCH` iff auto-ack is on and a message carries another number |
| Receive.PartIsRead | libnl-master/lib/nl.c:850-1013 | with callbacks that return OK, or OK or SKIP for valid messages, a datagram of data is taken whole |
| Receive.EndIsRead | libnl-master/lib/nl.c:850-1013 | a datagram that ends the reply is taken whole, counted once, and leaves with the error if there is one |
| Receive.WholeReplyIsRead | libnl-master/lib/nl.c:821-1039 | with no callback for errors or interrupted dumps, and others that let messages through, a multipart reply ended by DONE or an error is read to its end and no further; the result is the number of messages, the error, or `-NLE_DUMP_INTR` if any message reported it |
| Receive.DumpIsRead | libnl-master/lib/nl.c:821-1039 | a dump of two datagrams and the acknowledgement of the next request, without callbacks: the number of messages, the next number, and the acknowledgement left |
| Receive.ReachesMessage | libnl-master/lib/nl.c:821-1039 | with all before it let through, any message of any datagram is reached with everything before it counted, and the result is decided there |
| Receive.ReplyEndsWith | libnl-master/lib/nl.c:938-1007 | the result of a reply ended by an error, whole or truncated, an overrun, DONE or data, under any callback for it: the callback's error, the kernel's, the loop's own, or the number of messages |
| Receive.ReplyGoesOn | libnl-master/lib/nl.c:938-1025 | when a callback waves an error or overrun through, reading goes on iff more was announced, else the number of messages is the result |
| Receive.InterruptionEnds | libnl-master/lib/nl.c:911-922 | a callback for interrupted dumps that stops or fails decides the result |
| Receive.AckReadsOn | libnl-master/lib/nl.c:1022-1025 | after an ACK the loop goes on to read iff a message had announced a multipart reply |
| Receive.TakeDatagram | libnl-master/lib/nl.c:850-1013 | the loop over the messages of a datagram is their fold, up to the first that leaves it |
| Receive.ReceiveKeepsCount | libnl-master/lib/nl.c:821-1039 | with a peer that answers in order `recvmsgs` never mismatches, and expected number plus unfinished replies is unchanged modulo 2^32 |
| Receive.ReplyAppends | libnl-master/lib/nl.c:475-493 | a reply to the next request behind the outstanding ones keeps them in order, also across the wrap of the number |
| Receive.AckEndsTheWait | libnl-master/lib/nl.c:1101-1128 | an ACK that no callback for its own flags skips or fails ends `nl_wait_for_ack` at its own datagram, even in a reply announced as multipart |
| Receive.Sock.constructor | libnl-master/lib/socket.c:174-192 | both sequence numbers start equal, with no request unfinished |
| Receive.Sock.Request | libnl-master/lib/nl.c:475-493 | the request takes the next number, and one more reply is unfinished |
| Receive.Sock.ReadDatagrams | libnl-master/lib/nl.c:836-1039 | the reading loop returns, expects and leaves what the fold over the arrived datagrams says |
| Receive.Sock.RecvMsgs | libnl-master/lib/nl.c:821-1039 | next minus expected number stays the number of unfinished replies modulo 2^32, and no mismatch is reported |
| Receive.Sock.WaitForAck | libnl-master/lib/nl.c:1114-1128 | a positive count becomes 0, and the numbers stay in step |
| Mpls.Ntop | libnl-master/lib/mpls.c:14-44 | succeeds iff the text and its NUL fit; the buffer then holds the text up to the first bottom entry, else as much of it as fits |
| Mpls.Snprintf | libnl-master/lib/mpls.c:24-24 | what the C library's `snprintf` of one number leaves: cut to the room, with a NUL if there is any |
| Mpls.Turn | libnl-master/lib/mpls.c:20-40 | one turn of the loop extends the text in the buffer by a label and separator, ends it, or runs out of room |
| Mpls.Pton | libnl-master/lib/mpls.c:58-91 | the size and entries of the parsed stack, or 0; entries behind it are untouched |
| Mpls.StrtoulReads | libnl-master/lib/mpls.c:67-67 | `strtoul` with base 0 reads back a printed label and stops at the separator, zero and its octal form included |
| Mpls.PrefixedNumbers | libnl-master/lib/mpls.c:67-67 | it reads hexadecimal numbers behind 0x or 0X and octal ones behind 0, up to the next other character |
| Mpls.SignedNumbers | libnl-master/lib/mpls.c:67-67 | one character of white space is skipped, a minus sign negates modulo 2^64, and too large a number is cut |
| Mpls.TwoLabelsPrinted | libnl-master/lib/mpls.c:14-44 | the text of a stack of labels 16 and 3 |
| Mpls.TwoLabelsParsed | libnl-master/lib/mpls.c:58-91 | the same stack from a text with a hexadecimal label, and none when there is room for one label only |
| Mpls.ParseOfText | libnl-master/lib/mpls.c:14-91 | parsing a printed stack gives its labels and bottom bits, other fields zero, iff there is room for the labels |
| Mpls.ParseIsNormal | libnl-master/lib/mpls.c:58-91 | every accepted text gives a stack with one bottom entry, and printing and parsing it again changes nothing |
| Mpls.PrintAndParse | libnl-master/lib/mpls.c:14-91 | printing to a buffer and parsing what it holds up to its NUL gives the labels and bottom bits back iff text and labels fit |
| Mpls.DecimalDigits | libnl-master/lib/mpls.c:24-24 | "%u" prints digits that denote the number, without a leading zero unless it is zero |
| Flags.FlagsToString | libnl-master/lib/utils.c:1039-1057 | the buffer holds the names of the rows met by the sign-extended flags, cut to leave a NUL, and NUL from there on |
| Flags.StringToFlags | libnl-master/lib/utils.c:1100-1125 | the union over the comma separated pieces of all rows named like the piece, ignoring case and one leading space |
| Flags.ParseOfNames | libnl-master/lib/utils.c:1039-1125 | parsing the text of a flag word gives the masks printed, also with a trailing comma for unknown bits |
| Flags.RoundTripIff | libnl-master/lib/utils.c:1039-1125 | the round trip gives the known bits iff every mask printed is wholly set in the flags |
| Flags.RoundTrip | libnl-master/lib/utils.c:1039-1125 | so with single-bit masks it always does |
| Flags.ParsedSurvives | libnl-master/lib/utils.c:1039-1125 | printing and parsing again changes nothing in what was parsed from any string |
| Flags.PrintAndParse | libnl-master/lib/utils.c:1039-1125 | printing to a buffer and parsing what it holds: when the text fits, the known bits come back iff every printed mask is wholly set |
| Flags.NamedOne | libnl-master/lib/utils.c:1113-1116 | a name denotes its own row's bits only |
| Flags.NamesAreJoined | libnl-master/lib/utils.c:1039-1057 | the text is the names of the rows met by what earlier rows left of the sign-extended flags, joined by commas, with one behind the last iff bits are left |
| Flags.SameInCapitals | libnl-master/lib/utils.c:1113-1116 | names are the same iff they are in capitals |
| Flags.CaseIsIgnored | libnl-master/lib/utils.c:1100-1125 | a list in capitals means the same |
| Flags.OneSpaceIsSkipped | libnl-master/lib/utils.c:1108-1110 | one space before a piece is skipped, a second is part of the name |
| Flags.SpacedList | libnl-master/lib/utils.c:1100-1125 | pieces may be separated by a comma and a space |
| Flags.VlanFlagsSurvive | libnl-master/lib/route/link/vlan.c:639-644 | a table of the library meets the conditions of the round trip, and its bits survive |
| Flags.HighRowsPrintedIff | libnl-master/lib/utils.c:1039-1057 | with single-bit masks, rows above bit 31 change the text iff the flags have bit 31 and such a row stands before the row of bit 31 |
| WaitList.StepKeepsAccurateIff | confdb-hsr/src/wait_list.c:117-298 | an event keeps the bits for missing slaves exact for the links after it iff no node left waits for a link that came or went without `new_link` or `link_deleted` |
| WaitList.LinksTell | confdb-hsr/src/handlers.c:82-126 | which events make a link exist or cease to |
| WaitList.RunAccurateIff | confdb-hsr/src/handlers.c:82-126 | over any run of events whose lookups agree with the links, the bits are exact throughout iff no awaited link comes or goes unheard; HSR links and those that are not Ethernet are unheard |
| WaitList.RunKeepsUnique | confdb-hsr/src/wait_list.c:88-298 | every run of events keeps at most one node per interface |
| WaitList.RunKeepsTidy | confdb-hsr/src/wait_list.c:88-298 | as long as no HSR link and no link that is not Ethernet is configured as a slave, every run keeps unique nodes and exact bits; slave names differ, as confdb-hsr/data/angtel-hsr.yang:25 demands |
| WaitList.LinkEventsKeepOrder | confdb-hsr/src/wait_list.c:102-298 | a link event takes at most one node, the first fit one, and the others keep their order |
| WaitList.LinkEventKeepsAccurate | confdb-hsr/src/wait_list.c:117-298 | `new_link` and `link_deleted` keep the bits for missing slaves exact for the links after them; the other link events leave them exact for the links before |
| WaitList.CheckKeepsAccurate | confdb-hsr/src/apply_conf.c:352-396 | a configuration change replaces the interface's node and queues it with exact bits |
| WaitList.QueuedBits | confdb-hsr/src/apply_conf.c:223-251 | a node is queued with the bit of a slave iff the lookup found none |
| WaitList.QueuedTells | confdb-hsr/src/apply_conf.c:211-350 | when a node is not queued, what is returned, and which slaves it is queued with as busy |
| WaitList.ConfiguredTells | confdb-hsr/src/apply_conf.c:352-396 | the interface's old node goes, the others keep their order, the new one is queued last |
| WaitList.NewLinkTells | confdb-hsr/src/wait_list.c:117-156 | bit by bit, what a new link does to the nodes that stay |
| WaitList.LinkDeletedTells | confdb-hsr/src/wait_list.c:158-173 | the same for a deleted link |
| WaitList.ReleasedTells | confdb-hsr/src/wait_list.c:175-220 | for a released link: nothing if a node is found, else it is no longer busy |
| WaitList.BusyTells | confdb-hsr/src/wait_list.c:222-238 | for a link that is taken |
| WaitList.ReleasedByHsrTells | confdb-hsr/src/wait_list.c:240-260 | for a link released by an HSR link |
| WaitList.HsrDeletedTells | confdb-hsr/src/wait_list.c:262-298 | for a deleted HSR link |
| WaitList.NewLinkTakes | confdb-hsr/src/wait_list.c:117-156 | which node a new link takes: the first that waits for it and whose other slave exists and is free |
| WaitList.ReleasedTakes | confdb-hsr/src/wait_list.c:175-220 | which one a released link takes |
| WaitList.HsrDeletedTakes | confdb-hsr/src/wait_list.c:262-298 | which one a deleted HSR link takes: the first of its own with both slaves free, else the first such |
| WaitList.NoneTaken | confdb-hsr/src/wait_list.c:102-298 | none is taken when the interface is not created, or by other events |
| WaitList.NewLinkCreatesOverPresent | confdb-hsr/src/wait_list.c:117-156 | an interface tried for a new link has both slaves |
| WaitList.HsrDeletedCreatesOverPresentIff | confdb-hsr/src/wait_list.c:262-298 | one tried when an HSR link went has both slaves iff neither is that link |
| WaitList.HsrDeletedTakesItsOwn | confdb-hsr/src/wait_list.c:262-298 | a list with exact bits on which the deletion of an HSR link makes the daemon try an interface over that link |
| WaitList.HsrSlaveGoesUnnoticed | confdb-hsr/src/handlers.c:82-103 | a run in which the deletion of an HSR link leaves its bit wrong in the node it is a slave of |
| WaitList.ReleasedOverPresentSlavesIff | confdb-hsr/src/wait_list.c:117-220 | the node a released link takes has both slaves iff it meets the test of `new_link`, that is, iff `new_link` would take it |
| WaitList.ReleasedIgnoresMissing | confdb-hsr/src/wait_list.c:175-220 | a released link can make the daemon try an interface over a deleted slave |
| WaitList.HsrModule.NewLink | confdb-hsr/src/wait_list.c:117-156 | the first ready node is tried, and the link's bits for missing slaves go from all nodes |
| WaitList.HsrModule.LinkDeleted | confdb-hsr/src/wait_list.c:158-173 | the link's slaves become missing and not busy in all nodes |
| WaitList.HsrModule.Released | confdb-hsr/src/wait_list.c:175-220 | the first node whose other slave is not busy ends the search; without one the busy bits go |
| WaitList.HsrModule.GotBusy | confdb-hsr/src/wait_list.c:222-238 | the link's slaves become busy in all nodes |
| WaitList.HsrModule.HsrAppeared | confdb-hsr/src/handlers.c:105-126 | a new HSR link makes its slave's bits busy in all nodes, and nothing else happens |
| WaitList.HsrModule.ReleasedByHsr | confdb-hsr/src/wait_list.c:240-260 | the master's nodes wait for it to go, and the link's slaves are not busy |
| WaitList.HsrModule.HsrDeleted | confdb-hsr/src/wait_list.c:262-298 | the interface's own node is tried if its slaves are free, else the first node with free slaves |
| WaitList.HsrModule.DeleteNode | confdb-hsr/src/wait_list.c:88-100 | takes the interface's node off the list, and tells whether there was one |
| WaitList.HsrModule.CreateHif | confdb-hsr/src/wait_list.c:102-115 | the node leaves the list iff the interface was created |
| WaitList.HsrModule.MainCheck | confdb-hsr/src/apply_conf.c:211-350 | which bits the node is queued with, or that it is not, and the returned value, on every branch |
| WaitList.HsrModule.InitialCheck | confdb-hsr/src/apply_conf.c:352-396 | the new list and the returned value of a configuration change |
| WaitList.HsrModule.Deconfigure | confdb-hsr/src/handlers.c:195-213 | a waiting node goes only when the kernel had no interface by that name |

## Left out

- `hashbig`, which is never selected (libnl-master/include/netlink/hash.h:17-23); a little-endian host is modelled.
- `oo_update` merging: the map, replay and resynchronisation results are for types without it.
- Allocation failure, thread locks, and callbacks that re-enter a cache.
- Objects whose attributes change while they are on a cache: an object's data is a constant.
- `nl_cache_refill` on unhashed caches, cache managers, subsets and clones of whole caches.
- List links and hash chains are sequences; `ce_list` keeps only whether it still looks linked. Attribute masks, flag words and status bits are sets of bit numbers, bitmap words are sequences of 32 bits.
- `memcmp` is taken to return the difference of the first two bytes that differ.
- The clock, the process id, and the answers of `socket`, `bind`, `getsockname`, `nl_recv` and of the kernel to HSR requests are parameters.
- Message header fields other than the length when building; the split of received bytes into messages by `nlmsg_ok` and `nlmsg_next`: a datagram is a sequence of messages.
- Receive callbacks are functions of the message. A message carries its payload and a serial number, so a callback with a state of its own is one of these functions on any one run.
- The resynchronisation callback is `change_cb`; the request of a dump and its parsing are the script of replies.
- `strtoul` is modelled with a 64-bit `unsigned long`; C strings are the characters before their NUL.
- Inet-diag memory, vegas, TCP and congestion information is compared as opaque bytes; its comparison as nested objects is not modelled.
- The accuracy of `SLAVEk_BUSY` and `HSR_STILL_EXISTS`: `link_changed_released` skips the reset once a candidate is met, and one branch of `main_check` queues a node without busy bits, so they do not mirror the links.
- The list of interfaces kept by `change_interface_list`, logging, confdb and JSON handling.
- netfilter, fib_lookup, idiag getters and setters, unit helpers, `inet_pton`-based address parsing, command-line tools and dump functions: input and output, or easy members only.
