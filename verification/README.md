# UPF

A Dafny model of the user plane function that free5GC vendors in this repository: the PFCP codec and
transactions, the resource layer they stand on (ring pools, size-class buffers, a resizing hash table,
circular lists and timers), the session and rule tables, downlink packet buffering, and address lists.

`dafny verify dfyconfig.toml` checks the whole project.  Each module follows one part of the program:

- **Prelude**: optional values, network octets, distinct sequences.
- **Codec**: the recursive type-length-value parser and builder over a schema tree, proved equal to
  functions on values; round trips in both directions with their exact conditions.
- **Packet**: the PFCP header around a body, written and read back.
- **HashTable**: chained buckets relinked in place, refining a finite map; iteration that survives both
  relinking and deletion of the current entry.
- **Pool**: ring free lists with and without numbered objects.
- **Buffers**: eleven size classes, owners of blocks, and byte buffers that grow.  The ghost map `owner`
  says for every block in use which buffer or caller answers for it, so the invariant covers every run:
  a block is free or has exactly one owner.
- **PacketFifo**: framed packets in a growing buffer and their exactly-once drain, on top of Buffers.
- **LinkedList**, **TimerTheory**, **Timers**: circular doubly linked lists, the expiry check on
  sequences, and the check and the other operations on the linked lists.
- **Xact**: one transaction as an object, an exchange as a history, and runs of events.
- **RuleTables**, **Sessions**: identifiers, nodes, per-session lists, node pools, session keys and
  packet slots that must agree over every run.  The hash tables are used as the finite maps that
  HashTable refines, and the intrusive lists as sequences.
- **AddressList**: singly linked lists sorted, filtered and copied by relinking.

Invariants over every run are stated as the `Valid()` predicate of a class, which every operation keeps,
or as a lemma over a sequence of events.  Choices made elsewhere are parameters: the clock (`now`), the
result of a kernel call (`kernel`), of a conversion (`converted`) or of a match rule (`compiled`), whether a
buffer was had (`room`, `slotRoom`) and whether the network took a packet (`sendOk`).  A send is an
entry in a log.  A write or read through a null pointer is the out-parameter `faulted`; the run ends there.

## What the proofs found

These hold of the code and differ from what one might expect; each has its exact condition below.

- The parser fills the first free slot of a type, so a message in which an absent slot precedes a present
  one of the same type does not survive a round trip (`Codec.RoundTrip`, `Codec.ValueMovesForward`).
- An element that claims more octets than its group has is read beyond the group (`Codec.GroupOverrun`).
- A request whose size wraps around in 32 bits can be granted a block that is too small (`Buffers.ServesIff`,
  `Buffers.WrappedRequest`, `Buffers.GrowthServesIff`).
- The expiry check never ends when an overdue periodic timer is re-armed past 2^32
  (`TimerTheory.TerminatesIffNoWrap`, `TimerTheory.ChecksForEver`).
- A packet that the send buffer cannot take is sent as a bare header (`PacketFifo.WholeIffTakesAll`,
  `PacketFifo.BareHeader`).
- A session added under a key in use hides the earlier one, which `UpfSessionRemoveAll` then leaves behind;
  all dual-stack sessions of one network share a key (`Sessions.AddRegisteredIff`, `Sessions.OrphanStays`,
  `Sessions.SameKeyIff`).
- An unsupported PDN type costs a place in the session pool (`Sessions.UpfContext.SessionAdd`).
- Dropping a session's packets takes its slots away, and a later send for the session meets a PDR without
  one (`Sessions.DropTakesSlots`, `Sessions.SendAfterDrop`).
- The address sort can leave an address of another family between two preferred ones (`AddressList.SortGroupsIff`,
  `AddressList.SortMixes`).

## Model

| member | source | states |
|---|---|---|
| Codec.TlvParseMessage | experiments/5G_experiment/images/f5gc-base/f5gc-upf-fixed/lib/pfcp/src/pfcp_message.c:194-240 | the parsing loops compute exactly the slot-by-slot meaning of the octets, including a read past the end of memory, for every schema |
| Codec.TlvBuildMessage | experiments/5G_experiment/images/f5gc-base/f5gc-upf-fixed/lib/pfcp/src/pfcp_message.c:377-444 | building one element gives exactly the header and body of its value, at every nesting depth |
| Codec.PfcpBuildBody | experiments/5G_experiment/images/f5gc-base/f5gc-upf-fixed/lib/pfcp/src/pfcp_message.c:446-467 | the body of a message is the concatenation of its built elements, in slot order |
| Codec.RoundTrip | experiments/5G_experiment/images/f5gc-base/f5gc-upf-fixed/lib/pfcp/src/pfcp_message.c:377-467 | parsing built octets gives back exactly the values, whatever follows in memory, if and only if no absent slot is followed, after absent slots only, by a present slot of the same type |
| Codec.ValueMovesForward | experiments/5G_experiment/images/f5gc-base/f5gc-upf-fixed/lib/pfcp/src/pfcp_message.c:199-237 | a concrete message of two slots of one type comes back with its value in the first slot |
| Codec.ParseOfBuild | experiments/5G_experiment/images/f5gc-base/f5gc-upf-fixed/lib/pfcp/src/pfcp_message.c:194-240 | packed values survive building and parsing at every depth |
| Codec.ParseIsPacked | experiments/5G_experiment/images/f5gc-base/f5gc-upf-fixed/lib/pfcp/src/pfcp_message.c:199-237 | whatever the octets, a parse result fits the schema and is packed |
| Codec.FramedParse | experiments/5G_experiment/images/f5gc-base/f5gc-upf-fixed/lib/pfcp/src/pfcp_message.c:199-237 | well-framed octets always parse inside their own region; the result builds into at most as many octets, and into the same ones if and only if every level was consumed |
| Codec.ParseBuildParse | experiments/5G_experiment/images/f5gc-base/f5gc-upf-fixed/lib/pfcp/src/pfcp_message.c:199-237 | on well-framed octets parsing, building and parsing again gives the first result |
| Codec.BuildParseExact | experiments/5G_experiment/images/f5gc-base/f5gc-upf-fixed/lib/pfcp/src/pfcp_message.c:418-439 | building what was parsed gives back the same octets if and only if the parser consumed every level to its end |
| Codec.BuiltSize | experiments/5G_experiment/images/f5gc-base/f5gc-upf-fixed/lib/pfcp/src/pfcp_message.c:391-443 | the size of what is built is the sum of the sizes of its elements |
| Codec.GroupLengthField | experiments/5G_experiment/images/f5gc-base/f5gc-upf-fixed/lib/pfcp/src/pfcp_message.c:416-439 | the length field of a group equals the total size of its encoded children if and only if that size fits 16 bits |
| Codec.ElementLayout | experiments/5G_experiment/images/f5gc-base/f5gc-upf-fixed/lib/pfcp/src/pfcp_message.c:377-444 | an element is its type and the length of its body, both high octet first, and the body |
| Codec.CutShort | experiments/5G_experiment/images/f5gc-base/f5gc-upf-fixed/lib/pfcp/src/pfcp_message.c:199-237 | a message cut short anywhere is never parsed: the parser runs into the end of memory |
| Codec.GroupOverrun | experiments/5G_experiment/images/f5gc-base/f5gc-upf-fixed/lib/pfcp/src/pfcp_message.c:199-237 | a concrete group whose last element claims more octets than the group has is read beyond the group |
| Codec.BuiltIsFramed | experiments/5G_experiment/images/f5gc-base/f5gc-upf-fixed/lib/pfcp/src/pfcp_message.c:377-467 | what is built from packed values is framed and consumed at every level |
| Packet.PacketRoundTrip | experiments/5G_experiment/images/f5gc-base/f5gc-upf-fixed/lib/pfcp/src/pfcp_message.c:253-273 | the packet made for a message parses back to its version, type, length, identifier and body, and to its session identifier for session messages, all cut to their fields |
| Packet.PacketExactIff | experiments/5G_experiment/images/f5gc-base/f5gc-upf-fixed/lib/pfcp/src/pfcp_xact.c:342-365 | identifier, length and body come back unchanged if and only if they fit 24 bits and 16 bits |
| Packet.MessageRoundTrip | experiments/5G_experiment/images/f5gc-base/f5gc-upf-fixed/lib/pfcp/src/pfcp_message.c:253-279 | a message structure built into a packet is read back as the same structure under the same type |
| Packet.PacketLayout | experiments/5G_experiment/images/f5gc-base/f5gc-upf-fixed/lib/pfcp/src/pfcp_xact.c:342-365 | the octets of a stored packet: version and flag, type, length, sequence number and body at their places, with a session identifier from type 50 on |
| Packet.SeidLayout | experiments/5G_experiment/images/f5gc-base/f5gc-upf-fixed/lib/pfcp/src/pfcp_xact.c:353-357 | the session identifier stands in octets 4 to 11, highest first |
| Packet.HeaderFields | experiments/5G_experiment/images/f5gc-base/f5gc-upf-fixed/lib/pfcp/src/pfcp_message.c:253-273 | every field read from any received packet is the number at its place |
| HashTable.HashfuncDefault | experiments/5G_experiment/images/f5gc-base/f5gc-upf-fixed/lib/utlt/src/utlt_hash.c:130-148 | the loops compute the times-33 hash of the key octets modulo 2^32; a key without a length ends before its first zero octet |
| HashTable.HashTogether | experiments/5G_experiment/images/f5gc-base/f5gc-upf-fixed/lib/utlt/src/utlt_hash.c:130-148 | the hash of a key in two parts is that of the second part seeded with that of the first; one octet is added to 33 times the seed |
| HashTable.MaskIsRemainder | experiments/5G_experiment/images/f5gc-base/f5gc-upf-fixed/lib/utlt/src/utlt_hash.c:173 | masking with 2^k - 1 is the remainder by 2^k, so every hash selects an existing bucket |
| HashTable.Hash.constructor | experiments/5G_experiment/images/f5gc-base/f5gc-upf-fixed/lib/utlt/src/utlt_hash.c:17-32 | a new table stands for the empty map and has 16 buckets |
| HashTable.Hash.Scan | experiments/5G_experiment/images/f5gc-base/f5gc-upf-fixed/lib/utlt/src/utlt_hash.c:163-181 | the search stops at the entry of the key if and only if there is one, else at the end of its chain |
| HashTable.Hash.Insert | experiments/5G_experiment/images/f5gc-base/f5gc-upf-fixed/lib/utlt/src/utlt_hash.c:183-196 | a new entry is linked at the end of its chain; the table stays well filed |
| HashTable.Hash.FindEntry | experiments/5G_experiment/images/f5gc-base/f5gc-upf-fixed/lib/utlt/src/utlt_hash.c:163-197 | an entry is created if and only if the key is new and a value is given; otherwise nothing changes |
| HashTable.Hash.Unlink | experiments/5G_experiment/images/f5gc-base/f5gc-upf-fixed/lib/utlt/src/utlt_hash.c:214-219 | exactly the entry pointed at leaves its chain and the count drops by one |
| HashTable.Hash.HashGet | experiments/5G_experiment/images/f5gc-base/f5gc-upf-fixed/lib/utlt/src/utlt_hash.c:199-206 | the value that the map has for the key, if it has one |
| HashTable.Hash.HashSet | experiments/5G_experiment/images/f5gc-base/f5gc-upf-fixed/lib/utlt/src/utlt_hash.c:208-231 | storing and deleting act on the map exactly at the key, across resizing; the count is at most the mask afterwards |
| HashTable.Hash.HashGetOrSet | experiments/5G_experiment/images/f5gc-base/f5gc-upf-fixed/lib/utlt/src/utlt_hash.c:233-246 | the present value is returned, or the new one stored, and the map changes only at a new key |
| HashTable.FlatOfFiling | experiments/5G_experiment/images/f5gc-base/f5gc-upf-fixed/lib/utlt/src/utlt_hash.c:61-71 | iteration order lists every entry once |
| HashTable.Hash.SeekChain | experiments/5G_experiment/images/f5gc-base/f5gc-upf-fixed/lib/utlt/src/utlt_hash.c:63-68 | the skip over empty buckets finds the next nonempty chain and loses no entry |
| HashTable.Hash.HashNext | experiments/5G_experiment/images/f5gc-base/f5gc-upf-fixed/lib/utlt/src/utlt_hash.c:61-71 | each step visits the first of the entries still to be visited, and ends only when there are none |
| HashTable.Hash.HashFirst | experiments/5G_experiment/images/f5gc-base/f5gc-upf-fixed/lib/utlt/src/utlt_hash.c:73-83 | iteration starts on the first entry of all, with the others still to come |
| HashTable.Hash.Relink | experiments/5G_experiment/images/f5gc-base/f5gc-upf-fixed/lib/utlt/src/utlt_hash.c:121-123 | moving the current entry to a new chain leaves everything still to be visited linked as before |
| HashTable.Hash.MoveAll | experiments/5G_experiment/images/f5gc-base/f5gc-upf-fixed/lib/utlt/src/utlt_hash.c:120-124 | the loop over the chains it takes apart moves every entry exactly once, to the bucket its hash selects |
| HashTable.FilingAfterMove | experiments/5G_experiment/images/f5gc-base/f5gc-upf-fixed/lib/utlt/src/utlt_hash.c:113-128 | after the move every entry sits in the bucket selected by the doubled mask and the keys are unchanged |
| HashTable.Hash.ExpandArray | experiments/5G_experiment/images/f5gc-base/f5gc-upf-fixed/lib/utlt/src/utlt_hash.c:113-128 | doubling the buckets keeps the table valid, with mask 2^(k+1) - 1 and the same entry objects |
| HashTable.Hash.DeleteCurrent | experiments/5G_experiment/images/f5gc-base/f5gc-upf-fixed/lib/utlt/src/utlt_hash.c:252-256 | deleting the entry under the iterator leaves what is still to be visited unchanged |
| HashTable.Hash.RemoveWhere | experiments/5G_experiment/images/f5gc-base/f5gc-upf-fixed/src/n4/n4_pfcp_handler.c:1441-1452 | a loop that deletes selected entries as it goes visits every entry exactly once and removes exactly the selected keys |
| HashTable.Hash.HashClear | experiments/5G_experiment/images/f5gc-base/f5gc-upf-fixed/lib/utlt/src/utlt_hash.c:252-256 | clearing ends with the empty map and count 0 |
| Pool.SegmentPop | experiments/5G_experiment/images/f5gc-base/f5gc-upf-fixed/lib/utlt/include/utlt_pool.h:35-37 | taking from the front of the ring removes the first element of the modular segment |
| Pool.SegmentPush | experiments/5G_experiment/images/f5gc-base/f5gc-upf-fixed/lib/utlt/include/utlt_pool.h:49-51 | writing at the end of the ring appends to the modular segment |
| Pool.Count | experiments/5G_experiment/images/f5gc-base/f5gc-upf-fixed/lib/utlt/include/utlt_pool.h:17-18 | free plus held is the capacity; nothing is free if and only if everything is held |
| Pool.AllocConserves | experiments/5G_experiment/images/f5gc-base/f5gc-upf-fixed/lib/utlt/include/utlt_pool.h:32-44 | allocation keeps every object free once or held |
| Pool.FreeConservesIffHeld | experiments/5G_experiment/images/f5gc-base/f5gc-upf-fixed/lib/utlt/include/utlt_pool.h:46-58 | freeing keeps the pool conserved if and only if the object was held or the pool turns it away as full; a held object is never turned away |
| Pool.RunConserves | experiments/5G_experiment/images/f5gc-base/f5gc-upf-fixed/lib/utlt/include/utlt_pool.h:15-59 | over every run that frees only held objects, free and held objects are disjoint, distinct and together the whole pool |
| Pool.RunGrows | experiments/5G_experiment/images/f5gc-base/f5gc-upf-fixed/lib/utlt/include/utlt_pool.h:15-59 | a run grows by one step at its end, and a step that frees may follow if and only if its object is held then |
| Pool.AllocAfterRun | experiments/5G_experiment/images/f5gc-base/f5gc-upf-fixed/lib/utlt/include/utlt_pool.h:32-44 | after every such run allocation fails only when all objects are held, and hands out one that is not |
| Pool.Pool.constructor | experiments/5G_experiment/images/f5gc-base/f5gc-upf-fixed/lib/utlt/include/utlt_pool.h:23-30 | all objects are free, in order |
| Pool.Pool.PoolSize | experiments/5G_experiment/images/f5gc-base/f5gc-upf-fixed/lib/utlt/include/utlt_pool.h:15-18 | the modular difference of the ends is the number of free objects |
| Pool.Pool.PoolAlloc | experiments/5G_experiment/images/f5gc-base/f5gc-upf-fixed/lib/utlt/include/utlt_pool.h:32-44 | the ring arithmetic hands out the first free object, or none if and only if none is free |
| Pool.Pool.PoolFree | experiments/5G_experiment/images/f5gc-base/f5gc-upf-fixed/lib/utlt/include/utlt_pool.h:46-58 | the ring arithmetic appends the object, unless all are free |
| Pool.Index.constructor | experiments/5G_experiment/images/f5gc-base/f5gc-upf-fixed/lib/utlt/include/utlt_index.h:31-42 | every object waits with its own position as its number |
| Pool.Index.IndexAlloc | experiments/5G_experiment/images/f5gc-base/f5gc-upf-fixed/lib/utlt/include/utlt_index.h:44-59 | the object handed out carries its own position as its number, and no other number changes |
| Pool.Index.IndexFree | experiments/5G_experiment/images/f5gc-base/f5gc-upf-fixed/lib/utlt/include/utlt_index.h:61-73 | object and number join the rings together, unless all are free; the pool stays in order if and only if the object was in use or is turned away |
| Pool.Index.SeidFindsItsObject | experiments/5G_experiment/images/f5gc-base/f5gc-upf-fixed/src/upf_context.c:667-674 | a live session is found by its own identifier, and no two live sessions share one |
| Pool.Index.SeidFindsIff | experiments/5G_experiment/images/f5gc-base/f5gc-upf-fixed/src/upf_context.c:672-674 | an identifier leads to a session if and only if it is the session's own up to its high 32 bits |
| Buffers.SelectClass | experiments/5G_experiment/images/f5gc-base/f5gc-upf-fixed/lib/utlt/src/utlt_buff.c:91-120 | the smallest class that holds a size, none above 65536 |
| Buffers.ClassSizes | experiments/5G_experiment/images/f5gc-base/f5gc-upf-fixed/lib/utlt/src/utlt_buff.c:9-56 | the sizes double from 64 to 65536 and a block has four octets more, but for the class of 32768, whose blocks have 36732 |
| Buffers.AskedWraps | experiments/5G_experiment/images/f5gc-base/f5gc-upf-fixed/lib/utlt/src/utlt_buff.c:197-204 | the size asked for is the product as a signed 32-bit number |
| Buffers.HasRoomIff | experiments/5G_experiment/images/f5gc-base/f5gc-upf-fixed/lib/utlt/src/utlt_buff.c:91-120 | a request has room if and only if the smallest class that holds it has a free block |
| Buffers.CanHoldIff | experiments/5G_experiment/images/f5gc-base/f5gc-upf-fixed/lib/utlt/src/utlt_buff.c:293-304 | a buffer can hold more octets if and only if they fit or the class for the enlarged size has a free block |
| Buffers.ClassOfNominal | experiments/5G_experiment/images/f5gc-base/f5gc-upf-fixed/lib/utlt/src/utlt_buff.c:91-120 | the size stored in a buffer selects the class its block came from; doubling it selects the next class |
| Buffers.ServesIff | experiments/5G_experiment/images/f5gc-base/f5gc-upf-fixed/lib/utlt/src/utlt_buff.c:197-204 | a granted block has the requested octets if and only if the request is at most 65536 or still looks too large after 32-bit wrap-around |
| Buffers.WrappedRequest | experiments/5G_experiment/images/f5gc-base/f5gc-upf-fixed/lib/utlt/src/utlt_buff.c:197-204 | a concrete request of 2^31 octets is granted the smallest block |
| Buffers.GrowthServesIff | experiments/5G_experiment/images/f5gc-base/f5gc-upf-fixed/lib/utlt/src/utlt_buff.c:208-209 | a buffer that grows is granted enough room or refused if and only if the new size stays below 2^31; it is granted enough only up to 65536 |
| Buffers.MallocServesIff | experiments/5G_experiment/images/f5gc-base/f5gc-upf-fixed/lib/utlt/src/utlt_buff.c:321-330 | a block from `UTLT_Malloc` has room for the request and its header if and only if the request is at most 65532 |
| Buffers.FreePlusOwned | experiments/5G_experiment/images/f5gc-base/f5gc-upf-fixed/lib/utlt/src/utlt_buff.c:72-89 | in every class the free blocks and the blocks with an owner are together all blocks |
| Buffers.AllocAccounted | experiments/5G_experiment/images/f5gc-base/f5gc-upf-fixed/lib/utlt/src/utlt_buff.c:72-81 | a block handed out had no owner before |
| Buffers.FreeAccounted | experiments/5G_experiment/images/f5gc-base/f5gc-upf-fixed/lib/utlt/src/utlt_buff.c:82-85 | a block given back goes to the pool of its own class, which has room for it |
| Buffers.BufferPools.constructor | experiments/5G_experiment/images/f5gc-base/f5gc-upf-fixed/lib/utlt/src/utlt_buff.c:122-137 | all blocks of the eleven classes, in their numbers, and all 256 descriptors are free |
| Buffers.BufferPools.BufAlloc | experiments/5G_experiment/images/f5gc-base/f5gc-upf-fixed/lib/utlt/src/utlt_buff.c:197-204 | succeeds if and only if the selected class has a free block; on failure nothing changes |
| Buffers.BufferPools.BufFree | experiments/5G_experiment/images/f5gc-base/f5gc-upf-fixed/lib/utlt/src/utlt_buff.c:234-243 | the block goes back to the class it came from; an oversized size is refused |
| Buffers.BufferPools.BufblkAlloc | experiments/5G_experiment/images/f5gc-base/f5gc-upf-fixed/lib/utlt/src/utlt_buff.c:183-195 | descriptor and block are both had or neither is lost |
| Buffers.BufferPools.BufblkResize | experiments/5G_experiment/images/f5gc-base/f5gc-upf-fixed/lib/utlt/src/utlt_buff.c:206-224 | the text moves to the new block, cut to its size, and the old block goes back; on failure nothing at all changes |
| Buffers.BufferPools.TerminatedMeans | experiments/5G_experiment/images/f5gc-base/f5gc-upf-fixed/lib/utlt/src/utlt_buff.c:226-304 | behind the text of a terminated buffer there is a zero, inside its block |
| Buffers.BufferPools.BufblkClear | experiments/5G_experiment/images/f5gc-base/f5gc-upf-fixed/lib/utlt/src/utlt_buff.c:226-232 | the buffer is empty and terminated |
| Buffers.BufferPools.BufblkFree | experiments/5G_experiment/images/f5gc-base/f5gc-upf-fixed/lib/utlt/src/utlt_buff.c:245-252 | block and descriptor go back to their pools |
| Buffers.BufferPools.Reserve | experiments/5G_experiment/images/f5gc-base/f5gc-upf-fixed/lib/utlt/src/utlt_buff.c:293-296 | room is made by moving to a larger class, with the text kept, or nothing changes |
| Buffers.BufferPools.BufblkBytes | experiments/5G_experiment/images/f5gc-base/f5gc-upf-fixed/lib/utlt/src/utlt_buff.c:293-304 | the contents become the old contents followed by the octets, with a terminator, or nothing changes; succeeds if and only if they fit or a larger block is free |
| Buffers.BufferPools.BufblkBuf | experiments/5G_experiment/images/f5gc-base/f5gc-upf-fixed/lib/utlt/src/utlt_buff.c:262-264 | the contents of the other buffer, or of the buffer itself, are appended |
| Buffers.BufferPools.BufblkAppend | experiments/5G_experiment/images/f5gc-base/f5gc-upf-fixed/lib/utlt/src/utlt_buff.c:306-319 | zeros are appended, as many as the 32-bit product says |
| Buffers.BufferPools.Print | experiments/5G_experiment/images/f5gc-base/f5gc-upf-fixed/lib/utlt/src/utlt_buff.c:271-285 | one attempt prints inside the reserved octets and keeps the text if and only if it fits below the size |
| Buffers.BufferPools.BufblkFmt | experiments/5G_experiment/images/f5gc-base/f5gc-upf-fixed/lib/utlt/src/utlt_buff.c:266-291 | the doubling loop terminates; either the whole text is appended or the old contents are kept and the next class has no block |
| Buffers.BufferPools.Malloc | experiments/5G_experiment/images/f5gc-base/f5gc-upf-fixed/lib/utlt/src/utlt_buff.c:321-330 | the block's header names its class; succeeds if and only if the class has a free block |
| Buffers.BufferPools.FreeMalloced | experiments/5G_experiment/images/f5gc-base/f5gc-upf-fixed/lib/utlt/src/utlt_buff.c:343-352 | the header leads the block back to the pool it came from |
| Buffers.OthersUntouched | experiments/5G_experiment/images/f5gc-base/f5gc-upf-fixed/lib/utlt/src/utlt_buff.c:206-319 | an operation on one buffer leaves the text of every other buffer as it was |
| PacketFifo.FramesAppend | experiments/5G_experiment/images/f5gc-base/f5gc-upf-fixed/src/up/up_match.c:410-411 | storing a packet appends its frame to the stored octets |
| PacketFifo.FirstFrame | experiments/5G_experiment/images/f5gc-base/f5gc-upf-fixed/src/up/up_path.c:196-198 | the length read at the start of stored octets cuts off exactly the first stored packet |
| PacketFifo.GtpHeaderReads | experiments/5G_experiment/images/f5gc-base/f5gc-upf-fixed/src/up/up_path.c:180-184 | the header reads back as version 1, packet for the user, the length and the tunnel, highest octet first |
| PacketFifo.DatagramReads | experiments/5G_experiment/images/f5gc-base/f5gc-upf-fixed/src/up/up_path.c:199-202 | a datagram is such a header for its packet followed by the packet |
| PacketFifo.AcceptsFirstIff | experiments/5G_experiment/images/f5gc-base/f5gc-upf-fixed/src/up/up_match.c:397-413 | a first packet of at most 1600 octets is accepted if and only if a descriptor and a 2048-octet block are free; a larger one if and only if the class for the enlarged size has a block too |
| PacketFifo.AcceptsNextIff | experiments/5G_experiment/images/f5gc-base/f5gc-upf-fixed/src/up/up_match.c:404-413 | a further packet is accepted if and only if it fits or the class for the enlarged size has a free block |
| PacketFifo.CanSendIff | experiments/5G_experiment/images/f5gc-base/f5gc-upf-fixed/src/up/up_path.c:193 | the send buffer can be had if and only if a descriptor and a 64-octet block are free |
| PacketFifo.TakesIff | experiments/5G_experiment/images/f5gc-base/f5gc-upf-fixed/src/up/up_path.c:200-201 | the send buffer takes a packet if and only if it fits behind the header or the class for the enlarged size has a free block |
| PacketFifo.ActionSeen | experiments/5G_experiment/images/f5gc-base/f5gc-upf-fixed/src/up/up_match.c:387-424 | in every combination of actions buffering and notifying are seen on their own |
| PacketFifo.WholeIffTakesAll | experiments/5G_experiment/images/f5gc-base/f5gc-upf-fixed/src/up/up_path.c:193-204 | every stored packet is sent whole, in order, once, if and only if the send buffer can take each of them; otherwise a bare header goes out |
| PacketFifo.BareHeader | experiments/5G_experiment/images/f5gc-base/f5gc-upf-fixed/src/up/up_path.c:199-203 | a packet over 960 octets goes out as a bare header whenever the class of 2048 has no free block |
| PacketFifo.UsualPacketsWhole | experiments/5G_experiment/images/f5gc-base/f5gc-upf-fixed/src/up/up_path.c:193-204 | packets up to `MAX_SIZE_OF_PACKET` are all sent whole when each class up to 4096 has a free block |
| PacketFifo.AppendFrame | experiments/5G_experiment/images/f5gc-base/f5gc-upf-fixed/src/up/up_match.c:404-413 | a frame is appended or the stored octets are unchanged |
| PacketFifo.UpfBufPacket.Open | experiments/5G_experiment/images/f5gc-base/f5gc-upf-fixed/src/up/up_match.c:397-402 | a slot gets a buffer for the first packet, or stays without one |
| PacketFifo.UpfBufPacket.Store | experiments/5G_experiment/images/f5gc-base/f5gc-upf-fixed/src/up/up_match.c:397-413 | the packet is appended to the stored ones if and only if a buffer can hold it; what is accepted is what was drained followed by what is stored |
| PacketFifo.SendOne | experiments/5G_experiment/images/f5gc-base/f5gc-upf-fixed/src/up/up_path.c:199-203 | one datagram reaches the socket: the header with the packet's length and tunnel, then the packet if the send buffer takes it; the buffer is empty again |
| PacketFifo.SendAll | experiments/5G_experiment/images/f5gc-base/f5gc-upf-fixed/src/up/up_path.c:193-206 | walking the buffer hands one datagram per stored packet to the socket, in order; it faults if and only if no send buffer can be had |
| PacketFifo.UpfBufPacket.Drain | experiments/5G_experiment/images/f5gc-base/f5gc-upf-fixed/src/up/up_path.c:187-223 | what reaches the socket is added to the slot's log; every accepted packet has then been drained once, the slot is empty, and other buffers are untouched |
| PacketFifo.DrainDelivers | experiments/5G_experiment/images/f5gc-base/f5gc-upf-fixed/src/up/up_path.c:193-206 | a drain keeps it true that entry i of a slot's log is the header for its i-th drained packet under that packet's tunnel, followed by the packet or by nothing |
| PacketFifo.DeliveredAt | experiments/5G_experiment/images/f5gc-base/f5gc-upf-fixed/src/up/up_path.c:193-206 | what a log entry of a slot is: header and packet, or the bare header |
| PacketFifo.UpfBufPacket.SlotMeans | experiments/5G_experiment/images/f5gc-base/f5gc-upf-fixed/src/up/up_path.c:193-223 | over every run: what was accepted is what was drained and what is stored, in order; each drained packet has its entry in the log, whole if every send buffer took its packets; the buffer holds the frames of what is stored |
| PacketFifo.DrainWholeIff | experiments/5G_experiment/images/f5gc-base/f5gc-upf-fixed/src/up/up_path.c:193-206 | a drain keeps it true that the log of a slot holds exactly the drained packets, whole and in order, if and only if in every drain the send buffer could take each of them |
| PacketFifo.HoldsStill | experiments/5G_experiment/images/f5gc-base/f5gc-upf-fixed/src/up/up_match.c:397-413 | a slot keeps its packets when another slot's buffer changes |
| PacketFifo.StoreAmong | experiments/5G_experiment/images/f5gc-base/f5gc-upf-fixed/src/up/up_match.c:397-413 | storing for one PDR leaves the slots of all other PDRs valid, with what they hold |
| PacketFifo.DrainAmong | experiments/5G_experiment/images/f5gc-base/f5gc-upf-fixed/src/up/up_path.c:187-223 | draining for one PDR leaves the slots of all other PDRs valid, with what they hold |
| PacketFifo.PacketInBufferHandle | experiments/5G_experiment/images/f5gc-base/f5gc-upf-fixed/src/up/up_match.c:379-440 | the code, the notification and the accepted packets for every combination of action, slot and room; the slots of all other PDRs stay valid |
| PacketFifo.UpSendPacketByPdrFar | experiments/5G_experiment/images/f5gc-base/f5gc-upf-fixed/src/up/up_path.c:169-230 | packets are drained if and only if the forwarding action has a GTP-U/IPv4 header; a fault if and only if the slot or a needed send buffer is missing; the slots of all other PDRs stay valid |
| LinkedList.ListHead.constructor | experiments/5G_experiment/images/f5gc-base/f5gc-upf-fixed/lib/utlt/include/utlt_list.h:13-16 | a new node is a circle of its own |
| LinkedList.ListInsert | experiments/5G_experiment/images/f5gc-base/f5gc-upf-fixed/lib/utlt/include/utlt_list.h:26-35 | the node is in the circle behind the given one, and the links agree in both directions |
| LinkedList.ListRemove | experiments/5G_experiment/images/f5gc-base/f5gc-upf-fixed/lib/utlt/include/utlt_list.h:49-68 | the circle closes without the node, which becomes a circle of its own |
| LinkedList.SeekPlace | experiments/5G_experiment/images/f5gc-base/f5gc-upf-fixed/lib/utlt/include/utlt_list.h:74-84 | the walk stops behind the last node that the new one does not compare below |
| LinkedList.ListInsertSorted | experiments/5G_experiment/images/f5gc-base/f5gc-upf-fixed/lib/utlt/include/utlt_list.h:73-86 | the new node stands before the first item it compares below |
| TimerTheory.InsertKeepsSorted | experiments/5G_experiment/images/f5gc-base/f5gc-upf-fixed/lib/utlt/src/utlt_timer.c:26-31 | a sorted list stays sorted, and equal expiry times keep insertion order |
| TimerTheory.InsertMembers | experiments/5G_experiment/images/f5gc-base/f5gc-upf-fixed/lib/utlt/src/utlt_timer.c:87 | insertion adds the timer once and loses none |
| TimerTheory.TurnKeepsResult | experiments/5G_experiment/images/f5gc-base/f5gc-upf-fixed/lib/utlt/src/utlt_timer.c:70-91 | each turn takes one overdue timer and does not change what the check ends with |
| TimerTheory.CheckResult | experiments/5G_experiment/images/f5gc-base/f5gc-upf-fixed/lib/utlt/src/utlt_timer.c:64-93 | without wrap-around the check ends after one turn per overdue timer, in the stated lists |
| TimerTheory.TerminatesIffNoWrap | experiments/5G_experiment/images/f5gc-base/f5gc-upf-fixed/lib/utlt/src/utlt_timer.c:70-91 | the check terminates if and only if no overdue periodic timer would be re-armed past 2^32 |
| TimerTheory.ChecksForEver | experiments/5G_experiment/images/f5gc-base/f5gc-upf-fixed/lib/utlt/src/utlt_timer.c:70-91 | a concrete periodic timer for which the check never ends |
| TimerTheory.CheckFires | experiments/5G_experiment/images/f5gc-base/f5gc-upf-fixed/lib/utlt/src/utlt_timer.c:70-91 | exactly the overdue timers fire, once each, in nondecreasing order of expiry |
| TimerTheory.CheckMoves | experiments/5G_experiment/images/f5gc-base/f5gc-upf-fixed/lib/utlt/src/utlt_timer.c:75-88 | afterwards fired periodic timers are active with just a new expiry time, fired one-shots idle, the others where and as they were, and none is lost |
| TimerTheory.RearmKeeps | experiments/5G_experiment/images/f5gc-base/f5gc-upf-fixed/lib/utlt/src/utlt_timer.c:75-88 | a timer that fires again changes in its expiry time alone, computed in 32 bits, and one that stops in its state alone |
| TimerTheory.CheckLeavesNoneOverdue | experiments/5G_experiment/images/f5gc-base/f5gc-upf-fixed/lib/utlt/src/utlt_timer.c:78-85 | both lists stay sorted, re-armed timers expire one duration from now, and no active timer is overdue |
| Timers.TimerList.constructor | experiments/5G_experiment/images/f5gc-base/f5gc-upf-fixed/lib/utlt/src/utlt_timer.c:55-61 | two empty circles |
| Timers.TimerList.Detach | experiments/5G_experiment/images/f5gc-base/f5gc-upf-fixed/lib/utlt/src/utlt_timer.c:99 | the timer leaves the one list it is on; the other list is unchanged |
| Timers.TimerList.Attach | experiments/5G_experiment/images/f5gc-base/f5gc-upf-fixed/lib/utlt/src/utlt_timer.c:103-105 | the timer joins the list that its state names, at its sorted place |
| Timers.TimerList.TimerCreate | experiments/5G_experiment/images/f5gc-base/f5gc-upf-fixed/lib/utlt/src/utlt_timer.c:129-148 | a new timer is idle; without a pool block nothing changes |
| Timers.TimerList.TimerStart | experiments/5G_experiment/images/f5gc-base/f5gc-upf-fixed/lib/utlt/src/utlt_timer.c:95-111 | the timer is active, expires one duration from now in 32-bit time, and the lists stay linked and sorted |
| Timers.TimerList.TimerStop | experiments/5G_experiment/images/f5gc-base/f5gc-upf-fixed/lib/utlt/src/utlt_timer.c:113-127 | a running timer becomes idle; an idle one stays where it is |
| Timers.TimerList.TimerDelete | experiments/5G_experiment/images/f5gc-base/f5gc-upf-fixed/lib/utlt/src/utlt_timer.c:150-159 | the timer is on neither list and its block may be reused |
| Timers.TimerList.FireFirst | experiments/5G_experiment/images/f5gc-base/f5gc-upf-fixed/lib/utlt/src/utlt_timer.c:73-87 | one turn on the linked lists is one turn of the check |
| Timers.TimerList.TimerExpireCheck | experiments/5G_experiment/images/f5gc-base/f5gc-upf-fixed/lib/utlt/src/utlt_timer.c:64-93 | the loop over the linked lists terminates without wrap-around and leaves exactly the stated lists and callbacks |
| Timers.OneListOnly | experiments/5G_experiment/images/f5gc-base/f5gc-upf-fixed/lib/utlt/src/utlt_timer.c:64-159 | no timer is on both lists, and no timer is twice on one |
| Xact.ExchangeGrows | experiments/5G_experiment/images/f5gc-base/f5gc-upf-fixed/lib/pfcp/src/pfcp_xact.c:297-341 | a message continues an exchange if and only if it is its side's turn and it is the request at first and a final message afterwards |
| Xact.PfcpXact.UpdateTx | experiments/5G_experiment/images/f5gc-base/f5gc-upf-fixed/lib/pfcp/src/pfcp_xact.c:279-375 | a packet is recorded if and only if buffers are had and the message continues the exchange; otherwise nothing changes |
| Xact.PfcpXact.UpdateRx | experiments/5G_experiment/images/f5gc-base/f5gc-upf-fixed/lib/pfcp/src/pfcp_xact.c:377-526 | a message is recorded if and only if it continues the exchange; a repeated request is answered again with the stored response |
| Xact.PfcpXact.Commit | experiments/5G_experiment/images/f5gc-base/f5gc-upf-fixed/lib/pfcp/src/pfcp_xact.c:529-628 | sends the packet stored last, or ends the transaction, or refuses, as the position in the exchange says; the stored packet is never missing |
| Xact.ReactionByPosition | experiments/5G_experiment/images/f5gc-base/f5gc-upf-fixed/lib/pfcp/src/pfcp_xact.c:540-620 | a commit sends if and only if this side spoke last, finishes after the final answer, and is refused on an unanswered request |
| Xact.StageIs | experiments/5G_experiment/images/f5gc-base/f5gc-upf-fixed/lib/pfcp/src/pfcp_xact.c:245-277 | exactly the eight requests open an exchange, and exactly the types behind them and the version response continue one |
| Xact.TxRecords | experiments/5G_experiment/images/f5gc-base/f5gc-upf-fixed/lib/pfcp/src/pfcp_xact.c:279-375 | the exact step and type at which a packet is recorded, for both sides, and that nothing else changes |
| Xact.RxRecords | experiments/5G_experiment/images/f5gc-base/f5gc-upf-fixed/lib/pfcp/src/pfcp_xact.c:377-526 | the exact step and type at which a message is recorded, and at which the stored response is sent again |
| Xact.CommitSends | experiments/5G_experiment/images/f5gc-base/f5gc-upf-fixed/lib/pfcp/src/pfcp_xact.c:529-628 | the exact steps at which a commit hands the last recorded packet to the network, ends the transaction, or does nothing |
| Xact.LocalExchange | experiments/5G_experiment/images/f5gc-base/f5gc-upf-fixed/lib/pfcp/src/pfcp_xact.c:279-628 | request, commit, response, commit: the request went out once and the transaction has ended |
| Xact.RemoteExchange | experiments/5G_experiment/images/f5gc-base/f5gc-upf-fixed/lib/pfcp/src/pfcp_xact.c:279-628 | request, response, commit and any repetitions: the response went out once, and once more for each repetition that the network let answer |
| Xact.LargestBody | experiments/5G_experiment/images/f5gc-base/f5gc-upf-fixed/lib/pfcp/src/pfcp_xact.c:339-368 | the bound on a body is exactly what fits behind a header in a buffer that can take any block |
| Xact.NextKeeps | experiments/5G_experiment/images/f5gc-base/f5gc-upf-fixed/lib/pfcp/src/pfcp_xact.c:279-628 | every event keeps the exchange in order, grows it only at the end, and sends only stored packets |
| Xact.RunKeeps | experiments/5G_experiment/images/f5gc-base/f5gc-upf-fixed/lib/pfcp/src/pfcp_xact.c:279-628 | the same over every run of events |
| Xact.SentCarriesIdentifier | experiments/5G_experiment/images/f5gc-base/f5gc-upf-fixed/lib/pfcp/src/pfcp_xact.c:342-371 | whatever a fresh transaction sends over any run parses back to its own identifier and to a recorded type |
| Xact.DuplicatesIdempotent | experiments/5G_experiment/images/f5gc-base/f5gc-upf-fixed/lib/pfcp/src/pfcp_xact.c:449-484 | any number of repeated requests sends the recorded response once for each send that the network takes, nothing before there is one, and changes nothing else |
| Xact.SameIdIff | experiments/5G_experiment/images/f5gc-base/f5gc-upf-fixed/lib/pfcp/src/pfcp_xact.c:83-85 | two local identifiers agree if and only if a whole number of cycles lies between them |
| Xact.IdsWithinCycle | experiments/5G_experiment/images/f5gc-base/f5gc-upf-fixed/lib/pfcp/src/pfcp_xact.c:83-85 | within one cycle the identifiers differ and carry no remote mark |
| Xact.XactCounter.NextId | experiments/5G_experiment/images/f5gc-base/f5gc-upf-fixed/lib/pfcp/src/pfcp_xact.c:83-85 | the counter hands out the identifier of the next local transaction |
| Xact.FindByTransactionId | experiments/5G_experiment/images/f5gc-base/f5gc-upf-fixed/lib/pfcp/src/pfcp_xact.c:725-772 | the first transaction with the identifier, on the list that the message type and the mark select |
| Xact.ListForMeans | experiments/5G_experiment/images/f5gc-base/f5gc-upf-fixed/lib/pfcp/src/pfcp_xact.c:731-755 | a request is looked for among the remote transactions, a response among those that bit 23 of the identifier names, other types nowhere |
| Xact.ResponseFindsItsRequest | experiments/5G_experiment/images/f5gc-base/f5gc-upf-fixed/lib/pfcp/src/pfcp_xact.c:740-746 | a response finds the local transaction that asked, whatever the remote list holds |
| RuleTables.RuleTable.constructor | experiments/5G_experiment/images/f5gc-base/f5gc-upf-fixed/src/upf_context.c:81-85 | an empty table over a full pool |
| RuleTables.RuleTable.AddSession | experiments/5G_experiment/images/f5gc-base/f5gc-upf-fixed/src/upf_context.c:562-567 | a session starts with an empty list |
| RuleTables.RuleTable.Register | experiments/5G_experiment/images/f5gc-base/f5gc-upf-fixed/src/upf_context.c:318-331 | a known rule is overwritten where it is, a new one gets a node at the front of the session's list, or a fault if and only if no node is free; identifiers, nodes, lists and pool stay consistent |
| RuleTables.EnrollMeans | experiments/5G_experiment/images/f5gc-base/f5gc-upf-fixed/src/upf_context.c:318-331 | after a registration the rule is found, no other rule has changed, and a known rule has not moved |
| RuleTables.RuleTable.Drop | experiments/5G_experiment/images/f5gc-base/f5gc-upf-fixed/src/upf_context.c:343-346 | the node leaves the table, its one list, and goes back to the pool |
| RuleTables.RuleTable.DeregisterById | experiments/5G_experiment/images/f5gc-base/f5gc-upf-fixed/src/upf_context.c:378-389 | succeeds if and only if the identifier is known, whichever session asks |
| RuleTables.DiscardMeans | experiments/5G_experiment/images/f5gc-base/f5gc-upf-fixed/src/upf_context.c:378-389 | after a deregistration the rule is not found and no other rule has changed |
| RuleTables.DiscardFrees | experiments/5G_experiment/images/f5gc-base/f5gc-upf-fixed/src/upf_context.c:378-389 | a deregistration takes the node off its one list and puts it behind the free nodes |
| RuleTables.RuleTable.DeleteList | experiments/5G_experiment/images/f5gc-base/f5gc-upf-fixed/src/upf_context.c:414-428 | deleting while walking removes every rule of the session, frees its nodes in order, and ends with an empty list |
| RuleTables.RuleTable.DeleteSession | experiments/5G_experiment/images/f5gc-base/f5gc-upf-fixed/src/upf_context.c:399-430 | the table without the session |
| RuleTables.StripKeepsOthers | experiments/5G_experiment/images/f5gc-base/f5gc-upf-fixed/src/upf_context.c:399-430 | exactly the rules of the session are gone; the rules and lists of every other session are as they were |
| Sessions.KeyIs | experiments/5G_experiment/images/f5gc-base/f5gc-upf-fixed/src/upf_context.c:525-532 | a key is the address of the session's type, or sixteen zeros, followed by at most 101 octets of the network name |
| Sessions.NetworksApart | experiments/5G_experiment/images/f5gc-base/f5gc-upf-fixed/src/upf_context.c:525-532 | sessions of one type with different network names never share a key, for names of at most 101 octets without a zero |
| Sessions.SameKeyIff | experiments/5G_experiment/images/f5gc-base/f5gc-upf-fixed/src/upf_context.c:525-532 | two sessions of one type share a hash key if and only if the network names agree up to 101 octets or a zero octet and, unless dual-stack, the addresses agree |
| Sessions.KeysMeetIff | experiments/5G_experiment/images/f5gc-base/f5gc-upf-fixed/src/upf_context.c:525-532 | sessions of different types share a key if and only if the longer address is the shorter one followed by the start of the name that goes with the shorter one, and the rest of that name is the other session's name |
| Sessions.DualStackApart | experiments/5G_experiment/images/f5gc-base/f5gc-upf-fixed/src/upf_context.c:525-532 | an IPv4 and a dual-stack session never share a key |
| Sessions.AddRegisteredIff | experiments/5G_experiment/images/f5gc-base/f5gc-upf-fixed/src/upf_context.c:606-607 | a new session leaves every session findable under its key if and only if its key was not in use |
| Sessions.RemoveRegisteredIff | experiments/5G_experiment/images/f5gc-base/f5gc-upf-fixed/src/upf_context.c:612-652 | removing a session leaves every other findable under its key if and only if it was and does not share the key that goes |
| Sessions.RunRegistered | experiments/5G_experiment/images/f5gc-base/f5gc-upf-fixed/src/upf_context.c:534-652 | over every run of additions and removals in which each added key was free, every session stays findable under its key |
| Sessions.FreshKeysIff | experiments/5G_experiment/images/f5gc-base/f5gc-upf-fixed/src/upf_context.c:534-652 | a run has fresh keys if and only if at its turn each added session is new and its key not in use |
| Sessions.RunThenRemoveAll | experiments/5G_experiment/images/f5gc-base/f5gc-upf-fixed/src/upf_context.c:654-665 | after every such run, removing all sessions leaves none |
| Sessions.OrphanStays | experiments/5G_experiment/images/f5gc-base/f5gc-upf-fixed/src/upf_context.c:654-665 | a concrete run that adds two sessions under one key leaves the first behind |
| Sessions.UpfContext.constructor | experiments/5G_experiment/images/f5gc-base/f5gc-upf-fixed/src/upf_context.c:87-150 | no sessions, no slots |
| Sessions.UpfContext.SessionAdd | experiments/5G_experiment/images/f5gc-base/f5gc-upf-fixed/src/upf_context.c:534-608 | the session is filed under its key with empty rule lists; an unsupported type fails after a pool place was taken, which stays taken |
| Sessions.UpfContext.Enter | experiments/5G_experiment/images/f5gc-base/f5gc-upf-fixed/src/upf_context.c:562-606 | lists, session table and hash are extended together |
| Sessions.UpfContext.BufPacketRemove | experiments/5G_experiment/images/f5gc-base/f5gc-upf-fixed/src/upf_context.c:474-495 | the slot of one PDR goes, no other |
| Sessions.UpfContext.RemoveSlots | experiments/5G_experiment/images/f5gc-base/f5gc-upf-fixed/src/upf_context.c:627-638 | the loop over the session's PDRs removes exactly the slots of that session |
| Sessions.UpfContext.DeleteRules | experiments/5G_experiment/images/f5gc-base/f5gc-upf-fixed/src/upf_context.c:640-642 | the rules of all three kinds are deleted for the session alone |
| Sessions.UpfContext.SessionRemove | experiments/5G_experiment/images/f5gc-base/f5gc-upf-fixed/src/upf_context.c:612-652 | exactly the session's rules, slots, lists and key go, its nodes return to their pools, and the tables stay consistent |
| Sessions.UpfContext.SessionRemoveAll | experiments/5G_experiment/images/f5gc-base/f5gc-upf-fixed/src/upf_context.c:654-665 | the session hash ends empty; the sessions left are exactly those that were not findable under their key |
| Sessions.RemoveAllEmptiesIff | experiments/5G_experiment/images/f5gc-base/f5gc-upf-fixed/src/upf_context.c:654-665 | no session is left if and only if every session was registered under its key |
| Sessions.UpfContext.HandleCreate | experiments/5G_experiment/images/f5gc-base/f5gc-upf-fixed/src/n4/n4_pfcp_handler.c:346-372 | a FAR or QER is registered if and only if it is new, complete, taken by the kernel and a node is free; without a node the program faults; otherwise nothing changes |
| Sessions.UpfContext.HandleUpdate | experiments/5G_experiment/images/f5gc-base/f5gc-upf-fixed/src/n4/n4_pfcp_handler.c:973-997 | a FAR or QER is overwritten if and only if it exists and the kernel took the change |
| Sessions.UpfContext.HandleRemove | experiments/5G_experiment/images/f5gc-base/f5gc-upf-fixed/src/n4/n4_pfcp_handler.c:1047-1071 | a FAR or QER is removed if and only if it exists and the kernel took the change |
| Sessions.UpfContext.HandleCreatePdr | experiments/5G_experiment/images/f5gc-base/f5gc-upf-fixed/src/n4/n4_pfcp_handler.c:221-254 | the PDR gets a slot of its session, but for identifier 0; a failure changes nothing; a fault if and only if no node is free |
| Sessions.UpfContext.HandleUpdatePdr | experiments/5G_experiment/images/f5gc-base/f5gc-upf-fixed/src/n4/n4_pfcp_handler.c:698-722 | the PDR is overwritten in place; slots and owners are unchanged |
| Sessions.UpfContext.HandleRemovePdr | experiments/5G_experiment/images/f5gc-base/f5gc-upf-fixed/src/n4/n4_pfcp_handler.c:1007-1037 | rule and slot go together |
| Sessions.SlotsWithoutMeans | experiments/5G_experiment/images/f5gc-base/f5gc-upf-fixed/src/upf_context.c:627-638 | exactly the slots of the session are gone |
| Sessions.ActionBits | experiments/5G_experiment/images/f5gc-base/f5gc-upf-fixed/src/n4/n4_pfcp_handler.c:846-853 | drop, forward and buffer are each seen in any combination of actions |
| Sessions.UpfContext.FlushSlots | experiments/5G_experiment/images/f5gc-base/f5gc-upf-fixed/src/n4/n4_pfcp_handler.c:842-866 | a set drop bit drops, else a set forward bit sends, and otherwise the slots are untouched |
| Sessions.UpfContext.HandleUpdateFar | experiments/5G_experiment/images/f5gc-base/f5gc-upf-fixed/src/n4/n4_pfcp_handler.c:814-870 | buffered packets are dropped or sent for every PDR of the session; sending faults if and only if a PDR of the session has no slot |
| Sessions.UpfContext.SendSlots | experiments/5G_experiment/images/f5gc-base/f5gc-upf-fixed/src/n4/n4_pfcp_handler.c:861-865 | the loop drains every PDR up to one without a slot |
| Sessions.DropTakesSlots | experiments/5G_experiment/images/f5gc-base/f5gc-upf-fixed/src/n4/n4_pfcp_handler.c:846-851 | after a drop no PDR of the session has a slot, so a later send faults |
| Sessions.SendAfterDrop | experiments/5G_experiment/images/f5gc-base/f5gc-upf-fixed/src/n4/n4_pfcp_handler.c:814-870 | a FAR updated to drop, to buffer and to forward, in this order, faults for every session with a PDR |
| AddressList.FindPlace | experiments/5G_experiment/images/f5gc-base/f5gc-upf-fixed/lib/utlt/src/utlt_sockAddr.c:178-184 | the walk stops at the node to link behind |
| AddressList.Link | experiments/5G_experiment/images/f5gc-base/f5gc-upf-fixed/lib/utlt/src/utlt_sockAddr.c:173-185 | one address is relinked in place to where the sort puts it |
| AddressList.SockAddrSort | experiments/5G_experiment/images/f5gc-base/f5gc-upf-fixed/lib/utlt/src/utlt_sockAddr.c:163-190 | the relinked list is the fold of the single steps over the input, without losing or repeating a node |
| AddressList.SortMeans | experiments/5G_experiment/images/f5gc-base/f5gc-upf-fixed/lib/utlt/src/utlt_sockAddr.c:163-190 | for a family: all addresses stay, the last one of it leads, and without one the order stays |
| AddressList.SortPermutes | experiments/5G_experiment/images/f5gc-base/f5gc-upf-fixed/lib/utlt/src/utlt_sockAddr.c:163-190 | the result is a permutation |
| AddressList.SortHead | experiments/5G_experiment/images/f5gc-base/f5gc-upf-fixed/lib/utlt/src/utlt_sockAddr.c:173-176 | the head is the last preferred address, if there is one |
| AddressList.SortKeepsOthers | experiments/5G_experiment/images/f5gc-base/f5gc-upf-fixed/lib/utlt/src/utlt_sockAddr.c:177-185 | without a preferred address the list is unchanged |
| AddressList.SortGroupsIff | experiments/5G_experiment/images/f5gc-base/f5gc-upf-fixed/lib/utlt/src/utlt_sockAddr.c:163-190 | the preferred addresses come first if and only if no other address follows two preferred ones |
| AddressList.SortGroupsWhen | experiments/5G_experiment/images/f5gc-base/f5gc-upf-fixed/lib/utlt/src/utlt_sockAddr.c:163-190 | sorting a list puts the preferred addresses first if and only if every address behind two preferred ones is preferred |
| AddressList.SortMixes | experiments/5G_experiment/images/f5gc-base/f5gc-upf-fixed/lib/utlt/src/utlt_sockAddr.c:163-190 | a concrete list that the sort does not group |
| AddressList.SockAddrFilter | experiments/5G_experiment/images/f5gc-base/f5gc-upf-fixed/lib/utlt/src/utlt_sockAddr.c:119-144 | the list is filtered in place and keeps its order |
| AddressList.KeepMeans | experiments/5G_experiment/images/f5gc-base/f5gc-upf-fixed/lib/utlt/src/utlt_sockAddr.c:119-144 | exactly the addresses of the family remain |
| AddressList.FilterMeans | experiments/5G_experiment/images/f5gc-base/f5gc-upf-fixed/lib/utlt/src/utlt_sockAddr.c:119-144 | exactly the addresses whose family is the given one remain |
| AddressList.SockAddrCopy | experiments/5G_experiment/images/f5gc-base/f5gc-upf-fixed/lib/utlt/src/utlt_sockAddr.c:146-161 | a list of fresh nodes, equal position by position |

## Left out

- Codec: a failed buffer allocation while building (the builder then returns 0 octets for the element), and elements over 65536 octets, which cannot be built.
- Codec: the choice of a schema by message type; the schema is a parameter. For types 9, 10 and 12 to 15 the description table is off by one entry.
- Packet.ParseHeader: a packet shorter than its header is `None`; the program would read stale octets of the block behind it.
- HashTable: keys stored as pointers into objects that may change, and the failure of an allocation. Insertion during an iteration is not claimed to be safe: growing reuses the iterator.
- Pool: locks, and freeing an object that belongs to another pool of the same type.
- Buffers: `UTLT_Calloc` differs from `UTLT_Malloc` by a product only and does not clear the block; `UTLT_Resize` loses the new address.
- Buffers.BufferPools.BufblkBytes: no claim where the grown size reaches 2^31, when the class selected is too small (`GrowthServesIff`) and the copy leaves the block. `Reserve` and `BufblkAppend` have the same exact condition.
- Buffers.BufferPools.BufblkFmt: no claim where contents and text together reach 2^31 octets, which `vsnprintf` cannot report in its `int`.
- Buffers.BufferPools.BufFree: the block is in use and its size names its class; a block freed twice is not claimed to leave the pools in order.
- Pool.Index.IndexAlloc: the zeroing of the other fields of the object handed out.
- Buffers.BufferPools.FreeMalloced: the holder of a block is taken not to overwrite its header.
- Buffers.BufferPools.BufblkBuf: a buffer appended to itself may read its octets from the block it has just given back, which other threads could have taken in between.
- PacketFifo.Sock: the socket takes every datagram it is handed; `UdpSendTo` failures are only logged by the program.
- Timers.TimerList.TimerExpireCheck: needs the absence of wrap-around, without which the loop does not end. Callbacks are recorded; they cannot touch the list, whose lock is held.
- Timers: timer parameters and the clock.
- Xact: the response and holding timers, retransmission on timeout, and association of transactions.
- Xact: `PfcpXactReceive` and `PfcpXactRemoteCreate`, which free a transaction that is still linked and reset the remote list. The branches for an intermediate stage are dead, as no message type maps to it.
- Xact.PfcpXact.UpdateTx: whether buffers are had is a parameter; the largest body follows from a first block of 64 octets.
- Xact.PfcpXact.Commit: step 0, at which the program reads in front of its array.
- Sessions: the packet buffers of slots (see PacketFifo), match rules, rule contents beyond what decides about packets, BAR and URR rules, and the change of the kernel's state by a handler that fails afterwards.
- RuleTables: hash keys are pointers into the nodes; the map holds their values.
- AddressList.SockAddrCopy: a failed allocation, which the program does not check.
- Rule matching by precedence, information element conversion, response building, node association, sockets, event queues, threads, configuration and logging.
