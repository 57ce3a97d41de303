# Lazy-TCP in Dafny

A model of a userspace TCP/IP stack in its two generations, `network/` (connections in a linked
list) and `refactor/` (connections in a hash table), with the scripted client that talks to both
and the worker pool, and proofs about them.

| file | models |
|---|---|
| `Words`, `InternetChecksum` | machine words, byte order, the Internet checksum and RFC 1071 |
| `Ipv4`, `Icmp` | IP headers, validation, ICMP replies built in place |
| `Segments`, `SynAckSegment`, `RstSegment`, `RstChecksum` | TCP parsing, pseudo-header checksum, the refactored SYN-ACK and reset |
| `SeqSpace`, `TcbValues`, `ConnMachine` | sequence comparison; the refactored connection machine as a step function, and what every packet sequence keeps |
| `TcbVector`, `HashTable`, `TcpStack`, `Network`, `OnTheWire` | blocks on the heap, growable vectors, the 256-bucket table, `tcp_dispatch`, `net_demux` and the server loop on them, proved to compute that step function; the same said of the bytes alone |
| `ClientScript`, `Handshake`, `ResetExchange` | the scripted client; client and server over a lossy, duplicating, reordering network; two instances resetting each other |
| `ConnList`, `OldMachine`, `OldSegments`, `OldStack`, `OldNetwork`, `OldOnTheWire` | the older list, its machine with data transfer, its segment builders, its `tcp_dispatch` and server loop; the same said of the bytes alone |
| `OldSession`, `OldStream`, `TableAgreement` | lock-step sessions and the output stream; hash table against list |
| `ThreadPool` | the bounded job queue and all interleavings of workers, enqueuers and shutdown |

Each stack is modelled twice: as a pure step function on a finite map from 4-tuple to control
block, about which the run-level theorems are proved, and as imperative code on heap objects and a
1500-byte packet buffer, whose `ensures` say that it computes the step function. Hash, malloc and
the ISS generator: the hash is a field of the table set to `HashId`, and nothing proved depends on
which function it is; whether an allocation succeeds, the ISS and the contents of locals that
`tcp_rst` never assigns are in-parameters.

How the model reads the code:

- 32-bit sequence fields wrap; the signed `int` fields of the older stack are taken as the same
  32-bit words. The client's Python integers do not wrap and reach the wire modulo 2^32.
- A packet that reaches TCP has headers that fit in its length; the code does not test this. In
  the older stack the announced IP length is arbitrary, and may be too short for the headers.
- `ip.h` promises a check of length consistency in `ip_validate`; the code has none, and the model
  follows the code. `hash.h` says that deleting sets the pointer to NULL; only a local copy is set.
- The older dispatcher rebuilds a SYN-ACK for a repeated SYN but returns TCP_SILENT, so it is not
  sent; `OldSession.RepeatedSynStrands` shows what follows.
- The three older builders write the same header fields in slightly different orders; the model
  writes them in one order. Identifiers are kept in host byte order on both stacks.
- The older `tcp_dispatch` uses a block before testing whether malloc returned it; the model says
  when that happens and nothing of what follows.

## Model

| member | source | states |
|---|---|---|
| `InternetChecksum.Checksum` | refactor/network/network.c:6-23 | the code's checksum is computed without 32-bit overflow for any IPv4-sized input, its carries being folded in as many rounds as `Rounds` says, at most two |
| `InternetChecksum.Accumulate` | network/network.c:3-16 | the summing loop adds the native words and a lone last byte exactly |
| `InternetChecksum.FoldCarries` | network/network.c:18-21 | the carry loop reaches the folded value in the rounds that `Rounds` counts |
| `InternetChecksum.TwoRounds` | network/network.c:18-21 | these are at most two for every 32-bit sum |
| `InternetChecksum.FoldIsResidue` | refactor/network/network.c:17-20 | folding is the residue modulo 0xFFFF in 1..0xFFFF, and zero only for zero |
| `InternetChecksum.OnesSumIsResidue` | refactor/network/network.c:6-23 | adding with end-around carry at every step and folding once at the end agree |
| `InternetChecksum.LeSumIsSwapped` | refactor/network/network.c:8-15 | summing little-endian words is 256 times the big-endian sum modulo 0xFFFF |
| `InternetChecksum.MatchesRfc1071` | refactor/network/network.c:6-23 | the native value is the checksum of section 1 of RFC 1071 with its bytes exchanged, odd tail included |
| `InternetChecksum.StoredIsRfc1071` | refactor/network/ip.c:27-33 | stored natively in any field, the checksum is byte for byte that of RFC 1071 in network order |
| `InternetChecksum.WriteThenVerify` | refactor/network/ip.c:27-33 | zeroing an aligned field, storing the sum and summing again always gives 0 |
| `InternetChecksum.RecomputeVersusSumToZero` | refactor/network/tcp/tcp.c:19-54 | recompute-and-compare accepts exactly what sum-to-zero accepts, except a stored 0xFFFF |
| `Ipv4.IpValidate` | refactor/network/ip.c:4-19 | accepts exactly the packets with a fitting IPv4 header that sums to zero |
| `Ipv4.IpSwapDst` | refactor/network/ip.c:21-25 | source and destination are exchanged in place and nothing else changes |
| `Ipv4.IpChecksum` | refactor/network/ip.c:27-33 | the header carries its own checksum afterwards; no other byte changes |
| `Ipv4.TurnedIsValid` | refactor/network/ip.c:4-33 | a header turned round for a reply is accepted whatever follows it |
| `Icmp.IcmpValidate` | refactor/network/icmp/icmp.c:12-21 | accepts exactly messages of at least 8 bytes that sum to zero |
| `Icmp.IcmpEchoReply` | refactor/network/icmp/icmp.c:61-76 | the buffer holds the echo reply to the request that was in it |
| `Icmp.IcmpDestUnreachable` | refactor/network/icmp/icmp.c:23-59 | the buffer holds the unreachable reply to the packet that was in it, although quoting overwrites it; the MTU refusal is unreachable |
| `Icmp.IcmpDispatch` | refactor/network/icmp/icmp.c:78-88 | answers exactly valid echo requests |
| `Icmp.EchoReplyIsSound` | refactor/network/icmp/icmp.c:61-76 | passes both validators, exchanges the addresses, keeps every byte after the ICMP checksum and the rest of the header |
| `Icmp.UnreachableReplyIsSound` | refactor/network/icmp/icmp.c:23-59 | passes both validators, is at most 136 bytes, announces its length, quotes exactly the original header and the data bytes after it, all of them or the first 8 |
| `Icmp.RepliesAreFinal` | refactor/network/network.c:25-42 | no ICMP packet the stack sends is answered when fed back |
| `Segments.TcpChecksum` | refactor/network/tcp/tcp.c:19-45 | the sum over pseudo-header and segment with the field zero, the buffer being restored |
| `Segments.TcpCheckIsExact` | refactor/network/tcp/tcp.c:52-54 | the dispatcher's test accepts exactly segments that sum to zero with a field other than 0xFFFF |
| `Segments.ReplyFields` | refactor/network/tcp/segment.c:17-44 | a rewritten header goes back to the sender with the given numbers, flags and window, and keeps header length, options and data |
| `SynAckSegment.TcpSynAck` | refactor/network/tcp/segment.c:17-44 | the buffer holds the SYN-ACK whose checksum was taken over the received length |
| `SynAckSegment.SynAckValidIff` | refactor/network/tcp/segment.c:36-43 | the SYN-ACK always passes the IP test, and passes the TCP test at its own length if and only if the SYN's data and its length cancel modulo 0xFFFF |
| `SynAckSegment.OneByteIsEnough` | refactor/network/tcp/segment.c:41-43 | the answer to any SYN whose data is the single byte 0x41 fails the TCP test |
| `RstSegment.TcpRst` | refactor/network/tcp/segment.c:46-90 | the buffer holds the reset for the segment that was in it, whatever the unassigned locals hold |
| `RstSegment.ResetFields` | refactor/network/tcp/segment.c:75-85 | a reset goes back to the sender with the chosen numbers and flags and window zero |
| `RstSegment.UpperHalfOnly` | refactor/network/tcp/segment.c:66-69 | the sequence number of the reset for an ACK is only the upper half of the number acknowledged, and so that number if and only if it is zero |
| `RstSegment.ResetValidIff` | refactor/network/tcp/segment.c:75-89 | the reset passes the stack's own IP test if and only if the packet answered announced no data, since the length changes and the checksum is kept |
| `RstChecksum.ResetTcpValidIff` | refactor/network/tcp/segment.c:75-89 | the reset for a segment that passed the TCP test passes it too if and only if the words it overwrites, the data and its length add up to the same modulo 0xFFFF as those it writes |
| `SeqSpace.WindowExact` | refactor/network/tcp/tcb.h:24-27 | the signed-difference macros decide membership of a window up to 2^31 exactly, at every wrap position |
| `SeqSpace.WindowLimit` | refactor/network/tcp/tcb.h:24-27 | and they do so for all sequence numbers if and only if the window is at most 2^31 |
| `ConnMachine.StepKeepsGood` | refactor/network/tcp/tcb.c:9-58 | every dispatch keeps all entries well formed |
| `ConnMachine.RunIsGood` | refactor/network/tcp/tcp.c:71-85 | after any packet sequence all entries have port 8080 and window 8192, are CLOSED, SYN_RECEIVED or ESTABLISHED, and hold the sequence numbers of that state |
| `ConnMachine.StepIsLocal` | refactor/network/tcp/tcp.c:47-86 | a packet touches no connection but its own |
| `ConnMachine.ResetDeletesExactlyInWindow` | refactor/network/tcp/tcb.c:38-48 | after any packet sequence, what the table is after a reset to the listening port: an entry goes exactly when the number is fewer than 8192 ahead of recv.next modulo 2^32 and stays as it is otherwise; for an unknown connection a CLOSED entry, which expects zero, appears unless the number is below 8192 or memory fails; no answer |
| `ConnMachine.ResetAnsweredIff` | refactor/network/tcp/tcp.c:92-110 | after any packet sequence, a reset is answered, by a reset, if and only if it is for another port and there is memory; a reset for another port leaves the table as it was |
| `ConnMachine.OnEstablished` | refactor/network/tcp/tcp.c:126-148 | after any packet sequence, an ESTABLISHED entry stays as it is and unanswered for every segment without SYN and RST; it goes if and only if there is RST in the window, silently, or SYN without RST, with a reset |
| `ConnMachine.OnSynReceived` | refactor/network/tcp/tcp.c:126-133 | after any packet sequence, a SYN_RECEIVED entry becomes ESTABLISHED by an ACK for iss+1 alone, keeps silent for another ACK, and is reset and deleted by SYN or a missing ACK |
| `ConnMachine.OnUnopened` | refactor/network/tcp/tcp.c:88-124 | after any packet sequence, what each segment does on an unknown or CLOSED connection: the opening SYN with the block and the numbers answered, resets, other segments, other ports, no memory |
| `ConnMachine.Beginnings` | refactor/network/tcp/tcb.c:67-91 | the first table and the fields of a new block |
| `ResetExchange.ResetsNeverEnd` | refactor/network/tcp/tcp.c:102-105 | on parsed segments, checksums apart, two instances answer each other between ports other than the listening one with resets for any number of rounds |
| `ResetExchange.ResetsEndIff` | refactor/network/tcp/tcp.c:102-110 | on parsed segments, checksums apart, an exchange that begins with a reset, unassigned flags having RST, outlasts two rounds if and only if neither port is the listening one |
| `ResetExchange.ResetReachesIff` | refactor/network/tcp/tcp.c:52-54 | on bytes, a reset gets past the other side's IP and TCP tests if and only if the packet it answers announced no data and the words overwritten weigh as much as before |
| `ResetExchange.BouncesIff` | refactor/network/tcp/tcp.c:47-86 | on bytes, through `net_demux` on both sides, an exchange between ports other than the listening one outlasts any given deliveries if and only if every reset but the last keeps checksums that happen to be right |
| `ResetExchange.DataEndsExchange` | refactor/network/tcp/segment.c:75-89 | it ends with the first reset if the packet announced data |
| `ResetExchange.LocalsDecide` | refactor/network/tcp/segment.c:51-73 | otherwise the contents of the unassigned locals alone decide: some make it last any number of rounds, others end it at the first reset |
| `ConnMachine.SynReceivedWasOpened` | refactor/network/tcp/tcp.c:115-120 | every SYN_RECEIVED entry was opened by a SYN answered with its numbers and has not been deleted since |
| `ConnMachine.EstablishedIsHonest` | refactor/network/tcp/tcp.c:88-160 | every ESTABLISHED entry was opened by a SYN without ACK numbered irs, answered (iss, irs+1), later acknowledged with iss+1 by a non-SYN non-RST segment, and never deleted in between or since |
| `TcbVector.Vector.Init` | refactor/network/tcp/vector.c:4-12 | an empty vector of capacity 16, or nothing changed when memory runs out |
| `TcbVector.Vector.Push` | refactor/network/tcp/vector.c:14-25 | appends, doubling when full; fails only when growing fails and then keeps the contents |
| `TcbVector.Vector.Find` | refactor/network/tcp/vector.c:27-34 | the block with that identifier, or null exactly when there is none; looks only into live blocks |
| `TcbVector.Vector.Delete` | refactor/network/tcp/vector.c:42-51 | frees the first match and moves the last element into its place; without a match nothing changes |
| `TcbVector.Vector.Destroy` | refactor/network/tcp/vector.c:53-62 | frees every block once and empties the vector |
| `HashTable.PushRefines` | refactor/network/tcp/hash.c:48-60 | appending to the hashed bucket keeps the chains a refinement of the map with the new entry |
| `HashTable.DeleteRefines` | refactor/network/tcp/hash.c:62-74 | swap-and-pop keeps the chains a refinement of the map without the entry |
| `HashTable.Table.constructor` | refactor/network/tcp/hash.c:10-11 | the uninitialised static table is an empty map |
| `HashTable.Table.Init` | refactor/network/tcp/hash.c:26-36 | succeeds exactly if all 256 allocations do; the entries of the buckets set up before a failure are dropped and their blocks not freed; the table stays valid if and only if all succeeded or no entry was lost |
| `HashTable.TruncatedIndexed` | refactor/network/tcp/hash.c:26-33 | emptying the first buckets without correcting `size` keeps chains, map and count together if and only if they were empty |
| `HashTable.Table.Find` | refactor/network/tcp/hash.c:38-46 | looks up the map, on an uninitialised table too |
| `HashTable.Table.Insert` | refactor/network/tcp/hash.c:48-60 | adds a new entry and one to size, or on failure changes neither; the table stays valid (`size` the number of entries and the sum of the bucket sizes) if and only if nothing was stored or the identifier was new |
| `HashTable.Table.Delete` | refactor/network/tcp/hash.c:62-74 | removes the entry with that identifier and frees its block; the unconditional decrement leaves the table valid if and only if there was such an entry or the table is not set up |
| `HashTable.Table.Destroy` | refactor/network/tcp/hash.c:76-86 | frees exactly the blocks in the table |
| `HashTable.ChainsAreEntries` | refactor/network/tcp/hash.c:76-82 | the blocks in the chains are exactly the entries, each in one chain, so none is freed twice |
| `HashTable.MixedIsLowByte` | refactor/network/tcp/hash.c:14-24 | the mixing steps of the hash are two multiplications and two folds; the last step changes nothing that the remainder keeps |
| `HashTable.PortsSideBySide` | refactor/network/tcp/hash.c:15-16 | what is mixed is the addresses folded with the two ports side by side |
| `HashTable.HashExamples` | refactor/network/tcp/hash.c:14-24 | some connections and their buckets |
| `TcpStack.FindOrCreate` | refactor/network/tcp/tcp.c:88-100 | the stored block or a new one, with all others as they were; without memory nothing is stored and nothing leaks |
| `TcpStack.SelectEdge` | refactor/network/tcp/tcp.c:102-154 | on a block that is not freed, the nested tests compute the edge of the connection machine |
| `TcpStack.StateUpdate` | refactor/network/tcp/tcb.c:9-58 | a block that is not freed is updated in place, or deleted on a reset in the window, as the machine says |
| `TcpStack.Dispatch` | refactor/network/tcp/tcp.c:47-86 | on any table, dispatching computes the step of the connection machine, with memory for it if the connection is known or all allocations succeed, and without if a new block cannot be allocated; live blocks stay exactly the entries |
| `TcpStack.LiveAreEntries` | refactor/network/tcp/tcp.c:92-99 | between dispatches the blocks allocated and not freed are exactly those in the table |
| `Network.TcpDispatch` | refactor/network/tcp/tcp.c:47-86 | bytes with a wrong checksum change nothing; others make one step, with memory as the allocations allow, and the bytes of the SYN-ACK or reset are sent |
| `Network.NetDemux` | refactor/network/network.c:25-42 | invalid packets get no answer, packets other than TCP get the ICMP answer and leave the table alone, TCP makes one step, with memory as the allocations allow; it can be called again on what it leaves |
| `Network.Serve` | refactor/main.c:28-40 | for any sequence of packets from the static table, the table ends as the machine's run on exactly the TCP packets that pass both checksums, each with memory as its allocations allow (always if all succeed); each packet is answered as due in the state before it, all entries are well formed, and no block has leaked |
| `Network.ServedAppend` | refactor/main.c:28-40 | one more packet is one more input of the machine or none, and gets its due answer |
| `OnTheWire.EveryPacket` | refactor/network/network.c:25-42 | said of the bytes: packets without a right IP header get nothing; ICMP exactly a valid echo request its echo; other protocols the unreachable message; TCP with a wrong checksum nothing and otherwise the bytes that go with the machine's reply to the fields at their offsets |
| `OnTheWire.SynOnTheWire` | refactor/network/tcp/segment.c:17-44 | after any packets, a SYN to bytes 0x1F90 on an unknown connection is answered with addresses and ports exchanged, iss, the SYN's number plus one, flags 0x12, window 0x2000, its own length, and right checksums (TCP exactly if the SYN's data cancel) |
| `OnTheWire.SynAckIs` | refactor/network/tcp/segment.c:17-44 | every byte of a SYN-ACK |
| `OnTheWire.ResetIs` | refactor/network/tcp/segment.c:46-90 | every byte of a reset, those from unassigned locals included |
| `OnTheWire.EchoIs` | refactor/network/icmp/icmp.c:61-76 | every byte of an echo reply |
| `OnTheWire.UnreachableIs` | refactor/network/icmp/icmp.c:23-59 | every byte of an unreachable message |
| `OnTheWire.IpRightIff` | refactor/network/ip.c:4-19 | the IP test accepts exactly version 4, a header of at least five words that fits, and a sum of all ones as section 1 of RFC 1071 asks for |
| `OnTheWire.TcpRightIff` | refactor/network/tcp/tcp.c:19-54 | the TCP test accepts exactly segments whose sum with the pseudo-header, byte by byte, is all ones and whose checksum is not stored as 0xFFFF |
| `OnTheWire.FitsIff` | refactor/network/tcp/tcp.c:47-54 | what is taken for granted of a TCP packet: both headers fit |
| `OnTheWire.InputsAre` | refactor/main.c:28-40 | in a run the machine's inputs are the fields, at their offsets, of exactly the TCP packets with both checksums right |
| `ClientScript.TcpClient.Handshake` | refactor/tests/catch.py:40-83 | which segments the client sends, field by field, and how its numbers change for any answer or none; it succeeds exactly on flags 0x12 |
| `ClientScript.TcpClient.SendData` | packet_cooking/client.py:86-116 | which segment it sends, field by field, and how its numbers change for any answer or none |
| `Handshake.HandshakeAgreement` | refactor/tests/catch.py:40-111 | in every state reachable over a network that drops, duplicates and reorders, the client sending data or not, whatever the unassigned fields of resets hold: a server ESTABLISHED entry implies an established client with their_seq = send.next, and my_seq = recv.next if and only if the data bytes that the client counted as sent are a multiple of 2^32 |
| `Handshake.AgreementWithoutData` | refactor/tests/catch.py:40-83 | as long as the client has sent no data, both numbers agree |
| `Handshake.DataDrifts` | refactor/tests/catch.py:84-111 | a run without resets that ends ESTABLISHED with the client ahead by any data: a second copy of the SYN-ACK is taken for the answer to it |
| `Handshake.DataCompletes` | refactor/network/tcp/tcp.c:126-133 | a data segment arriving in place of the last ACK completes the handshake as well |
| `Handshake.NetworkRepeats` | refactor/tests/catch.py:40-111 | in every reachable state whatever was sent can be delivered again, at any later time, or never |
| `Handshake.OwnReply` | refactor/network/tcp/segment.c:66-73 | whatever the client takes for a SYN-ACK, be it a reset with arbitrary flags, acknowledges its SYN |
| `Handshake.ActKeepsInv` | refactor/network/tcp/tcp.c:47-160 | every action of client, server and network keeps the invariant behind it |
| `Handshake.AttemptIff` | refactor/tests/catch.py:40-83 | from every reachable state with an idle client, an undisturbed attempt establishes the connection at the server if and only if the port is the listening one and there is no entry; otherwise any entry is removed, and the client takes itself for established if and only if the unassigned flags happen to be SYN+ACK |
| `Handshake.SecondAttemptSucceeds` | refactor/network/tcp/tcp.c:126-133 | a stale entry costs one attempt: the next one succeeds if the client noticed the reset |
| `ConnList.List.Get` | network/tcp/tcp.c:91-102 | looks up the map that the list stands for |
| `ConnList.List.Insert` | network/tcp/tcp.c:74-89 | appends a block with a new identifier and ignores any other, keeping the chain |
| `ConnList.List.Remove` | network/tcp/tcp.c:203-219 | removes a present block and relinks its neighbours; the list stays valid if and only if the block was in it |
| `TableAgreement.RunBoth` | network/tcp/tcp.c:74-102 | for every sequence of finds, guarded inserts and deletes, and whatever memory the hash table finds, hash table and list give the same answers (whole blocks) and sizes on the operations that were done, those of a finite map; with memory for every insert these are all |
| `TableAgreement.HashOp` | refactor/network/tcp/hash.c:38-74 | each operation on the hash table is the operation on the map, an insert without memory being a lookup |
| `TableAgreement.ListOp` | network/tcp/tcp.c:203-219 | each operation on the list is the operation on the map |
| `OldMachine.RunIsGood` | network/tcp/tcp.c:295-400 | after any packet sequence the older entries hold the numbers of their state |
| `OldMachine.OnUnknown` | network/tcp/tcp.c:313-343 | after any packet sequence, what each segment does on an unknown connection: block and SYN-ACK for the opening SYN, silence for a reset, a reset with its numbers and flags for the rest |
| `OldMachine.OnSynReceived` | network/tcp/tcp.c:345-371 | a SYN starts over, an ACK for iss+1 establishes, nothing else changes anything, and none is answered |
| `OldMachine.OnEstablished` | network/tcp/tcp.c:373-398 | FIN, data and all else on an ESTABLISHED or CLOSE_WAIT entry, with the block and the answer field by field |
| `OldMachine.OnReset` | network/tcp/tcp.c:221-232 | a reset is silent and deletes exactly if its number, read with its bytes in the wrong order, lies in the window |
| `OldMachine.UnknownGetsReset` | network/tcp/tcp.c:104-160 | an unknown connection gets a reset exactly unless the segment is a reset or opens it; which numbers and flags it carries, SYN and FIN counted |
| `OldMachine.ResetFormIff` | network/tcp/tcp.c:104-160 | the reset has the form of section 3.10.7.1 of RFC 9293 if and only if the segment carries ACK or its announced length covers its headers |
| `OldMachine.ResetsEndTheExchange` | network/tcp/tcp.c:313-343 | what one instance sends as a reset is answered by no instance, in any state |
| `OldMachine.ResetReachesRefactoredPeer` | refactor/network/tcp/tcb.c:38-48 | the reset for an ACK carrying a refactored peer's current recv.next makes that peer delete its entry |
| `OldSegments.ReplyPacketIsSound` | network/tcp/tcp.c:104-201 | every built segment, for any header sizes and odd or even body, passes the refactored IP and TCP tests at its announced length and carries the intended fields and body |
| `OldSegments.BuildReply` | network/tcp/tcp.c:234-270 | rewriting the request in place yields that packet |
| `OldStack.NullSynAck` | network/tcp/tcp.c:162-201 | block and buffer after a SYN-ACK is built |
| `OldStack.NullRst` | network/tcp/tcp.c:104-160 | the buffer after a reset is built |
| `OldStack.SendAck` | network/tcp/tcp.c:234-270 | block and buffer after an ACK, with or without body |
| `OldStack.HandleData` | network/tcp/tcp.c:272-288 | data advances recv.next and is answered; no data is silent |
| `OldStack.GotRst` | network/tcp/tcp.c:221-232 | what a reset does to the list, with the number compared in network byte order |
| `OldStack.Dispatch` | network/tcp/tcp.c:295-400 | on any list and packet the code makes one step of the older machine and leaves its answer in the buffer, unless it uses a block that is not there, which happens if and only if memory fails for a SYN without ACK or RST on an unknown connection |
| `OldStack.AnswersIsPacket` | network/tcp/tcp.c:295-400 | the bytes written out are exactly the reply packet |
| `OldNetwork.HandleTcp` | main.c:44-63 | one packet of bytes makes one step of the older machine, and as many bytes as the reply announces are written back: the reply packet, or none |
| `OldNetwork.Serve` | main.c:140-154 | for any sequence of packets the list is the older machine's run on the TCP packets among them, well formed, and each packet is answered as due in the state before it, up to the first that opens a connection without memory for it |
| `OldNetwork.ServedAppend` | main.c:140-154 | one more packet is one more input of the older machine or none, and gets its due answer |
| `OldOnTheWire.EveryPacket` | main.c:29-72 | said of the bytes: exactly packets of version 4, at least five header words and protocol 6 make a step of the older machine, on the fields at their offsets, and the bytes written back carry its answer; others leave list and output alone |
| `OldOnTheWire.SynOnTheWire` | network/tcp/tcp.c:162-201 | after any packets, a SYN on an unknown connection is stored and answered with iss, its number plus one, flags 0x12 and window 8192 in a packet with both checksums right, if there is memory |
| `OldOnTheWire.FitsIff` | main.c:44-48 | what is taken for granted of a packet: headers within what was read, a reply that fits the buffer |
| `OldOnTheWire.InputsAre` | main.c:140-154 | in a run the machine's inputs are exactly those packets, with their fields |
| `OldSession.ConnectIff` | packet_cooking/client.py:41-84 | a lock-step handshake succeeds if and only if the server does not know the connection, and then both ends agree |
| `OldSession.RepeatedSynStrands` | network/tcp/tcp.c:346-371 | a SYN delivered twice before the ACK leaves the connection established if and only if both ISS values are equal |
| `OldSession.SessionAgreement` | network/tcp/tcp.c:272-288 | after the handshake and any number of sends, other connections served in between, my_seq = recv.next and their_seq = send.next modulo 2^32 |
| `OldSession.DeliveriesIff` | network/tcp/tcp.c:272-284 | after a send whose segment arrived any number of times, answered or not, the ends agree on my_seq and recv.next if and only if the surplus of deliveries times the data length is a multiple of 2^32 |
| `OldSession.RepeatedSendStrands` | network/tcp/tcp.c:272-284 | a data segment delivered twice leaves both ends in step if and only if it is empty |
| `OldSession.AnswerFitsClient` | network/tcp/tcp.c:243-254 | each answer starts where the client expects, acknowledges all it has sent, and carries the body |
| `OldSession.EmptySendChangesNothing` | network/tcp/tcp.c:275-276 | an empty send changes neither side |
| `OldSession.RepliesTile` | network/tcp/tcp.c:243-255 | over any run of a connection the data replies tile the joined response bodies in sequence space |
| `OldSession.StreamIsContiguous` | network/tcp/tcp.c:272-288 | every byte of the joined bodies, counted from iss+1, is covered by exactly one reply, which holds it, across 32-bit wrap, below 2^32 bytes |
| `OldStream.WasEstablished` | network/tcp/tcp.c:346-371 | in every run of the older server an ESTABLISHED or CLOSE_WAIT entry was established at some point with its present ISS and send.next = iss+1, and never deleted since |
| `OldStream.NextGrows` | network/tcp/tcp.c:243-255 | while a connection lasts, send.next moves on by the joined bodies modulo 2^32 |
| `OldStream.RunStream` | network/tcp/tcp.c:272-288 | so in every run from the empty list the data replies of an open connection since then tile the joined bodies from iss+1 on, send.next is where they end, and reassembling by sequence number gives them below 2^32 bytes |
| `ThreadPool.JobQueue.Push` | thread_pool/thread_pool.c:43-56 | appends unless 1279 jobs wait, and says busy exactly then |
| `ThreadPool.JobQueue.Take` | thread_pool/thread_pool.c:67-74 | the shift loop removes exactly the head |
| `ThreadPool.ExecKeepsInv` | thread_pool/thread_pool.c:43-126 | every interleaving keeps mutual exclusion, conservation of jobs, and one awake worker or owed signal per waiting job as far as there are workers |
| `ThreadPool.PoolSafety` | thread_pool/thread_pool.c:43-87 | accepted jobs are taken once each in acceptance order, at most 1279 wait, no two threads (workers, enqueuers, destroyer) are in a critical section, a worker handles only a job that was taken |
| `ThreadPool.JobIsTaken` | thread_pool/thread_pool.c:58-87 | from every reachable state, whatever calls, shutdown and wake-ups come in between, an accepted job is taken within a bounded number of worker steps |
| `ThreadPool.SomeoneMoves` | thread_pool/thread_pool.c:43-87 | and while a job waits and some worker has not decided to leave, a worker can step, or the holder of the mutex can, or a signal is due to a blocked worker |
| `ThreadPool.HolderReleases` | thread_pool/thread_pool.c:43-126 | in every reachable state the holder of the mutex can move and releases it within three steps of its own; no other step takes it away |
| `ThreadPool.TakesHead` | thread_pool/thread_pool.c:62-83 | with jobs waiting and the mutex free a worker takes exactly the head in four steps, then handles it with the mutex free |
| `ThreadPool.WaitsWhenEmpty` | thread_pool/thread_pool.c:62-65 | with none waiting and no shutdown it blocks, nothing else changed |
| `ThreadPool.LeavesAfterShutdown` | thread_pool/thread_pool.c:75-78 | after shutdown with none waiting it is gone in four steps |
| `ThreadPool.CallStores` | thread_pool/thread_pool.c:43-56 | a call stores its job at the end unless 1279 wait, and then owes a signal |
| `ThreadPool.SignalWakes` | thread_pool/thread_pool.c:53 | a signal wakes the chosen blocked worker, and none if none is blocked |
| `ThreadPool.DestroyerWakesAll` | thread_pool/thread_pool.c:110-113 | the destroyer sets shutdown, wakes every blocked worker and joins |
| `ThreadPool.OtherSteps` | thread_pool/thread_pool.c:108-119 | the join returns if and only if every worker is gone; spurious wake-ups; what a blocked, gone or waiting thread does not do |
| `ThreadPool.JoinedMeansGone` | thread_pool/thread_pool.c:115-119 | in every reachable state after the join every worker is gone |
| `ThreadPool.NobodyLeavesEarly` | thread_pool/thread_pool.c:75-78 | before shutdown no worker has decided to leave |
| `ThreadPool.ShutdownDrains` | thread_pool/thread_pool.c:63-78 | once any worker has left, every job accepted before shutdown has been taken; all accepted jobs if none came later |
| `ThreadPool.WhatRemains` | thread_pool/thread_pool.c:75-78 | once all workers have left, exactly the jobs accepted after the last one decided to leave remain, in order |
| `ThreadPool.LateJobStays` | thread_pool/thread_pool.c:43-56 | a job accepted after the last worker left is not taken |
| `ThreadPool.GoneForGood` | thread_pool/thread_pool.c:75-78 | with every worker gone no step takes a job or brings a worker back |
| `ThreadPool.NoLostWakeup` | thread_pool/thread_pool.c:46-53 | when jobs wait and every worker is blocked, some enqueuer still owes a signal |
| `ThreadPool.NoBlockingAfterBroadcast` | thread_pool/thread_pool.c:110-113 | after the broadcast no worker is blocked or about to block |
| `ThreadPool.JoinProgress` | thread_pool/thread_pool.c:115-119 | while the destroyer joins, every worker step lowers a measure |
| `ThreadPool.JoinIsNotStuck` | thread_pool/thread_pool.c:115-119 | and while a worker remains, some thread can move |

## Left out

- TUN devices, netlink, signals, FIFO logging, debug printing and the set-up in both `main` functions: I/O and foreign calls.
- HTTP file serving: the request handler's body is an arbitrary sequence of bytes that fits the buffer.
- What the older server loop does with ICMP: the reply's checksum covers as many bytes as the packet announces, whether they were read or not.
- The scripted client's `close` and the FIN it sends.
- The `recv_buf`, `recv_size` and `recv_consumed` fields, options, timers and retransmission: not used by the code.
- States after CLOSE_WAIT: never entered by the code.
- The 32-bit wrap of a vector's capacity: it would take 2^31 live blocks of more than 16 KB each.
- The storage arrays of vectors set up before a failed `hash_init` are lost by the code when it is tried again; block accounting is for control blocks.
- Calls of `job_enqueue` after `thread_pool_destroy` has destroyed the mutex, and failing pthread calls.
- OldStack.GotRst: no window property is claimed, since the code compares the number in network byte order.
