# A verified model of the NS3 P4 simulator's switch core

This project models three parts of the ns-3 P4 simulator module in Dafny:

- **The switch plumbing of `P4Model`** (model/p4-model.cc).
  - The mirroring-session table (`MirroringSessions`).
  - The two-class input arbiter (`InputBuffer`): a high-priority deque for resubmitted, recirculated and sentinel packets, and a low-priority deque for packets arriving from ns-3.
  - `enqueue` and `multicast`.
  - The decisions that `ingress_thread` and `egress_thread` take after the match-action pipelines have run: clone, learn, resubmit, multicast, drop, deparse, recirculate and output.
  - The receive path that stamps packet ids and interns destinations.
  - The `hash_ex` hash.
- **The string and number converters of model/helper.cc.** Each is a loop over an accumulator, proved equal to a pure definition. Round trips are proved between the converters.
- **The `replace_data` JSON rewrite of examples/p4src/pre_processing_json.py.** It is a recursive function over a JSON datatype.

The bmv2 match-action engine is foreign code. It enters the model as the function-valued fields of `Packets.Engine`: parser, ingress and egress pipelines, deparser, field-list copy and multicast replication. The model does not interpret them.

Everything the switch hands to a component outside the model is recorded, in order, in the switch's `sink` as an `Action`:
- `ToEgress(port, queue, packet)` for the egress buffers;
- `Learn(list, packet)` for the learn engine;
- `ToOutput(packet)` for the output buffer.

Each imperative method of `P4Switch.P4Model` is proved to change the state exactly as a pure function of module `Packets` describes. Module `Lifecycle` proves the promised orderings and exclusions about those functions.

Modules, one per file:

| file | module | contents |
|---|---|---|
| wrappers.dfy | Wrappers | `Option` |
| numerals.dfy | Numerals | decimal/hex glyphs and digit strings, C truncating division, byte orders |
| helper.dfy | Helper | the converters of model/helper.cc |
| hash_ex.dfy | HashEx | `hash_ex` on 32-bit words |
| mirroring.dfy | Mirroring | class `MirroringSessions` |
| input_buffer.dfy | InputArbiter | class `InputBuffer<T>` and FIFO order |
| packets.dfy | Packets | packets, the abstract engine, and the pure effects of enqueue, multicast, cloning, ingress and egress |
| lifecycle.dfy | Lifecycle | lemmas on the decision sequences |
| switch.dfy | P4Switch | class `P4Model`: the threads, enqueue, multicast and the receive path |
| json_rewrite.dfy | JsonRewrite | `replace_data` |

Where the comments of the source and its code disagree, the model follows the code:
- A NORMAL push into a full low queue waits for room. It is not refused; only RESUBMIT and RECIRCULATE pushes are refused.
- `get_session` does no range check, unlike `add_session` and `delete_session`.
- The constructor passes `(10240, 1024)` as `(capacity_hi, capacity_lo)`. The high-priority queue therefore holds 10240 packets and the normal queue 1024, even though the comments describe the normal queue as the large one.

## Model

| member | source | states |
|---|---|---|
| Mirroring.MirroringSessions.constructor | model/p4-model.cc:113-156 | the table starts empty, with the given maximum session id |
| Mirroring.SessionAdded | model/p4-model.cc:115-126 | the table after add_session: no key other than the added id appears, and a table whose ids are all in range stays so |
| Mirroring.SessionDeleted | model/p4-model.cc:128-137 | the table after delete_session: at most the given id disappears, and every remaining id keeps its config |
| Mirroring.SessionLookup | model/p4-model.cc:139-148 | get_session finds a config exactly when the id is stored, whatever its range |
| Mirroring.MirroringSessions.AddSession | model/p4-model.cc:115-126 | returns true exactly when 0 <= id <= MAX_MIRROR_SESSION_ID; then the config is stored, replacing any earlier one, and otherwise the table is unchanged |
| Mirroring.MirroringSessions.DeleteSession | model/p4-model.cc:128-137 | returns true exactly when the id was present (an id that is present is always in range); the entry is erased and nothing else changes |
| Mirroring.MirroringSessions.GetSession | model/p4-model.cc:139-148 | yields the stored config exactly when the id is in the table, with no range check |
| Mirroring.AddThenLookup | model/p4-model.cc:115-148 | after an in-range add, a lookup of that id finds the new config and every other id is unaffected |
| Mirroring.DeleteThenLookup | model/p4-model.cc:128-148 | after an in-range delete, a lookup of that id fails and every other id is unaffected |
| Mirroring.OutOfRangeUnchanged | model/p4-model.cc:119-136 | an out-of-range add or delete leaves the table unchanged |
| Mirroring.AddThenDelete | model/p4-model.cc:115-137 | deleting a freshly added id restores the previous table |
| InputArbiter.PushFront | model/p4-model.cc:238 | push_front puts the item at the front and keeps the rest in order |
| InputArbiter.Oldest | model/p4-model.cc:198-217 | pop_back yields nothing exactly when both queues are empty |
| InputArbiter.PushIfRoom | model/p4-model.cc:228-242 | a non-blocking push never takes a queue past its capacity |
| InputArbiter.InputBuffer.constructor | model/p4-model.cc:174-178 | both queues empty, with the given capacities |
| InputArbiter.InputBuffer.Push | model/p4-model.cc:180-196 | NORMAL goes to the low queue; RESUBMIT, RECIRCULATE and SENTINEL go to the high queue. The result is 0 exactly for a non-blocking push into a full high queue, and then neither queue changes. On 1, exactly one queue grows by the item at its front. Capacities are never exceeded |
| InputArbiter.InputBuffer.PushInto | model/p4-model.cc:228-242 | a full queue refuses a non-blocking push with 0; otherwise the item is pushed at the front and 1 is returned |
| InputArbiter.InputBuffer.PopBack | model/p4-model.cc:198-217 | the oldest high-priority item whenever the high queue is non-empty, else the oldest normal one; with both queues empty nothing changes and nothing is returned |
| InputArbiter.InputBuffer.GetSize | model/p4-model.cc:218-221 | reports capacity_hi + capacity_lo, which bounds the number of packets held but is not that number |
| InputArbiter.PushAllIsReversedPrefix | model/p4-model.cc:238 | pushing a sequence at the front leaves it reversed ahead of the old contents |
| InputArbiter.PopAllOfRev | model/p4-model.cc:205-214 | popping from the back drains a queue from oldest to newest |
| InputArbiter.FifoOrder | model/p4-model.cc:198-242 | within one queue, items leave in the order they were pushed |
| Packets.ClearedRegisters | model/p4-model.cc:1287-1293 | every packet register is zero except the packet length |
| Packets.ResetMetadata | model/p4-model.cc:1286-1297 | the named metadata fields are zeroed and the instance type is NORMAL; which optional fields exist, and the headers, are kept |
| Packets.CopyFieldList | model/p4-model.cc:830-840 | the copy's instance type is the one requested |
| Packets.ReplicaOf | model/p4-model.cc:868-876 | a multicast copy carries the target's rid and has its registers cleared except the original packet length |
| Packets.ClearCloneRequest | model/p4-model.cc:951-952 | the clone request is reset; the packet's PHV and data are untouched |
| Packets.EgressEntry | model/p4-model.cc:1149-1154 | before the egress pipeline, egress_port is the popped port, egress_spec is 0 and packet_length is the length register |
| Packets.EgressCloneCopy | model/p4-model.cc:1174-1185 | an egress clone is tagged EGRESS_CLONE and its registers are cleared but for the length |
| Packets.EnqueueActions | model/p4-model.cc:767-789 | enqueue makes at most one push, to the given port, on a queue index below nb_queues_per_port |
| Packets.MulticastActions | model/p4-model.cc:861-879 | multicast makes at most one push per replication target, each on a queue index below nb_queues_per_port |
| Packets.CloneToSession | model/p4-model.cc:974-986 | a session with neither a group nor a port sends nothing; every push is on a valid queue index |
| Packets.CloneActions | model/p4-model.cc:946-989 | a clone is sent only when a session was requested and its masked id is in the table; every push is on a valid queue index |
| Packets.IngressCloneCopy | model/p4-model.cc:962-972 | the ingress clone is tagged INGRESS_CLONE |
| Packets.ResubmitCopy | model/p4-model.cc:1005-1020 | the resubmitted copy carries the unparsed input, RESUBMIT, and the ingress length in its register and its field |
| Packets.IngressFate | model/p4-model.cc:997-1050 | a packet goes back to the input only when the resubmit flag is set, and is dropped only when egress_spec is the drop port; both cases push nothing, and every push is on a valid queue index |
| Packets.IngressOutcome | model/p4-model.cc:946-1050 | after ingress the switch only pushes to the egress buffers or notifies the learn engine, never the output buffer; what goes back to the input is a RESUBMIT packet |
| Packets.RecirculateCopy | model/p4-model.cc:1220-1238 | the recirculated copy keeps the deparsed data, is tagged RECIRC, and its length register and field are the data size |
| Packets.EgressFate | model/p4-model.cc:1203-1244 | at most one action, an output; what goes back to the input is a RECIRC packet |
| Packets.EgressOutcome | model/p4-model.cc:1149-1244 | after egress the switch only pushes clones to the egress buffers or sends to the output buffer, never the learn engine; what goes back to the input is a RECIRC packet |
| Lifecycle.EnqueueMapping | model/p4-model.cc:767-789 | enqueue produces nothing exactly when the priority is at least nb_queues_per_port; otherwise one push to the given port, queue nb_queues_per_port-1-priority, with the packet's egress port set |
| Lifecycle.EnqueuePriorityOrder | model/p4-model.cc:782-789 | a higher priority maps to a lower queue index |
| Lifecycle.ReplicaKeepsPriority | model/p4-model.cc:868-876 | a multicast copy keeps the priority and instance type of the original |
| Lifecycle.MulticastFanOut | model/p4-model.cc:861-879 | with the priority in range, exactly one push per replication target, in target order, to that target's port |
| Lifecycle.MulticastOutOfRange | model/p4-model.cc:861-879 | with the priority out of range, multicast pushes nothing |
| Lifecycle.MulticastCopies | model/p4-model.cc:868-876 | every multicast copy has its registers cleared except the original length, and keeps the original data and instance type |
| Lifecycle.BitAndBound | model/p4-model.cc:956 | the masked session id never exceeds the mask |
| Lifecycle.CloneActionsTagged | model/p4-model.cc:946-989 | every clone push carries the clone's instance type; a clone is sent only when a session was requested and the masked id is configured |
| Lifecycle.CloneBothWays | model/p4-model.cc:974-986 | a session with both a group and a port multicasts the clone, and then also enqueues it to the port, carrying the last replica's rid |
| Lifecycle.IngressFateExclusive | model/p4-model.cc:997-1050 | after ingress the original is resubmitted exactly when the resubmit flag is set, and dropped exactly when there is no resubmit, no group, and egress_spec is the drop port; never both |
| Lifecycle.IngressResubmit | model/p4-model.cc:997-1022 | the resubmitted copy carries the unparsed input data, RESUBMIT, and the ingress length in its register and field |
| Lifecycle.IngressMulticast | model/p4-model.cc:1025-1034 | with a group, the original is not enqueued; only REPLICATION copies go out, one per group member when the priority is in range |
| Lifecycle.IngressUnicast | model/p4-model.cc:1047-1050 | otherwise the original, tagged NORMAL, is enqueued to egress_spec, once when the priority is in range |
| Lifecycle.IngressOrder | model/p4-model.cc:946-1050 | after ingress: first the INGRESS_CLONE pushes, then the learn request when learn_id > 0, then the actions of the original's fate |
| Lifecycle.EgressFateExclusive | model/p4-model.cc:1203-1244 | after egress cloning, exactly one of three things happens. The packet is dropped when egress_spec is the drop port. Or it is recirculated as a RECIRC copy whose length is its data size. Or it is sent to the output buffer |
| Lifecycle.EgressOrder | model/p4-model.cc:1158-1244 | after egress: first the EGRESS_CLONE pushes, then at most one output, which comes last and happens exactly when the packet is neither dropped nor recirculated |
| P4Switch.IndexOf | model/p4-model.cc:1321-1328 | the first position of the destination, and none exactly when it is absent |
| P4Switch.Intern | model/p4-model.cc:1321-1328 | the index returned names the destination, and the list only ever grows at its end, by at most one entry |
| P4Switch.InternProperties | model/p4-model.cc:1321-1328 | after interning, the index names the destination. The list grows by one exactly when the destination was absent. Existing entries keep their positions. The list stays free of duplicates |
| P4Switch.InternIdempotent | model/p4-model.cc:1321-1328 | interning a known destination again changes nothing and yields the same index |
| P4Switch.ReceivedPacket | model/p4-model.cc:1268-1347 | the received packet carries the given id, data and port, cleared registers, NORMAL, the data length as its length, and the protocol, destination index and packet id in the optional fields that exist |
| P4Switch.P4Model.constructor | model/p4-model.cc:254-320 | input arbiter with capacities (10240, 1024), an empty mirror table, and no packets, counters or destinations |
| P4Switch.P4Model.Enqueue | model/p4-model.cc:767-789 | the egress-buffer pushes are exactly those of Packets.EnqueueActions |
| P4Switch.P4Model.Multicast | model/p4-model.cc:861-879 | the loop pushes exactly Packets.MulticastActions and leaves the last target's rid on the packet |
| P4Switch.P4Model.SendClone | model/p4-model.cc:974-986 | a clone is multicast to the session's group and/or enqueued to its port |
| P4Switch.P4Model.IngressThread | model/p4-model.cc:881-1051 | one pass pops the oldest packet, if any. It adds exactly the actions of Packets.IngressOutcome to the sink, bumps the ingress counters, and pushes a resubmitted copy when there is room |
| P4Switch.P4Model.IngressProcess | model/p4-model.cc:890-1050 | the work of ingress_thread on a popped packet equals Packets.IngressOutcome |
| P4Switch.P4Model.IngressCloning | model/p4-model.cc:946-989 | ingress cloning sends exactly Packets.CloneActions of the re-parsed copy and clears the clone request |
| P4Switch.P4Model.IngressFinish | model/p4-model.cc:992-1050 | learn, then the one fate of Packets.IngressFate, counting a drop |
| P4Switch.P4Model.EgressThread | model/p4-model.cc:1053-1245 | for a popped (port, priority, packet), the sink, counters and high queue change exactly as Packets.EgressOutcome says; with nothing popped, nothing changes |
| P4Switch.P4Model.EnterEgress | model/p4-model.cc:1149-1154 | the packet handed to the egress pipeline is EgressEntry: egress port set to the popped port, egress spec 0, packet length from the length register |
| P4Switch.P4Model.EgressCloning | model/p4-model.cc:1158-1200 | egress cloning sends exactly Packets.CloneActions of the EGRESS_CLONE copy and clears the clone request |
| P4Switch.P4Model.EgressFinish | model/p4-model.cc:1203-1244 | drop (counted), or deparse and then recirculate or output, as Packets.EgressFate says |
| P4Switch.P4Model.ReceivePacket | model/p4-model.cc:1247-1375 | the id stamped is the pre-increment counter, the counter and total-in count go up by one, the destination is interned, and the received packet is pushed at the front of the normal queue |
| P4Switch.P4Model.NewPacket | model/p4-model.cc:1268-1346 | the packet built from the received bytes is ReceivedPacket: metadata reset, registers cleared with the length, ingress port, length and NORMAL instance type set, and protocol, destination index and packet id written only into fields the PHV has |
| P4Switch.P4Model.RunIngressTimerEvent | model/p4-model.cc:1381-1394 | the ingress pass runs whenever get_size() is positive, which is always; the next delay is therefore always 100 us |
| P4Switch.P4Model.RunIngressTimerEventByOccupancy | model/p4-model.cc:1381-1394 | the corrected timer: a packet is taken exactly when one is held, and the delay follows the number held |
| P4Switch.TimerDelay | model/p4-model.cc:1387-1393 | the next ingress event is 100 us or 1 ms away, and the shorter delay is chosen exactly when the reported size exceeds 10 |
| HashEx.SignExtend | model/p4-model.cc:77 | a char below 0x80 keeps its value; a char with the top bit set stands for its value minus 256, which as a uint32_t is that value plus 2^32 |
| HashEx.FoldFrom | model/p4-model.cc:76-77 | the loop state: the first byte is consumed first, and the rest is folded from the state it leaves |
| HashEx.Hash | model/p4-model.cc:70-86 | the loop computes the FNV-style fold from 2166136261 with prime 16777619 over the sign-extended bytes, followed by the shift/add/xor finaliser |
| HashEx.FoldFromConcat | model/p4-model.cc:76-77 | the fold over a concatenation is the fold over the second part started from the fold of the first |
| HashEx.FoldIsFnv1aOnAscii | model/p4-model.cc:76-77 | on bytes below 0x80 the fold is exactly 32-bit FNV-1a |
| HashEx.SignedCharDiffers | model/p4-model.cc:77 | example: on byte 0x80 the fold differs from FNV-1a, because of sign extension |
| Helper.HexcharToInt | model/helper.cc:74-91 | the value is below 16, and 0 for a character that is not a hex digit |
| Helper.HexGlyphInverse | model/helper.cc:74-91 | HexcharToInt inverts the lower-case, upper-case and decimal digit glyphs |
| Helper.Accumulate | model/helper.cc:29-72 | the accumulator stays below 2^32 |
| Helper.StrToIntValue | model/helper.cc:29-72 | what StrToInt returns is below 2^32 |
| Helper.StrToInt | model/helper.cc:29-72 | the loops compute StrToIntValue. That is hex from index 2 when "0x" occurs anywhere, else binary from index 2 when "0b" occurs, else decimal from index 0; invalid characters are skipped and the result wraps mod 2^32 |
| Helper.ScanHex | model/helper.cc:34-49 | the base-16 loop from index 2 computes Accumulate over str[2..] in base 16 |
| Helper.ScanBinary | model/helper.cc:53-59 | the base-2 loop from index 2 computes Accumulate over str[2..] in base 2 |
| Helper.ScanDecimal | model/helper.cc:62-68 | the base-10 loop from index 0 computes Accumulate over str in base 10 |
| Helper.AccumulateIgnoresInvalid | model/helper.cc:35-67 | a character invalid in the base leaves the accumulator unchanged |
| Helper.StrToIntOfDecimal | model/helper.cc:29-72 | StrToInt of UintToString(n) is n mod 2^32 |
| Helper.StrToIntHexAnywhere | model/helper.cc:32-34 | example: "10x1" takes the hex branch and parses from index 2, giving 1 |
| Helper.StrToIntWraps | model/helper.cc:62-64 | example: decimal 2^32 + 1 parses to 1 |
| Helper.UintToString | model/helper.cc:177-186 | the decimal digits with no leading zero, and "0" for 0 |
| Helper.SignedDigitsOfPositive | model/helper.cc:15-18 | for a positive number, IntToStr's digits are the decimal digits |
| Helper.CString | model/helper.cc:25-26 | the string read from a char buffer ends at its first NUL |
| Helper.IntToStr | model/helper.cc:9-27 | for 0 < abs(num) < 10^9, the digits of num with the C signs of % and /; for 0 the empty string |
| Helper.ReverseInPlace | model/helper.cc:20-24 | the first n characters are reversed in place, and the rest are untouched |
| Helper.IntToStrFixed | model/helper.cc:9-27 | the corrected IntToStr: "0" for 0, the decimal digits otherwise |
| Helper.Uint32ipToHex | model/helper.cc:187-204 | "0x" followed by the 8 lower-case, zero-padded hex digits of ip |
| Helper.HexFillDigits | model/helper.cc:189-200 | the digit loop started on "0x" and zeros writes the lower-case hex digits of v right to left, leaving the leading zeros |
| Helper.Uint32ipToHexShape | model/helper.cc:187-204 | the result has 10 characters and lower-case hex digits after the prefix |
| Helper.StrToIntOfHexIp | model/helper.cc:29-72 | StrToInt(Uint32ipToHex(ip)) == ip |
| Helper.HexBytes | model/helper.cc:101-105 | an even-length body gives half as many bytes |
| Helper.HexstrToBytes | model/helper.cc:93-107 | byte j is 16·d(2j) + d(2j+1) over the body |
| Helper.HexBytesOfHexOf | model/helper.cc:93-107 | decoding the hex spelling of bytes gives the bytes back |
| Helper.HexstrToBytesOfHexIp | model/helper.cc:93-107 | HexstrToBytes(Uint32ipToHex(ip)) is the 4-byte big-endian encoding of ip |
| Helper.TopBits | model/helper.cc:138-152 | keeps the top n of a nibble's 4 bits and zeroes the rest |
| Helper.WidthBytes | model/helper.cc:130-131 | (bitWidth+7)/8 bytes |
| Helper.BinaryString | model/helper.cc:138-144 | the 4-character binary spelling of a nibble |
| Helper.TopNibbleBits | model/helper.cc:145-152 | the bit loops keep the top leftLen bits of the nibble in place |
| Helper.HexstrToBytesWidth | model/helper.cc:122-175 | (bitWidth+7)/8 bytes. Bytes before the one holding bit bitWidth are plain hex pairs. That byte keeps its top bitWidth-8j bits. Bytes past the end of the digit string are 0, from the zero-filled resize |
| Helper.PartialByte | model/helper.cc:136-171 | the byte holding the last bit, computed by either of the two branches |
| Helper.HexstrToBytesFullWidth | model/helper.cc:122-175 | at the full width of the body, the width variant agrees with HexstrToBytes |
| Helper.KeepTopBits | model/helper.cc:136-171 | the last byte keeps its top n bits and zeroes the rest |
| Helper.LastWidthByte | model/helper.cc:136-171 | the byte holding bit bitWidth is the plain pair with only its top bitWidth-8j bits kept |
| Helper.IpBytes | model/helper.cc:221-237 | always 4 bytes |
| Helper.IpStrToBytes | model/helper.cc:221-237 | for up to four dots, the loop computes IpBytes. Each dot stores the field so far mod 256 at the next index, and the last field always goes to index 3 |
| Helper.IpBytesOfIpString | model/helper.cc:221-237 | on "a.b.c.d" the result is [a, b, c, d] |
| Helper.IpBytesTwoFields | model/helper.cc:221-237 | "a.c" gives [a, 0, 0, c], because the last field always lands at index 3 |
| Helper.IpBytesFiveFields | model/helper.cc:221-237 | "a.b.c.d.e" gives [a, b, c, e]: the fourth dot stores d at index 3 and the last field overwrites it |
| Helper.IpBytesTruncate | model/helper.cc:231-235 | a field is stored mod 256 |
| Helper.IpStrToBytesWidth | model/helper.cc:239-247 | the first (bitWidth+7)/8 bytes of IpStrToBytes |
| Helper.IpStrToBytesWidthPrefix | model/helper.cc:239-247 | for bitWidth <= 32 those bytes are all taken from the 4 address bytes |
| Helper.IntToBytesSpec | model/helper.cc:249-276 | the length is the larger of the bytes needed and bitwidth |
| Helper.IntToBytes | model/helper.cc:249-276 | big-endian base-256 digits of stoi(input) as unsigned, left-padded with zeros to bitwidth bytes |
| Helper.IntToBytesValue | model/helper.cc:249-276 | the bytes read big-endian give the number back |
| Helper.IntToBytesTooLarge | model/helper.cc:261-263 | the "too large parameter" branch is taken exactly when n >= 256^bitwidth |
| Helper.IntToBytesFits | model/helper.cc:249-276 | a number that fits gives its fixed-width big-endian encoding |
| Helper.ParseParam | model/helper.cc:278-290 | width 32 goes to HexstrToBytes, every other width to IntToBytes with (bitwidth+7)/8 bytes |
| Helper.ParseParamOfHexIp | model/helper.cc:278-290 | ParseParam(Uint32ipToHex(ip), 32) is the 4-byte big-endian ip |
| Helper.ParseParamOfDecimal | model/helper.cc:278-290 | ParseParam of a decimal that fits gives its fixed-width big-endian encoding |
| Numerals.CDiv | model/helper.cc:17 | C division truncates toward zero: the quotient has the sign of the dividend, and its magnitude is |a| / b rounded down |
| Numerals.CRem | model/helper.cc:16 | the C remainder takes the sign of the dividend and satisfies a == b·(a/b) + a%b |
| Numerals.DigitsSound | model/helper.cc:179-184 | the digit string of n is all digits, has no leading zero, is empty only for 0, and reads back as n |
| Numerals.DecimalSound | model/helper.cc:179-184 | the decimal spelling is non-empty, starts with '0' only for 0 ("0"), and reads back as n |
| Numerals.HexDigitsShape | model/helper.cc:189-200 | k lower-case hex digits |
| Numerals.LittleEndianValue | model/helper.cc:256-260 | the pushed bytes are the little-endian base-256 digits of n |
| Numerals.LittleEndianLength | model/helper.cc:256-263 | n needs at most w bytes exactly when n < 256^w |
| Numerals.FixedBEValue | model/helper.cc:264-268 | the padded, reversed bytes read big-endian give n mod 256^w |
| Numerals.FixedBEOfLittleEndian | model/helper.cc:264-268 | padding the little-endian digits and reversing them gives the fixed-width big-endian encoding |
| JsonRewrite.FindStandardMetadataLoop | examples/p4src/pre_processing_json.py:25-29 | the found loop stops at the first matching parameter and raises on a parameter that is not a dict |
| JsonRewrite.FindStandardMetadata | examples/p4src/pre_processing_json.py:25-29 | found is witnessed by a matching parameter, and an error by a parameter that is not a dict |
| JsonRewrite.RewriteCondition | examples/p4src/pre_processing_json.py:24-29 | only a dict whose op is mark_to_drop and whose parameters are a list can be rewritten or raise, and it raises only on a parameter that is not a dict |
| JsonRewrite.ReplaceData | examples/p4src/pre_processing_json.py:19-35 | only a list or a dict can raise, and a list stays a list, a dict a dict, and a scalar a scalar |
| JsonRewrite.FindStandardMetadataMeaning | examples/p4src/pre_processing_json.py:25-29 | found holds exactly when some parameter matches and every one before it is a non-matching dict. It is false without raising exactly when every parameter is a non-matching dict |
| JsonRewrite.DropAndEmptyAreFixed | examples/p4src/pre_processing_json.py:31-34 | "drop" and [] are their own rewrite |
| JsonRewrite.ShapePreserved | examples/p4src/pre_processing_json.py:19-35 | scalars are returned unchanged, lists keep their length element by element, and dicts keep their key set |
| JsonRewrite.MarkToDropRewritten | examples/p4src/pre_processing_json.py:24-34 | a matching mark_to_drop dict becomes op "drop" with parameters [], and its other values are rewritten |
| JsonRewrite.MarkToDropKept | examples/p4src/pre_processing_json.py:24-34 | a mark_to_drop dict without a matching parameter keeps its op; its parameters are only rewritten recursively |
| JsonRewrite.ParamMatchesPreserved | examples/p4src/pre_processing_json.py:27 | rewriting a parameter does not change whether it matches |
| JsonRewrite.FindPreserved | examples/p4src/pre_processing_json.py:25-29 | rewriting a parameter list does not change the result of the found loop |
| JsonRewrite.ResultIsClean | examples/p4src/pre_processing_json.py:19-35 | no node of the result satisfies the rewrite condition |
| JsonRewrite.CleanUnchanged | examples/p4src/pre_processing_json.py:19-35 | a document with nothing to rewrite is returned as it is |
| JsonRewrite.Idempotent | examples/p4src/pre_processing_json.py:19-35 | rewriting a second time changes nothing |
| JsonRewrite.SingletonList | examples/p4src/pre_processing_json.py:20-22 | example: a one-element list is rewritten element-wise |
| JsonRewrite.SingleKeyDict | examples/p4src/pre_processing_json.py:33-34 | example: the value of a dict without op is rewritten in place |
| JsonRewrite.MarkToDropPrimitive | examples/p4src/pre_processing_json.py:24-32 | example: the documented mark_to_drop primitive becomes drop with no parameters |
| JsonRewrite.NestedMatchRewritten | examples/p4src/pre_processing_json.py:20-34 | a match nested in a list inside a dict is rewritten too |
| JsonRewrite.NonDictParameterRaises | examples/p4src/pre_processing_json.py:27 | a parameter that is not a dict, met before any match, makes the rewrite fail |

## Left out

- Concurrency: the mutexes and condition variables of `InputBuffer` and `MirroringSessions`. The model is sequential. A blocking push (NORMAL or SENTINEL into the input arbiter, and the ingress push from `ReceivePacket`) becomes a precondition that the queue has room.
- The bmv2 match-action engine is not part of this model. That covers the parser, the pipelines, the deparser, `copy_fields_between_phvs`, PRE replication and the learn engine. They are parameters (`Packets.Engine`), and the model states nothing about what they compute. The `parser_error` and `checksum_error` fields set in `ingress_thread` belong to this abstract ingress.
- The egress buffers (bmv2 `QueueingLogicPriRL`): capacity, rate and priority pop. Enqueued packets are recorded as `ToEgress` actions. `EgressThread` receives the popped `(port, priority, packet)` as a parameter, so the scan for a non-empty queue (`none_flag`) is not modelled. The queueing-metadata fields are not modelled either: those set in `enqueue`, and `deq_timedelta`, `deq_qdepth` and `qid` (nb_queues_per_port - 1 - priority) set by the egress thread before the egress pipeline. Nor is `set_ingress_length` on the recirculated copy: the packet keeps no ingress length in the model, because the ingress thread takes the ingress size from the length register, which the copy does carry.
- The output buffer (capacity 10240) and `transmit_thread` are not modelled. Output is a `ToOutput` action on an unbounded sink.
- ns-3 plumbing: the Simulator, timestamps, the conversion between ns-3 and bmv2 packets, the ByteTag map, CSV tracing files and console messages. Only the five `tracing_*` counters are modelled.
- The rescheduling done by the `Run*TimerEvent` methods. `RunIngressTimerEvent` returns the delay it would choose. `RunEgressTimerEvent` and `RunTransmitTimerEvent` are plain calls of the thread they schedule and are not modelled separately.
- `init` and `InitFromCommandLineOptionsLocal`: the options parser, the thrift server and the CLI call.
- `bmv2_hash` (xxh64) is foreign code. `hash_ex` is modelled; nothing is claimed about its collisions or invertibility.
- `StrToDouble` (floating point) and `getTickCount` (wall clock).
- The `mirroring_*` member functions of `P4Model` are one-line delegations to `MirroringSessions` and are not modelled separately.
- P4Switch.P4Model.ReceivePacket: the `-1` return is not modelled. The packet it guards against is always created, so the method always returns 0.
- `RegisterAccess::MAX_MIRROR_SESSION_ID` and `MIRROR_SESSION_ID_MASK` are defined by bmv2 and are constructor parameters here.
- Instance types are named constructors rather than the engine's numeric `PKT_INSTANCE_TYPE_*` values.
- Each `ns3i_*` field of the P4 program has two accepted spellings. The model merges them into one optional PHV field.
- Packets.ResetMetadata: zeroes only the metadata fields the switch reads by name. Every other field of the PHV is abstract (`headers`) and kept as it is.
- Helper.IntToStr: requires |num| < 10^9, since ten digits overflow the 10-character buffer in the source.
- Helper.HexstrToBytes: requires an even-length body. With an odd length the last iteration reads the terminating '\0', which is harmless, but writes `res[j]` one past the end of the result buffer.
- Helper.IpStrToBytes: requires at most four dots and fields that stay within `int`. A fourth dot writes byte 3, which the last field then overwrites (see Helper.IpBytesFiveFields); a fifth writes past the 4-byte result, and a field beyond `int` overflows.
- Helper.IntToBytes: requires the input to be a decimal numeral that `std::stoi` accepts without overflow. Leading whitespace and trailing garbage, which `stoi` tolerates, are not modelled.
- JsonRewrite: JSON numbers are integers, and `main` (file reading and writing) is not part of this model. A Python exception is modelled as `None`.

## Findings

| source | as written | input that shows it | evidently intended | confidence | as-written member | corrected member |
|---|---|---|---|---|---|---|
| model/helper.cc:13-25 | for 0, `ss[0] = '0'` is followed by `ss[pos] = '\0'` with pos still 0, so the '0' is overwritten | num = 0 gives "" | "0" | high; not executed | Helper.IntToStr | Helper.IntToStrFixed |
| model/p4-model.cc:1383-1393 | `get_size()` returns capacity_hi + capacity_lo, so `size > 0` and `size > 10` always hold | an empty input arbiter: the ingress pass still runs and the next event is 100 us away | run ingress and pick 100 us only while packets are waiting, else 1 ms | medium; not executed | P4Switch.P4Model.RunIngressTimerEvent | P4Switch.P4Model.RunIngressTimerEventByOccupancy |
