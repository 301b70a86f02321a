# Verified models of the lock table and the event library

Models, in Dafny, of the code in this repository that keeps the most state, with proofs about them.

- **evbuffer** (`EvBuffers`, `EvBufferFront`, `EvBufferMove`, `EvBufferPullup`, `EvBufferReserve`,
  `EvBufferCommit`, `EvBufferExpand`, `EvBufferRead`, `EvBufferLines`, `EvBufferBehind`, `EvBufferRuns`): a byte queue
  that is a linked list of chunks. The chain objects and the buffer's pointers are updated as in the source; the
  contents are the concatenation of the chunks' bytes. `Valid` is the weak invariant: distinct linked chains, the sum of their
  lengths, and `last_with_datap` as documented in `evbuffer-internal.h:86-99`. `NoGap` is the strong one: no empty
  chunk before one with data. Every operation is proved to be the obvious operation on byte sequences; runs in
  `EvBufferRuns` show where an invariant is lost, and `EvBufferBehind` what comes of that.
- **DNS messages** (`DnsNames`, `DnsLabels`, `DnsMessages`, `DnsRequests`, `DnsReplies`, `DnsAnswers`,
  `DnsExchanges`): RFC 1035, sections 3.1 and 4.1.1 to 4.1.4. `Decode` says what a name in a message means; the
  parser computes it for every packet, and whatever the compressing writer puts out reads back. Queries, responses
  and the reading of replies are built on that, up to a whole exchange.
- **uthash** (`UtHash`, `UtHashLoad`, `UtHashTable`, `UtHashSort`): intrusive lists through the items, buckets that
  double, and the merge sort. `Table.Valid` is what `HASH_FSCK` checks and that every item is in the bucket of its key;
  `Table.Loose` bounds how full the buckets become.
- **Rate limits** (`TokenBuckets`, `BevLimits`, `BevGroups`): the arithmetic, in 64-bit words; one limited
  bufferevent with its flags and its timer; and the protocol between a group and its members as a state machine
  over all interleavings, where trying a member's lock may fail at any time.
- **Event base** (`EventBases`, `EventQueues`, `EventOps`, `EventLoop`): flags, queues and counters of events, and
  common timeouts. `EventBase.Valid` says that each event stands in just the queues its flags name and that the
  counters are right; `Scheduled`, that no common timeout is lost.
- **Page locks** (`PageLocks`): the server's table, its replies, runs of requests, and which pages share an entry.

`ByteSeqs` has the concatenation of byte sequences. `dafny verify dfyconfig.toml` checks everything.

## What turned out otherwise than documented

Each of these has its exact condition and, where a property fails, an input or a run that shows it.

- A prepend of no bytes before a reference chain puts an empty chain in front and so breaks the strong chain
  invariant (`EvBufferFront.Prepend`, `EvBufferRuns.PrependNothing`).
- A one-vector reservation can be refused by the commit (`EvBufferExpand.ReserveOne`,
  `EvBufferRuns.ReserveAndBeRefused`).
- A commit of one vector for the last chain succeeds also when an empty chain stands between that one and the last
  one with data; `last_with_datap` then stays behind, against `evbuffer-internal.h:86-99`
  (`EvBufferCommit.CommitSpace`, `EvBufferRuns.CommitSecondOnly`).
- `evbuffer_remove_buffer` counts on buffers without gaps. With all bytes in one chain behind empty ones, the
  source's `last_with_datap` ends up at an empty chain (`EvBufferMove.RemoveBuffer`,
  `EvBufferRuns.RemoveFromGapped`); if it moves an empty chain before one with data, that of the destination stays
  behind (`EvBufferMove.MoveChains`, `EvBufferRuns.GapToMove`), and the bytes copied next come before the last ones
  moved, or an assertion fails (`EvBufferBehind.RemoveGap`, `EvBufferRuns.RemoveMisplaces`).
- The final zero of a name is written without asking for room (evdns.c:1659): one byte behind the usable ones just
  under `DnsLabels.RunsOver`, and behind the 1500 bytes of a response just under `DnsReplies.OverrunsAt`
  (`FormatResponse`, `LeavesTheBuffer`, `ByteBehind`).
- `dnsname_to_labels` accepts names with empty labels, which a reader takes to end there (`DnsLabels.ReadBackIff`,
  `DnsMessages.NameFoundIff`, `DnsLabels.EmptyLabelEnds`).
- A common timeout of a million microseconds is not carried into a second, so that one of a second can stand beside
  it (event.c:1451; `EventOps.SameTime`, `EventOps.TwoForOneSecond`).
- `request_parse` looks for the opcode in flags from which it has already been masked out (evdns.c:1241 and 1283),
  so no query is refused for not being a standard one. A query without questions is refused, as allocating no
  elements gives NULL (evdns.c:1252, event.c:3447).
- `HOST_NAME_MAX` is 255 only where `limits.h` does not define it (evdns.c:122-123); with glibc it can be 64. It is
  a parameter here.
- The token bucket update is the naive one only if the limit is not above the maximum, which a negative charge by
  the user can bring about (`TokenBuckets.RefilledIsNaive`). A huge limit can even become negative
  (`TokenBuckets.UpdateLosesSign`, `SignIsLost`), and then a direction may be used up without being suspended
  (`BevLimits.Bufferevent.RlimMax`, `BevLimits.UsedUpUnnoticed`).
- The page lock server does not keep readers and writers apart when one of several readers unlocks, and it never
  puts anybody on the waiting list (remote_page_lock_manager.cc:156-158 and 200-205). `PageLocks.ExclusionIff`
  says exactly which runs are exclusive.

## Model

| member | source | states |
|---|---|---|
| `EvBuffers.ChainCapacity` | multi_net_io/libevent/buffer.c:155-192 | doubles the smallest size until header and data fit, or takes exactly what is asked for if that is large: always room for the size asked for, and never none |
| `EvBuffers.EvBuffer.constructor` | multi_net_io/libevent/buffer.c:360-374 | a new buffer is empty and satisfies both chain invariants |
| `EvBuffers.EvBuffer.TrailingEmptyChains` | multi_net_io/libevent/buffer.c:289-306 | finds the pointer behind the last chain with data (or the very first one), from which on all chains are empty |
| `EvBuffers.EvBuffer.LinkAfter` | multi_net_io/libevent/buffer.c:307-326 | cutting off the empty chains at the end and linking a chain there gives a linked list with the right first, last, last_with_data and count |
| `EvBuffers.EvBuffer.ChainInsert` | multi_net_io/libevent/buffer.c:307-326 | the contents grow by the bytes of the chain; the weak chain invariant is kept, and the strong one, too |
| `EvBuffers.EvBuffer.Grow` | multi_net_io/libevent/buffer.c:1745-1765 | bytes put behind the last ones in use are appended to the contents, without gaps |
| `EvBuffers.EvBuffer.AlignLast` | multi_net_io/libevent/buffer.c:1902-1909 | moving the bytes of a chain to the start of its memory changes no byte of the contents |
| `EvBuffers.EvBuffer.Add` | multi_net_io/libevent/buffer.c:1722-1817 | for every layout of chains: succeeds just when the sum of lengths fits into size_t, and then appends exactly the data; both chain invariants are kept |
| `EvBuffers.EvBuffer.AddInNewChain` | multi_net_io/libevent/buffer.c:1767-1807 | data split over the rest of one chain and a new one is appended as a whole; the new chain is twice as large as the old one up to 4096 bytes, or as large as the data need |
| `EvBufferFront.PassChains` | multi_net_io/libevent/buffer.c:1113-1137 | stops in the chain that holds byte number len, never passes the last one with data, and repairs last_with_datap on the way |
| `EvBufferFront.Drain` | multi_net_io/libevent/buffer.c:1095-1160 | takes away exactly the first min(len, total) bytes and keeps both chain invariants |
| `EvBufferFront.Prepend` | multi_net_io/libevent/buffer.c:1819-1900 | puts exactly the data in front, for every layout of chains; a prepend of nothing leaves an empty chain before one with data just when the first chain is a reference chain |
| `EvBufferRuns.PrependNothing` | multi_net_io/libevent/buffer.c:1819-1900 | a run that leaves such an empty chain: a reference chain, and nothing prepended |
| `EvBufferFront.PrependToMutable` | multi_net_io/libevent/buffer.c:1845-1880 | data split over the free front of the first chain and a new chain is prepended as a whole |
| `EvBufferFront.Dropped` | multi_net_io/libevent/buffer.c:1113-1137 | dropping i parts and some bytes more leaves the rest of the bytes, the same last part with data, and no new gap |
| `EvBufferMove.AddBuffer` | multi_net_io/libevent/buffer.c:960-1004 | all bytes of the source end up behind those of the destination, in order, the source is empty, the two share no chain; a no-gap pair stays so |
| `EvBufferMove.PrependChain` | multi_net_io/libevent/buffer.c:942-958 | the chains of the source come first; the result is without gaps if and only if both were and the source had no empty chain at its end |
| `EvBufferMove.PrependBuffer` | multi_net_io/libevent/buffer.c:1049-1093 | all bytes of the source end up in front of those of the destination, and the source is empty; the strong invariant survives just under the condition of PrependChain |
| `EvBufferMove.AppendChain` | multi_net_io/libevent/buffer.c:883-900 | the contents are joined, and last_with_datap leads to the last chain with data of the joined list |
| `EvBufferMove.AdvanceLastWithData` | multi_net_io/libevent/buffer.c:702-716 | moves last_with_datap over chains with data only, and stops before an empty one or the end |
| `EvBufferMove.RemoveBuffer` | multi_net_io/libevent/buffer.c:1254-1342 | unless it moves an empty chain before one with data: moves exactly the first min(datlen, total) bytes to the end of the destination, and the two share no chain; the source stays valid if and only if not all its bytes are in one chain with empty ones before it (Forgets); without gaps in the source none arise in either |
| `EvBufferBehind.RemoveGap` | multi_net_io/libevent/buffer.c:1254-1342 | in the other case: the bytes copied after the chains are put before the last ones moved, or evbuffer_add fails an assertion; last_with_datap stays behind |
| `EvBufferBehind.AddBehind` | multi_net_io/libevent/buffer.c:1722-1817 | evbuffer_add on a buffer whose last_with_datap stays behind: if the chain there has room the bytes go into the middle of the contents, and otherwise the assertion that all chains to be freed are empty (buffer.c:299) fails |
| `EvBufferMove.MoveChains` | multi_net_io/libevent/buffer.c:1301-1317 | whole chains change owner: what was cut off stays linked, what was moved is appended; last_with_datap of the destination is right afterwards if and only if no empty chain before one with data was moved |
| `EvBufferMove.MovesGapIs` | multi_net_io/libevent/buffer.c:1286-1300 | what can be told from the layout before the call says whether the chains that the loop passes have such a gap |
| `EvBufferMove.JoinedSome` | multi_net_io/libevent/buffer.c:1301-1317 | the walk to the first empty chain finds the last one with data if and only if there is no such gap |
| `EvBufferRuns.RemoveFromGapped` | multi_net_io/libevent/buffer.c:1286-1300 | a source that is left with last_with_datap at an empty chain, made by a prepend of nothing |
| `EvBufferRuns.GapToMove` | multi_net_io/libevent/buffer.c:1301-1317 | a valid pair of buffers with such a gap to be moved, made by prepending a buffer that ends with reserved space |
| `EvBufferRuns.RemoveMisplaces` | multi_net_io/libevent/buffer.c:1301-1322 | a run on which three bytes removed do not arrive in their order |
| `EvBufferMove.Joined` | multi_net_io/libevent/buffer.c:869-900 | joining two lists of parts, less the empty ones at the end of the first, joins their bytes and keeps the meaning of last_with_data |
| `EvBufferMove.JoinedBefore` | multi_net_io/libevent/buffer.c:942-958 | a list put in front of another one with all its parts leaves no gap if and only if its last part has data |
| `EvBufferPullup.Pullup` | multi_net_io/libevent/buffer.c:1344-1454 | changes no byte and no count; true if and only if between 1 and all bytes were asked for, which then stand in the first chain; both chain invariants are kept |
| `EvBufferPullup.CopyWhole` | multi_net_io/libevent/buffer.c:1418-1433 | copies whole chains as long as they fit, and notices whether it passed the last chain with data or the owner of last_with_datap |
| `EvBufferPullup.PullLinks` | multi_net_io/libevent/buffer.c:1435-1449 | the repair of first, last and last_with_datap is right in each combination of what was pulled in |
| `EvBufferPullup.Pulled` | multi_net_io/libevent/buffer.c:1418-1449 | a list of parts with the first bytes gathered in one part has the same bytes, and no new gap |
| `EvBufferReserve.CountSpace` | multi_net_io/libevent/buffer.c:2056-2085 | counts the free bytes of at most n chains from the first one with space on, and says whether they are enough |
| `EvBufferReserve.ExpandFast` | multi_net_io/libevent/buffer.c:2039-2147 | afterwards at most n chains hold the free bytes asked for, without any change of contents |
| `EvBufferReserve.SetupVecs` | multi_net_io/libevent/buffer.c:2213-2247 | never walks off the list; the vectors are the free space of consecutive chains, each as a whole but the last one if exact; they total at least (if exact, exactly) what was asked for, and no vector is one too many |
| `EvBufferReserve.ReserveSpace` | multi_net_io/libevent/buffer.c:669-700 | with two or more vectors: total at least size, with no vector too many, each the whole free space of its chain; contents unchanged, and of the form that a commit accepts |
| `EvBufferCommit.CommitSpace` | multi_net_io/libevent/buffer.c:718-786 | succeeds if and only if the vectors are the free space of the last chain or of the chains from the first with space on; then the contents grow by exactly the bytes committed, in order; last_with_datap is right afterwards if and only if it was not one vector with bytes for a last chain two or more behind the last one with data (SkipsChain); the strong invariant is kept if only vectors at the end are empty |
| `EvBufferCommit.ReservedCommits` | multi_net_io/libevent/buffer.c:669-786 | whatever a reservation of two or more vectors handed out can be committed at any shorter lengths, in part or as a whole from the first vector on, and skips no chain |
| `EvBufferRuns.CommitSecondOnly` | multi_net_io/libevent/buffer.c:732-743 | the run that shows the other case: two empty chains are reserved behind a full one, and only the second is filled and committed; the bytes count, last_with_datap stays behind |
| `EvBufferCommit.Fill` | multi_net_io/libevent/buffer.c:669-700 | writing to reserved space changes no byte in use and no chain |
| `EvBufferCommit.AppendInPlace` | multi_net_io/libevent/buffer.c:669-786 | to reserve, write and commit is to append |
| `EvBufferCommit.Committed` | multi_net_io/libevent/buffer.c:755-775 | growing consecutive parts, from the first with space on, appends the bytes joined; where last_with_data ends up; when no gap arises |
| `EvBufferExpand.ExpandSinglechain` | multi_net_io/libevent/buffer.c:1927-2036 | one chain, at or right after the last with data, has the space asked for, contents unchanged; which chain that is |
| `EvBufferExpand.ReserveOne` | multi_net_io/libevent/buffer.c:682-690 | a one-vector reservation; committing it is refused if and only if the space was found in the chain after the first one with space while yet another chain follows |
| `EvBufferRuns.ReserveAndBeRefused` | multi_net_io/libevent/buffer.c:682-786 | a run on which even a commit of nothing is refused: two reservations left two empty chains behind one with a little space |
| `EvBufferRead.CopyoutFrom` | multi_net_io/libevent/buffer.c:1184-1249 | gives exactly the bytes from the position on, as many as asked for or are there; refuses if and only if position and length together do not fit into a signed word |
| `EvBufferRead.CopyBytes` | multi_net_io/libevent/buffer.c:1200-1244 | the loop over the chains gives just those bytes, for every layout |
| `EvBufferRead.Remove` | multi_net_io/libevent/buffer.c:1164-1176 | what it gives, followed by what stays, is what was there |
| `EvBufferRead.PtrMemcmp` | multi_net_io/libevent/buffer.c:2664-2698 | zero if and only if the bytes stand at the position, however they are spread over chains; -1 if there are too few; otherwise the sign of the first difference |
| `EvBufferRead.SearchRange` | multi_net_io/libevent/buffer.c:2707-2769 | the least match at or after the start that ends by the limit; not found only if there is none |
| `EvBufferLines.PtrSet` | multi_net_io/libevent/buffer.c:2609-2662 | sets a position, or moves it on: succeeds just for positions within the bytes, and gives the chain and the offset of that byte; what a failure leaves in the position |
| `EvBufferLines.PtrSubtract` | multi_net_io/libevent/buffer.c:2589-2607 | moves a position back, within its chain or by a new walk, and fails only if it is not that far |
| `EvBufferLines.FindByte` | multi_net_io/libevent/buffer.c:1466-1535 | the first CR or LF, or given byte, at or after the position |
| `EvBufferLines.SpanEol` | multi_net_io/libevent/buffer.c:1537-1575 | the length of the longest stretch of CR and LF at the position |
| `EvBufferLines.SearchEol` | multi_net_io/libevent/buffer.c:1589-1677 | for each of the five styles: finds the first end of line from the position on and where it ends, or that there is none; the position it gives is that of the first byte of it, inside its chain |
| `EvBufferLines.Readln` | multi_net_io/libevent/buffer.c:1679-1720 | the contents are line ++ terminator ++ rest, for the first terminator; the line is given and the rest stays; or nothing changes |
| `DnsNames.NameParse` | multi_net_io/libevent/evdns.c:959-1013 | terminates on every packet, pointer loops included; succeeds if and only if the labels decode and the dotted name fits; the index moves on, to at most the packet length and just past the bytes in place |
| `DnsNames.DecodeAfterIs` | multi_net_io/libevent/evdns.c:970-1005 | reading with an accumulator is reading |
| `DnsNames.FollowPointer` | multi_net_io/libevent/evdns.c:981-992 | a pointer leads on if and only if it can lead to a name: both bytes are there, the target is in the packet and there were no more pointers than bytes |
| `DnsNames.ReadingGrows` | multi_net_io/libevent/evdns.c:993-1003 | one more label either is part of the name or makes it too long |
| `DnsNames.JoinGrows` | multi_net_io/libevent/evdns.c:985-1003 | a dotted name only grows as labels are added, so giving up early never refuses a name that fits |
| `DnsLabels.JoinLabels` | multi_net_io/libevent/evdns.c:1594-1663 | splitting a name at dots and joining the labels gives the name less a final dot |
| `DnsLabels.ReadBackIff` | multi_net_io/libevent/evdns.c:959-1013 | the labels before the first empty one are the name, less a final dot, if and only if it has no empty label, or is the dot |
| `DnsLabels.EmptyLabelEnds` | multi_net_io/libevent/evdns.c:1632-1652 | "a..b" is accepted, and reads as "a" |
| `DnsLabels.DecodePrefix` | multi_net_io/libevent/evdns.c:959-1013 | what can be read from a message can be read, with the same result, whatever is appended to it |
| `DnsLabels.LabelTable.GetPos` | multi_net_io/libevent/evdns.c:1557-1568 | the position of an entry for that very name, or -1 only if there is none |
| `DnsLabels.MarkedDecodes` | multi_net_io/libevent/evdns.c:1617-1650 | if the rest of a name can be read back where it was written, then so can each longer rest |
| `DnsLabels.PointerCompletes` | multi_net_io/libevent/evdns.c:1625-1631 | a pointer to a table entry completes a name, whatever stands before it in the message |
| `DnsLabels.NameToLabels` | multi_net_io/libevent/evdns.c:1594-1663 | a name written with suffix compression reads back as its labels, up to the first empty one, and ends where the writer says if there is none; all table entries, old and new, stay good; a name that has an entry is just a pointer, another one gets an entry for later; fails only for a label over 63 bytes, a name over 255 or want of room; gives one offset more than the bytes it may use if and only if RunsOver, and only then is a byte behind them written |
| `DnsLabels.RunsOverIff` | multi_net_io/libevent/evdns.c:1655-1659 | the unchecked final zero goes behind the usable bytes if and only if no rest of the name is in the table and its last label, not empty, ends just with them |
| `DnsLabels.OneRunsOver` | multi_net_io/libevent/evdns.c:1655-1659 | one such name for every length of buffer |
| `DnsLabels.NameEntered` | multi_net_io/libevent/evdns.c:1617-1662 | a name that is in the table already enters nothing, another one enters itself and its rests |
| `DnsLabels.UndottedEncodable` | multi_net_io/libevent/evdns.c:1594-1663 | a name as the server read it can be written again and stays the same |
| `DnsMessages.PutNames` | multi_net_io/libevent/evdns.c:1594-1663 | compression round trip: names written one after another through one table read back, each at its offset, as themselves with the offset of the next; a name with an empty label reads back as what is before that |
| `DnsMessages.NameReadBack` | multi_net_io/libevent/evdns.c:959-1013 | a name whose labels stand in a message is given by name_parse, however the message goes on, up to its first empty label |
| `DnsMessages.NameFoundIff` | multi_net_io/libevent/evdns.c:1594-1663 | any name that was accepted is found by a reader if and only if it has no empty label, or is the dot |
| `DnsMessages.PastIff` | multi_net_io/libevent/evdns.c:1655-1659 | a sequence of names and numbers passes the end of the buffer if and only if one of the names runs over where it is written |
| `DnsMessages.RequestParse` | multi_net_io/libevent/evdns.c:1214-1297 | carries out the reading of requests, for every packet; the opcode check that follows never refuses anything. What that comes to is in DnsRequests |
| `DnsRequests.RequestRead` | multi_net_io/libevent/evdns.c:1214-1297 | a request with any number of questions is read as its id, just the flags RD and CD, and all questions in their order; if it is an answer or asks nothing it is refused |
| `DnsRequests.CutIsRefused` | multi_net_io/libevent/evdns.c:1214-1297 | if any number of bytes is missing at its end it is refused |
| `DnsMessages.RequestDataBuild` | multi_net_io/libevent/evdns.c:1679-1704 | the query is read by request_parse as the same id, RD and exactly one question; always succeeds with the room the source asks for; behind the buffer a zero is written if and only if the name runs over |
| `DnsMessages.OneQuestionReadBack` | multi_net_io/libevent/evdns.c:1214-1297 | the header and one question are all that a reader finds |
| `DnsReplies.PutNameData` | multi_net_io/libevent/evdns.c:1944-1956 | the length filled in afterwards is right and harms neither the name behind it nor any table entry |
| `DnsReplies.PutItem` | multi_net_io/libevent/evdns.c:1931-1968 | a record is written whole, or the buffer was too small for it |
| `DnsReplies.FormatResponse` | multi_net_io/libevent/evdns.c:1890-1985 | fails if and only if the error code is bad or a question cannot be written; at most 512 bytes; without the TC bit the packet holds header, questions and records of all three sections, one after another, exactly to its end; the TC bit is added if and only if the records cannot all be written or take more than 512 bytes, and then the packet is the first 512 bytes of what was written, with that bit alone changed: each question and record that ends within them stands there, and none was left out that would fit into the 1500 bytes uncompressed; of the memory behind the 1500 bytes of the buffer, the first byte becomes zero if and only if some name overruns them (OverrunsAt), and nothing else is touched |
| `DnsReplies.FinishResponse` | multi_net_io/libevent/evdns.c:1970-1985 | the end of it: the whole message if it ends within 512 bytes, and otherwise its first 512 bytes, in which the TC bit alone is changed |
| `DnsReplies.PutItems` | multi_net_io/libevent/evdns.c:1931-1968 | the loop over a section: all its records are written, or those before the first that does not fit |
| `DnsReplies.PastIsOverrun` | multi_net_io/libevent/evdns.c:1890-1985 | the writer passes the 1500 bytes if and only if some name, of a question, a record or its data, overruns them where it is written |
| `DnsReplies.LeavesTheBuffer` | multi_net_io/libevent/evdns.c:1890-1985 | a response of sound records one of whose names overruns the 1500 bytes |
| `DnsReplies.ByteBehind` | multi_net_io/libevent/evdns.c:1890-1985 | a run on any such response: the byte behind was 1 and is 0 afterwards |
| `DnsReplies.MessageWritten` | multi_net_io/libevent/evdns.c:1908-1972 | the parts written one after another are the message |
| `DnsReplies.ResponseFlagsKeep` | multi_net_io/libevent/evdns.c:1905-1906 | setting the answer bit and the error code does not touch the TC bit |
| `DnsReplies.ResponseFlagsAre` | multi_net_io/libevent/evdns.c:1905-1906 | which bits of the flags are the answer bit, the request's and the error |
| `DnsReplies.SectionsSize` | multi_net_io/libevent/evdns.c:1920-1929 | the sections take the room of their records |
| `DnsAnswers.ReplyParse` | multi_net_io/libevent/evdns.c:1016-1210 | carries out the reading of replies record by record, for every packet; which packets are ignored, fail or answer, and with what, is in DnsExchanges |
| `DnsExchanges.IgnoredIff` | multi_net_io/libevent/evdns.c:1035-1053 | a packet is ignored if and only if it is shorter than a header, or no request has its id, or its answer bit is clear; an answer has neither TC nor an error other than 0 and 3 |
| `DnsExchanges.AnsweredAsked` | multi_net_io/libevent/evdns.c:1063-1092 | any packet at all that is taken for an answer holds a question whose name is the name in the query at the same place, equal letter by letter or but for the case of ASCII letters |
| `DnsExchanges.StepFails` | multi_net_io/libevent/evdns.c:1107-1170 | a record of the type asked for whose data are no whole number of addresses, or whose name is too long, makes the reply fail |
| `DnsExchanges.AddressesOfRecord` | multi_net_io/libevent/evdns.c:1107-1166 | one more A or AAAA record: its addresses are added up to the thirty-second, in order, and the least time to live is kept |
| `DnsExchanges.AnswerStepIs` | multi_net_io/libevent/evdns.c:1099-1170 | one written record of any type adds to what was found just what it should: addresses, the name, the first CNAME if asked for, or nothing |
| `DnsExchanges.ReplyOfAll` | multi_net_io/libevent/evdns.c:1099-1170 | the early end of the loop changes nothing: the reply is that of all records |
| `DnsExchanges.OneRecord` | multi_net_io/libevent/evdns.c:1099-1170 | a single record gives min(n, 32) addresses, and its time to live |
| `DnsExchanges.AuthorityStepIs` | multi_net_io/libevent/evdns.c:1172-1198 | a written SOA lowers the time to live to min(ttl, minimum); other records are passed |
| `DnsExchanges.SectionsRead` | multi_net_io/libevent/evdns.c:1088-1206 | any answer and authority sections of readable records: the first 32 of all addresses or the first name, the least time to live of what was looked at, else that of the SOA records, else 0 |
| `DnsExchanges.AnswerArrives` | multi_net_io/libevent/evdns.c:1016-1210 | a response with one question answers a request if and only if TC is clear, the error is 0 or 3 and the name asked back is the name asked for (SameName: same length and letters, the case ignored only if that is configured); then it arrives as the first 32 of all its addresses of that type, or the first name, with the least time to live (0xffffffff becomes 0), whatever other records there are; otherwise it is a failure with its flags |
| `DnsExchanges.Exchange` | multi_net_io/libevent/evdns.c:1016-1297 | a query that request_parse reads and a response to its one question, with any number of records: the asker gets just the addresses, or the name, and the time to live the answerer put in |
| `DnsExchanges.AskAndAnswer` | multi_net_io/libevent/evdns.c:1016-1985 | evdns_request_data_build, request_parse, evdns_server_request_format_response and reply_parse one after another: the asker gets the addresses, or the name, and the time to live of the records if these end within 512 bytes, and otherwise a failure |
| `DnsExchanges.TruncatedFails` | multi_net_io/libevent/evdns.c:1050-1053 | a response cut off at 512 bytes is reported as an error, never as an answer |
| `UtHash.ToBktIsMod` | centralized-lock-table/include/uthash.h:441-444 | masking with num_buckets - 1 is the remainder, for every power of two |
| `UtHash.PushFront` | centralized-lock-table/include/uthash.h:780-790 | the item stands in its bucket and in no other; all bucket lists stay doubly linked with right counts |
| `UtHash.MoveList` | centralized-lock-table/include/uthash.h:866-886 | moving one old bucket keeps the new buckets right, and nonideal_items and expand_mult with them |
| `UtHash.ExcessUpdate` | centralized-lock-table/include/uthash.h:866-875 | how the sum of what exceeds a length changes with one list |
| `UtHashTable.Table.constructor` | centralized-lock-table/include/uthash.h:223-257 | an empty table is valid |
| `UtHashTable.Table.Find` | centralized-lock-table/include/uthash.h:164-174 | gives an item with the key if and only if there is one |
| `UtHashTable.Redistribute` | centralized-lock-table/include/uthash.h:864-887 | doubling loses and duplicates nothing: each item is in the new bucket its hash value asks for |
| `UtHashTable.Expand` | centralized-lock-table/include/uthash.h:846-899 | ideal_chain_maxlen is ceil(n/b) for the doubled b, nonideal_items the sum of max(0, count - ideal), and two ineffective doublings in a row stop doubling |
| `UtHashTable.CeilByBits` | centralized-lock-table/include/uthash.h:858-861 | shift and mask compute the ceiling |
| `UtHashTable.AddToTable` | centralized-lock-table/include/uthash.h:348-356 | the item is at the front of its bucket, and the buckets double just when that one is overfull and doubling is not given up; otherwise the other buckets and all that doubling counts are as before (Added) |
| `UtHashTable.Add` | centralized-lock-table/include/uthash.h:407-426 | a fresh key goes to the end of the insertion order; everything HASH_FSCK checks holds after it, also when the buckets double in the middle; what else changes is as in AddToTable, beginning with 32 empty buckets if there was no table; the bound of LooseLoad is kept |
| `UtHashTable.AddAll` | centralized-lock-table/include/uthash.h:780-793 | any number of items for one bucket, from an empty table or any other: the buckets are doubled with the item that makes it ten times its multiplier and one, and not before |
| `UtHashTable.LooseLoad` | centralized-lock-table/include/uthash.h:817-842 | on every run of adding, deleting and replacing: as long as doubling is not given up there are at most thirty items for each bucket, so that lists are of bounded length on the average |
| `UtHashLoad.LoadAtMost` | centralized-lock-table/include/uthash.h:789-793 | why: no bucket outgrows what its multiplier allows it |
| `UtHashLoad.MultAtMost` | centralized-lock-table/include/uthash.h:874-879 | a multiplier is at most twice the share its bucket had in the ideal length when the buckets were doubled |
| `UtHashLoad.MultIsCeil` | centralized-lock-table/include/uthash.h:870-879 | expand_mult is the count over the ideal length, rounded up, for lists at least two beyond that; how it lags otherwise |
| `UtHashLoad.CeilAtMost` | centralized-lock-table/include/uthash.h:858-861 | with that load the ideal length never comes to more than sixteen |
| `UtHashTable.RemoveFromBuckets` | centralized-lock-table/include/uthash.h:802-814 | one item leaves its bucket, which has one less; all others stay, in their lists and in order, and no multiplier changes |
| `UtHashTable.RemoveFromList` | centralized-lock-table/include/uthash.h:472-483 | one item leaves the insertion order, head and tail follow |
| `UtHashTable.Delete` | centralized-lock-table/include/uthash.h:461-488 | exactly the item goes, the order of the others stays, its key is gone, and HASH_FSCK holds; only its bucket has one less, and the bound of LooseLoad is kept; the last item takes the table with it |
| `UtHashTable.Replace` | centralized-lock-table/include/uthash.h:265-273 | afterwards the key leads to the new item, at the end of the order, and the replaced one is given back; the buckets are those of a deletion followed by an addition |
| `UtHashTable.AllMoved` | centralized-lock-table/include/uthash.h:864-887 | once all buckets were gone over, every item has been moved |
| `UtHashTable.DistinctWithout` | centralized-lock-table/include/uthash.h:461-488 | taking out one item leaves all others, each once |
| `UtHashSort.RunsSnoc` | centralized-lock-table/include/uthash.h:920-975 | full runs and one more make runs |
| `UtHashSort.Rotated` | centralized-lock-table/include/uthash.h:955-967 | taking the head of the second run next is a permutation, and repeats nothing |
| `UtHashSort.MergedTakeP` | centralized-lock-table/include/uthash.h:945-952 | an item of the first run goes first if it is not greater: order and stability are kept |
| `UtHashSort.MergedTakeQ` | centralized-lock-table/include/uthash.h:933-937 | an item of the second run goes first only if the first run has ended or is greater |
| `UtHashSort.MergeRuns` | centralized-lock-table/include/uthash.h:932-969 | two runs become one sorted run; next and prev of what is merged are right, and what follows can still be reached |
| `UtHashSort.Pass` | centralized-lock-table/include/uthash.h:915-974 | a pass is a permutation, doubles the length of the sorted runs, leaves a doubly linked list, and counts one merge just when the list is sorted |
| `UtHashSort.Sort` | centralized-lock-table/include/uthash.h:903-985 | terminates; the list is a sorted, stable permutation of itself, with head, tail, next and prev consistent; buckets, and so lookups, are untouched |
| `UtHashSort.SortedIsStable` | centralized-lock-table/include/uthash.h:903-985 | no two items are out of order, and items that compare equal are in the order they had |
| `TokenBuckets.RefilledIsNaive` | multi_net_io/libevent/bufferevent_ratelim.c:86-104 | the overflow-avoiding form equals min(maximum, limit + n * rate), negative limits included, if and only if the limit is not above the maximum or the ticks carry it past the unsigned range |
| `TokenBuckets.RefillLosesSign` | multi_net_io/libevent/bufferevent_ratelim.c:86-104 | when exactly a refill turns a positive limit into one that is not |
| `TokenBuckets.RefillTwice` | multi_net_io/libevent/bufferevent_ratelim.c:73-111 | two updates are one for the sum of the ticks |
| `TokenBuckets.UpdateTwice` | multi_net_io/libevent/bufferevent_ratelim.c:73-111 | the same by tick numbers, also when they wrap around modulo 2^32 |
| `TokenBuckets.LookTwice` | multi_net_io/libevent/bufferevent_ratelim.c:106-124 | a second update at the same tick changes nothing |
| `TokenBuckets.RunIsNaive` | multi_net_io/libevent/bufferevent_ratelim.c:73-111 | on every such run the code computes what is meant: min(maximum, limit + rate * ticks) at each update |
| `TokenBuckets.UpdateLosesSign` | multi_net_io/libevent/bufferevent_ratelim.c:73-111 | the same for an update by tick numbers |
| `TokenBuckets.SignIsLost` | multi_net_io/libevent/bufferevent_ratelim.c:86-104 | one input for that: the largest limit, one unit a tick |
| `TokenBuckets.Conservation` | multi_net_io/libevent/bufferevent_ratelim.c:73-111 | over any run of charges and updates in the code's words that starts below the maximum: bytes charged plus what is left is at most the initial limit plus rate times ticks; never more than the maximum is left |
| `TokenBuckets.EnoughTicks` | multi_net_io/libevent/bufferevent_ratelim.c:73-111 | a limit below the maximum is positive after an update if and only if the ticks that passed make up for what it lacks |
| `TokenBuckets.Bucket.Init` | multi_net_io/libevent/bufferevent_ratelim.c:49-71 | a new bucket starts with one tick, an old one is only clipped |
| `TokenBuckets.Bucket.Update` | multi_net_io/libevent/bufferevent_ratelim.c:73-111 | both limits and the tick number follow the refill rule; no ticks, or a clock that went back, change nothing |
| `BevLimits.Bufferevent.SuspendRead` | multi_net_io/libevent/bufferevent.c:66-76 | the backend works in a direction if and only if that is enabled and nothing suspends it |
| `BevLimits.Bufferevent.UnsuspendRead` | multi_net_io/libevent/bufferevent.c:78-88 | the same when a reason goes |
| `BevLimits.Bufferevent.SuspendWrite` | multi_net_io/libevent/bufferevent.c:90-100 | the same for the other direction |
| `BevLimits.Bufferevent.UnsuspendWrite` | multi_net_io/libevent/bufferevent.c:102-112 | the same for the other direction |
| `BevLimits.Bufferevent.Enable` | multi_net_io/libevent/bufferevent.c:459-480 | the same when a direction is enabled while suspended |
| `BevLimits.Bufferevent.Disable` | multi_net_io/libevent/bufferevent.c:550-563 | the same when a direction is disabled |
| `BevLimits.Bufferevent.SetRateLimit` | multi_net_io/libevent/bufferevent_ratelim.c:559-636 | the new limits, as Bucket.Init gives them, with a direction suspended for bandwidth just when its limit is used up, and then the timer is set; without a limit nothing stays suspended for it |
| `BevLimits.Bufferevent.DecrementReadBuckets` | multi_net_io/libevent/bufferevent_ratelim.c:272-296 | exactly what was transferred is charged; a used up limit suspends the direction, and a suspended direction always has a timer pending or its callback to come; the timer is stopped only when neither direction needs it |
| `BevLimits.Bufferevent.DecrementWriteBuckets` | multi_net_io/libevent/bufferevent_ratelim.c:310-334 | the same for writing |
| `BevLimits.Bufferevent.DecrementReadLimit` | multi_net_io/libevent/bufferevent_ratelim.c:971-996 | the same for charges, or refills, by the user |
| `BevLimits.Bufferevent.DecrementWriteLimit` | multi_net_io/libevent/bufferevent_ratelim.c:998-1025 | the same for writing |
| `BevLimits.Bufferevent.RlimMax` | multi_net_io/libevent/bufferevent_ratelim.c:197-258 | for reading and writing: never more than the updated limit or the share of the group, never negative; both limits are updated and the tick number goes on just if ticks passed; a direction whose limit is used up stays suspended for it if and only if the update loses no sign; a suspended group suspends the direction |
| `BevLimits.AskTwice` | multi_net_io/libevent/bufferevent_ratelim.c:197-258 | asked again in the same tick it gives the same and refills nothing |
| `BevLimits.Serve` | multi_net_io/libevent/bufferevent_ratelim.c:197-334 | over any sequence of reads and queries in any ticks the bytes charged to a bufferevent and what is left are no more than its limit at first and the rate times the ticks, if that limit was not above the maximum |
| `BevLimits.ShareIs` | multi_net_io/libevent/bufferevent_ratelim.c:228-248 | a member's share is the least share or, if larger, the quotient of limit and members rounded towards zero |
| `BevLimits.Bufferevent.RefillCallback` | multi_net_io/libevent/bufferevent_ratelim.c:393-439 | the flag of a direction goes if and only if its limit has become positive, which for a limit below the maximum is if and only if the ticks make up for it; otherwise the timer is set again |
| `BevLimits.UsedUpUnnoticed` | multi_net_io/libevent/bufferevent_ratelim.c:197-258 | the run that shows the other case: a user fills the bucket to the largest word, a tick passes, the limit is used up and nothing is suspended |
| `BevGroups.RandomOrder` | multi_net_io/libevent/bufferevent_ratelim.c:474-486 | the two walks meet every member exactly once, whatever the start |
| `BevGroups.InvNext` | multi_net_io/libevent/bufferevent_ratelim.c:228-1045 | each step of each thread keeps the invariant: charges, adjustments by the user, refills with the guard of the callback, new configurations, sweeps, members that come and go |
| `BevGroups.NoLostMember` | multi_net_io/libevent/bufferevent_ratelim.c:228-253 | in every interleaving, when the group lock is free, a member flagged for the group is in a group that is suspended or has its pending bit set |
| `BevGroups.UnsuspensionEnds` | multi_net_io/libevent/bufferevent_ratelim.c:487-524 | whoever could be locked in a sweep is not flagged after it; if somebody stays flagged the pending bit is set |
| `BevGroups.MetNext` | multi_net_io/libevent/bufferevent_ratelim.c:474-524 | each member is still to come, was unsuspended or is remembered |
| `BevGroups.UnsuspensionClearsAll` | multi_net_io/libevent/bufferevent_ratelim.c:487-524 | a sweep that got every lock leaves nobody flagged and nothing pending |
| `BevGroups.RefillStarts` | multi_net_io/libevent/bufferevent_ratelim.c:528-557 | a refill with a flagged member begins an unsuspension with that member to come, if the group is not suspended or has recovered to min_share: the pending bit cannot be missing |
| `BevGroups.RefillIff` | multi_net_io/libevent/bufferevent_ratelim.c:528-557 | a refill begins an unsuspension if and only if one is pending, or the group is suspended and has recovered to min_share |
| `BevGroups.Visited` | multi_net_io/libevent/bufferevent_ratelim.c:487-524 | a member that was to come and is no longer has been tried, and what came of it is remembered, whatever others do meanwhile |
| `BevGroups.RefillReaches` | multi_net_io/libevent/bufferevent_ratelim.c:528-557 | from such a refill to the end of its sweep the member is tried; if its lock was got it is not flagged any more, if not the group is pending |
| `BevGroups.ChargeStarts` | multi_net_io/libevent/bufferevent_ratelim.c:283-301 | a charge that leaves the limit of the group at or below zero begins a suspension of all members; one that does not ends the suspension of the group |
| `BevGroups.AdjustStarts` | multi_net_io/libevent/bufferevent_ratelim.c:1028-1067 | an adjustment by the user does so just when the limit goes through zero |
| `BevGroups.ChargeReaches` | multi_net_io/libevent/bufferevent_ratelim.c:283-301 | from such a charge to the end of its sweep: every member is tried, whoever could be locked is flagged, and the group is suspended with nothing pending |
| `BevGroups.JoinSettles` | multi_net_io/libevent/bufferevent_ratelim.c:736-781 | whoever is put into a group is suspended for it in the end if and only if the group was suspended at that time, whatever other threads do between |
| `BevGroups.LeaveSettles` | multi_net_io/libevent/bufferevent_ratelim.c:788-811 | whoever is taken out of a group is not suspended for it in the end |
| `EventBases.RemoveKeeps` | multi_net_io/libevent/event.c:3172-3235 | taking an event out of a queue keeps all others, each once |
| `EventBases.EventBase.SetActive` | multi_net_io/libevent/event.c:3162-3198 | event_count stays the number of queue memberships of events that are not internal |
| `EventQueues.InsertActive` | multi_net_io/libevent/event.c:3325-3344 | the event is last in the queue of its priority and in no other; flags, queues and both counters agree |
| `EventQueues.RemoveActive` | multi_net_io/libevent/event.c:3184-3198 | the event is in no active queue; flags, queues and both counters agree |
| `EventQueues.InsertLater` | multi_net_io/libevent/event.c:3346-3361 | never both active and active later |
| `EventQueues.RemoveLater` | multi_net_io/libevent/event.c:3200-3213 | the same when it is taken out |
| `EventQueues.InsertInOrder` | multi_net_io/libevent/event.c:3279-3307 | the list stays sorted; the event comes first if and only if it is due before all others |
| `EventQueues.InsertTimeout` | multi_net_io/libevent/event.c:3363-3385 | the event is in the heap or in the list of its index, and nowhere else |
| `EventQueues.RemoveTimeout` | multi_net_io/libevent/event.c:3215-3235 | the event is in neither; the lists stay sorted |
| `EventOps.Del` | multi_net_io/libevent/event.c:2760-2843 | the event stands in no queue; no common timeout of others is lost |
| `EventOps.Activate` | multi_net_io/libevent/event.c:2951-2979 | active and not later; true only if it was neither |
| `EventOps.Active` | multi_net_io/libevent/event.c:2864-2912 | results of an event that waits are put together; it is never queued twice |
| `EventOps.ActiveLater` | multi_net_io/libevent/event.c:2923-2938 | the same for later |
| `EventOps.AddTimeout` | multi_net_io/libevent/event.c:2625-2687 | an event has one timeout, the new one, and is no longer active for the old |
| `EventOps.Schedule` | multi_net_io/libevent/event.c:1406-1413 | the timer of a common timeout is set for its first event, and no other common timeout is lost |
| `EventOps.Add` | multi_net_io/libevent/event.c:2546-2727 | all queues and counters stay right, the event is inserted if and only if it is taken, the timeout is as asked for, and no common timeout is lost; a persistent event that is not a signal remembers it as its interval; nothing changes if the map refuses |
| `EventOps.InitCommonTimeout` | multi_net_io/libevent/event.c:1443-1513 | one common timeout, at most 256, for each pair of seconds and up to a million microseconds; more microseconds are carried into seconds, and it takes the same time |
| `EventOps.SameTime` | multi_net_io/libevent/event.c:1451-1471 | two common timeouts take the same time if and only if one has a million microseconds where the other has a second |
| `EventOps.TwoForOneSecond` | multi_net_io/libevent/event.c:1451-1471 | a run that makes two such |
| `EventOps.Assign` | multi_net_io/libevent/event.c:2064-2075 | a new event stands in no queue |
| `EventOps.AssertOk` | multi_net_io/libevent/event.c:3883-3940 | of the integrity check of the source, what it asks of active queues and of the order and tags of common timeouts holds on every base kept by these operations; heap order, list links and the maps are not modelled |
| `EventLoop.RemoveTimer` | multi_net_io/libevent/event.c:2504-2524 | no timeout and no interval any more, no common timeout lost; that intervals and timeouts go together is kept |
| `EventLoop.Promote` | multi_net_io/libevent/event.c:3392-3399 | an event changes its queue and neither counter |
| `EventLoop.MakeLaterEventsActive` | multi_net_io/libevent/event.c:3387-3400 | each priority gets its later events behind the active ones, in their order |
| `EventLoop.TimeOut` | multi_net_io/libevent/event.c:3137-3145 | a timed out event is active for that reason and stands in no other queue |
| `EventLoop.TimeoutProcess` | multi_net_io/libevent/event.c:3124-3145 | exactly the events of the heap whose time has come are activated, all others are as they were |
| `EventLoop.CommonTimeoutCallback` | multi_net_io/libevent/event.c:1418-1439 | activates exactly the due prefix of the list, and sets the timer for the next event if there is one |
| `EventLoop.PopActive` | multi_net_io/libevent/event.c:1590-1625 | the first event leaves its queue, unless persistent all queues; a common timeout whose timer is called back counts as being looked at |
| `EventLoop.PersistClosure` | multi_net_io/libevent/event.c:1517-1566 | an event with an interval is added again, unless the map refuses it: one interval after it was due, but not before now; or one interval after now; that the interval and the timeout belong to the same common timeout, as the source asserts, always holds (SameTimeouts is kept by all operations) |
| `PageLocks.LockManager.CheckLockRequest` | centralized-lock-table/server/remote_page_lock_manager.cc:84-133 | for every request and every table of lock objects, the reply, the code and the entry afterwards (Told): refused if and only if there is an entry, the request is no unlock, the entry is not unlocked and not both are reads, and then the entry is as it was; unlocked if and only if there is an entry and the request is an unlock; otherwise granted, with the asker at the end of the holders; no other entry changes |
| `PageLocks.ReplyMeans` | centralized-lock-table/server/remote_page_lock_manager.cc:84-133 | on every run: LOCK_SUCCESS if and only if the holders grew by the asker at their end; after UNLOCK_SUCCESS the asker holds nothing; after LOCK_FAIL the table is as it was |
| `PageLocks.ReplyIsSafe` | centralized-lock-table/server/remote_page_lock_manager.cc:84-133 | on runs where locks are given back by sole holders: who is told LOCK_SUCCESS for writing is the only holder, for reading shares with readers only; LOCK_FAIL is said if and only if another's lock stands against the request |
| `PageLocks.RemovedPlaces` | centralized-lock-table/server/remote_page_lock_manager.cc:157 | list::remove leaves all other names, in their order |
| `PageLocks.PageLock.UpdateUnlock` | centralized-lock-table/server/remote_page_lock_manager.cc:154-172 | the entry after an unlock request, waiters included (GivenBack says what it is) |
| `PageLocks.PageLock.UpdateSuccess` | centralized-lock-table/server/remote_page_lock_manager.cc:174-184 | the entry after a lock was given (Joined) |
| `PageLocks.PageLock.UpdateFail` | centralized-lock-table/server/remote_page_lock_manager.cc:186-207 | the loop raises the wish of whoever waits already; nobody is put on the list |
| `PageLocks.HoldersAreGranted` | centralized-lock-table/server/remote_page_lock_manager.cc:84-207 | on every run an entry's holders are those who were given its lock and did not give it back; nobody ever waits |
| `PageLocks.ExclusiveStep` | centralized-lock-table/server/remote_page_lock_manager.cc:84-207 | one request to an exclusive table leaves it exclusive if and only if it is not an unlock by other than the sole holder |
| `PageLocks.ExclusionIff` | centralized-lock-table/server/remote_page_lock_manager.cc:84-207 | readers only, one writer only or nobody, throughout a run, if and only if every lock is given back by its sole holder |
| `PageLocks.ReaderAndWriter` | centralized-lock-table/server/remote_page_lock_manager.cc:154-158 | the run that shows it: one of two readers unlocks, and a writer holds the page beside the other |
| `PageLocks.VersionCounts` | centralized-lock-table/server/remote_page_lock_manager.cc:174-181 | on every run version_no is the number of write locks given since the entry was made |
| `PageLocks.NoSharingIff` | centralized-lock-table/server/remote_page_lock_manager.cc:16-20 | no two pages up to number 2^20 share an entry if and only if there are no spaces beyond 4094 |
| `PageLocks.SharingBeyond` | centralized-lock-table/server/remote_page_lock_manager.cc:16-20 | a page number above 2^20 shares its entry with a page of the next space |

## Left out

- EvBuffers.Chain: a chain's memory is a field of the chain, as the source allocates both in one block; that two reference chains may point into the same memory of the user is not modelled. Reference chains hold data up to the end of their memory and are not empty.
- EvBufferMove.AddBuffer: requires that the lengths together fit into size_t; the source adds them without a check. The same holds for PrependBuffer, RemoveBuffer and CommitSpace.
- EvBufferReserve.ReserveSpace: at least two vectors; one vector is ReserveOne.
- EvBufferLines.SpanEol: counts in unbounded numbers; the source counts in an int.
- EvBufferCommit.CommitSpace: the count of bytes follows vector by vector instead of once at the end.
- EvBufferMove.RemoveBuffer: the inputs on which a gap is moved (MovesGap) are those of EvBufferBehind.RemoveGap, which has the same steps.
- EvBufferBehind.RemoveGap: ends where the assertion of evbuffer_free_trailing_empty_chains fails; built without assertions the source would free the chains with the bytes behind.
- EvBuffers.ChainCapacity: the refusal of sizes above EVBUFFER_CHAIN_MAX is not modelled, as it fails like an allocation.
- EvBufferRead.CopyoutFrom: gives the bytes instead of filling memory of the caller.
- DnsLabels.NameToLabels: at most 0x4000 bytes of buffer, as pointers have 14 bits. A name that runs over needs one more byte of memory, which is a precondition for just these names.
- DnsReplies.FormatResponse: the memory from the start of the source's buffer on is a parameter, so that what happens behind the 1500 bytes can be seen.
- DnsExchanges.AnswerArrives: replies with one question; records whose data are of the form that their type asks for and whose names can be encoded. What is read of other packets is in ReplyParse.
- DnsExchanges.Exchange: the same, with the question that was asked.
- UtHashTable.Add: the key must be fresh, as uthash asks of its users. Counters are unbounded, so the doubling of 2^31 buckets is not modelled.
- UtHashSort.Sort: items are compared by their keys, by any total preorder that does not change.
- BevLimits.Bufferevent.DecrementReadLimit: the new limit fits into a signed word; beyond that the source's behaviour is undefined.
- BevLimits.Bufferevent.RlimMax: of the group it sees, for the direction, the limit, the number of members, min_share and whether it is suspended.
- BevLimits.Bufferevent.DecrementReadBuckets: the charge to the group is a step of BevGroups.
- BevLimits.Bufferevent.DecrementWriteBuckets: the same.
- BevGroups.NoLostMember: the two directions of a group do not touch each other, so one is modelled, with the limit, rate, maximum and min_share of that direction. Removal from the group always unsuspends (the variant that does not is for objects about to be freed).
- EventOps.Add: descriptors and signals have a map that takes them or not; timeouts are microseconds with the index of a common timeout apart, and the heap is a set whose least member can be found.
- EventLoop.PopActive: up to the callback; what callbacks do is any sequence of the other operations. Priorities, limits on the time spent, loops over signal counts, finalizers and the waking of other threads are not modelled.
- EventOps.AssertOk: heap order, list links and the map checks of event_base_assert_ok_nolock_ are left out.
- EventLoop.PersistClosure: rests on SameTimeouts, which a base without intervals has and all operations keep; Add keeps it for a timeout given as an absolute time, or for an event that is not persistent or is a signal, if that is of the same kind as an interval the event still has (GoesWith).
- PageLocks.LockManager.CheckLockRequest: the hash table is a map from folds to lock objects; that uthash is one is proved in UtHashTable.
- Queues of the BSD macros (TAILQ, LIST) are sequences in the event base and in groups.
- Allocation failure, EVBUFFER_CHAIN_MAX as a limit for single chains, frozen buffers, callbacks of buffers, locks other than in the group protocol.
- Pinned and multicast chains, file segments, sockets and system calls.
- Timers and retransmission of DNS requests, resolv.conf and hosts files, getaddrinfo.
- High-water counters (event_count_max), n_deferreds_queued, finalizing events.
- Bloom filters, hash functions and in-order insertion of uthash.
- Messages between lock server and clients.
