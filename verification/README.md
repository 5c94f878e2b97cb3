# Iceberg

Iceberg keeps a Redis master's memory small: keys it evicts are fetched from a slave and moved to web
servers as files. A proxy sits between master and slave, relays the replication stream, spots evicted
keys, queries their values and posts them to a pair of hosts; nginx modules and a Java client then find
the file of a key by hashing. This project models that machinery and proves what it relies on.

- `RedBlackTree`, `Ring`, `ConHash`: the intrusive red-black tree with its shared sentinel, and the
  consistent-hash ring of virtual nodes built on it. The tree's links are real; ghost annotations on the
  nodes make every invariant a statement about one edge. The ring's theorems are about a map from hash
  values to servers, which the tree is proved to implement.
- `CirQueue`, `Reply`, `Proxy`, `Pairing`: the queue of keys that were asked for, the replies of the slave
  and their incremental parser, first as functions on byte strings and then as the loops over buffers, and
  the pairing of replies with keys over every run.
- `Relay`, `Accepting`: the four-state relay of the replication stream, compared with the stream as the master
  means it, and the handler that accepts a slave.
- `Sds`, `SdsFormat`, `SdsRepr`, `SdsSplit`: dynamic strings, their growth, formatting, escaping and
  splitting.
- `Md5Spec`, `Md5Vector`, `Md5`, `MyHash`: RFC 1321 with one of its test digests, and two implementations proved to
  compute it.
- `AeFiles`, `AeTimers`: the event loop's registrations and timers.
- `HashTable`, `Hosts`, `Placement`: where a value is written and where the readers look for it.
- `Bytes`, `Powers`: numerals, C strings and powers.

System calls are scripts and parameters: what a read or write moves, which freed memory is handed out, whether
the kernel accepts a request, what a timer's callback does, the clock, and the hash functions of the ring and of
the backup table.

Where documentation and code differ, the model follows the code: a status line counts as an answer when its
line feed is more than five bytes in, since the test for an error line compares the line feed with the minus
sign (`proxy/parser.c:176`); `util_rbtree_delete` leaves the parent link of a new root as it was
(`nginx/c/util_rbtree.c:178-184`).

`dafny verify dfyconfig.toml` checks the whole project.

## Model

| member | source | states |
|---|---|---|
| RedBlackTree.Tree.LeftRotate | nginx/c/util_rbtree.c:329-359 | The rotation relinks exactly the five pointers involved, re-annotates two nodes and leaves keys, colours and everything else alone. |
| RedBlackTree.Tree.RightRotate | nginx/c/util_rbtree.c:361-391 | The mirror image of the left rotation. |
| RedBlackTree.Tree.RotateShape | nginx/c/util_rbtree.c:329-391 | Either rotation keeps the parent links and the in-order sequence of the whole tree. |
| RedBlackTree.Tree.InsertFixLeft | nginx/c/util_rbtree.c:93-116 | One round of the insert fixup below a left parent: recolouring moves the red pair two levels up, the rotations end it; the measure falls. The same holds of the rounds that follow the parent link of the root back into the tree and climb there. |
| RedBlackTree.Tree.InsertFixup | nginx/c/util_rbtree.c:87-143 | From a tree with at most one red-red edge, above the inserted node, the loop ends in a red-black tree, whatever node other than itself the root holds as its parent; when it holds itself, if and only if the recolouring stops below it. |
| RedBlackTree.Tree.Insert | nginx/c/util_rbtree.c:49-84 | Adds exactly the node to the in-order sequence, after the equal keys, and keeps search order, parent links and the 32-bit size. Colours and black height are kept if and only if the tree takes the node: what the root holds as its parent is not itself and not red outside the tree, or is that node, or the recolouring stops below the root, which the colours on the search path tell before the call. After that the root is its own parent or not, which decides whether the tree takes every node; the whole invariant is restored if and only if what the root holds as its parent lies outside the tree. Null and the sentinel change nothing. |
| RedBlackTree.Tree.AttachLeads | nginx/c/util_rbtree.c:60-84 | Recolouring climbs from a new leaf to the root if and only if, before the insertion, every second node of the search path has two red children. |
| RedBlackTree.Tree.AfterRound | nginx/c/util_rbtree.c:93-140 | A round of the fixup does not change whether the recolouring gets to the root. |
| RedBlackTree.ReinsertRoot | nginx/c/util_rbtree.c:178-184 | A run to that one node: the root of a tree of two is deleted and inserted again under a larger key; the links are right and the invariant is lost. |
| RedBlackTree.Tree.OwnParentRound | nginx/c/util_rbtree.c:90-140 | When the insertion fixup reaches a red root that is its own parent, the round it then makes leaves black heights unequal, whatever the tree. |
| RedBlackTree.UnbalancedRun | nginx/c/util_rbtree.c:49-184 | What losing the invariant leads to: two insertions after that run the tree is not balanced. |
| RedBlackTree.Tree.FindSplice | nginx/c/util_rbtree.c:155-177 | The node taken out of its position is the one to delete or its in-order successor, and has at most one child. |
| RedBlackTree.Tree.DeleteRoot | nginx/c/util_rbtree.c:178-184 | A root with at most one child is replaced by that child, whose parent link is left as it was. |
| RedBlackTree.Tree.SpliceOut | nginx/c/util_rbtree.c:185-207 | Unlinks the node and gives its child, which may be the sentinel, a parent for the fixup to read. |
| RedBlackTree.Tree.TakePlace | nginx/c/util_rbtree.c:212-241 | The successor takes the links and the colour of the deleted node. |
| RedBlackTree.Tree.SiblingFacts | nginx/c/util_rbtree.c:261-300 | While the fixup runs, the sibling it inspects is a node of the tree, never the sentinel, and so has children to look at. |
| RedBlackTree.Tree.DeleteFixLeft | nginx/c/util_rbtree.c:259-289 | One round of the delete fixup on the left: the measure falls although a red sibling rotates the current node one level deeper. |
| RedBlackTree.Tree.DeleteFixup | nginx/c/util_rbtree.c:252-327 | From a tree that lacks one black node below a single edge, the loop ends in a valid red-black tree. |
| RedBlackTree.Tree.Delete | nginx/c/util_rbtree.c:146-249 | Removes exactly that node object from the in-order sequence and keeps search order, colours, black height, parent links, the black sentinel and the 32-bit size, whatever the root holds as its parent; says when that link changes and when nodes can still be inserted. Null and the sentinel change nothing. |
| RedBlackTree.Tree.SubtreeMin | nginx/c/util_rbtree.c:35-40 | The first node of a subtree in order; nothing for the sentinel; and the moves it takes. |
| RedBlackTree.Tree.Search | nginx/c/util_rbtree.c:393-407 | A node with the key, or null exactly when no node has it. |
| RedBlackTree.Tree.Lookup | nginx/c/util_rbtree.c:409-432 | The in-order first node whose key is not below the argument, or the first node of all; null only on the empty tree. The steps counted are the nodes on the search path and, when no key is large enough, the moves of the second walk to the first node: at most 2 log2(n + 1) without the second walk and at most 4 log2(n + 1) in any case. |
| RedBlackTree.NineNodes | nginx/c/util_rbtree.c:409-432 | The smaller bound needs a key that is large enough: in a red-black tree of nine nodes the two walks take seven steps. |
| RedBlackTree.Tree.SizeBound | nginx/c/util_rbtree.c:49-249 | A subtree of black height h has at least 2^h - 1 nodes. |
| RedBlackTree.Tree.ValidIsRedBlack | nginx/c/util_rbtree.c:49-249 | The local invariants mean what the textbook says: read as a plain tree, the links are in search order, balanced in black height, without two reds in a row and with a black root; so every path to a leaf meets the same number of black nodes. |
| Ring.AddDisturbs | nginx/c/conhash_inter.c:38-60 | After adding a server to a non-empty ring, every object keeps its owner or moves to the new server, wrap-around included. |
| Ring.DelDisturbs | nginx/c/conhash_inter.c:62-86 | After deleting a server, every object it did not own keeps its owner. |
| Ring.AddThenDel | nginx/c/conhash_inter.c:38-86 | Adding an absent server and deleting it restores the map from keys to servers, whatever hash values collide. |
| Ring.DelClears | nginx/c/conhash_inter.c:62-86 | After deletion no virtual node points to the server, if and only if all its virtual nodes sat at the hash values of its current name and replica count. |
| Ring.AddAllIs | nginx/c/conhash_inter.c:38-60 | The loop over the replicas adds the server at all its hash values that were free. |
| Ring.DelAllIs | nginx/c/conhash_inter.c:62-86 | The loop over the replicas removes the server from all its hash values, and only it. |
| Ring.RunInvariant | nginx/c/conhash.c:57-91 | In every run of the ring as a map, which ConHash.ConHash.Replay shows to be the run of the tree and the flags, each virtual node belongs to a server on the ring and sits at one of its hash values. |
| Ring.RunRoundTrip | nginx/c/conhash.c:57-91 | After any such run, adding an absent server and deleting it again changes nothing. |
| ConHash.Server.Set | nginx/c/conhash.c:50-55 | Copies at most 63 bytes of the name and marks the server as initialised and off the ring. |
| ConHash.NameReads | nginx/c/conhash_inter.c:29-36 | The name hashed for a replica is the name of the server, a minus sign and digits that read back as the number of the replica, below 2^31. |
| ConHash.NamesTellApart | nginx/c/conhash_inter.c:29-36 | Names of at most 63 bytes and replicas below 2^31 have the same name to hash if and only if server and replica are the same. |
| ConHash.NegativeReads | nginx/c/conhash_inter.c:29-36 | From 2^31 on the number of a replica is printed as a negative one, in at least three characters. |
| ConHash.NamesCollide | nginx/c/conhash_inter.c:29-36 | From 2^31 on they collide: the number is printed as a negative one. |
| ConHash.ConHash.HashesApart | nginx/c/conhash_inter.c:38-60 | With a hash function that tells names apart, servers of different names share no hash value and each has one for every replica. |
| ConHash.ConHash.AddReplicas | nginx/c/conhash_inter.c:38-60 | The tree then stands for the ring with the server added at all its replicas, whichever of them sit in the memory of nodes deleted before; occupied hash values are skipped. It stops early only before a node that would cost the tree its colours, and never with new memory throughout. |
| ConHash.ConHash.AddVirtualNode | nginx/c/conhash_inter.c:50-56 | The ring takes the virtual node and the tree stays a search tree whatever memory its node gets, also that of a node deleted before; further nodes can be added if and only if the root has not become its own parent. |
| ConHash.ConHash.DelReplicas | nginx/c/conhash_inter.c:62-86 | The tree then stands for the ring with exactly the server's own replicas removed. |
| ConHash.ConHash.AddNode | nginx/c/conhash.c:57-73 | The flag protocol: -1 and no change unless the server is initialised and off the ring; otherwise it is marked and added. When all its replicas have been added, every server on the ring stays flagged so, with its virtual nodes at its own hash values. |
| ConHash.ConHash.DelNode | nginx/c/conhash.c:75-91 | The flag protocol of deletion; while flags and hash values agree with the ring they go on doing so, and the deleted server is gone from the ring. |
| ConHash.ConHash.AddThenDelNode | nginx/c/conhash.c:57-91 | Adding a server, all its replicas, and deleting it again leaves the ring and the flags as they were, whether the flags allow the addition or not. |
| ConHash.ConHash.Replay | nginx/c/conhash.c:57-91 | Any sequence of additions and deletions of named servers does to the tree and the flags what it does to the ring as a map and its set of members, whatever freed memory the nodes are given, up to an addition that stops early; with new memory throughout none does. |
| ConHash.ConHash.Lookup | nginx/c/conhash.c:93-113 | The owner of the object's hash value on the ring; null exactly without an object or when the 32-bit counter of virtual nodes reads zero. |
| ConHash.ConHash.SuccessorIsOwner | nginx/c/util_rbtree.c:409-432 | The tree's wrap-around successor is the ring's owner. |
| ConHash.ConHash.Fini | nginx/c/conhash.c:35-48 | Deleting the root until the tree is empty terminates and empties it. |
| ConHash.ConHash.VnodesNum | nginx/c/conhash_util.c:38-45 | The counter is the number of virtual nodes, modulo 2^32. |
| ConHash.ConHash.RingSize | nginx/c/conhash.c:57-91 | The ring has as many keys as the tree has nodes. |
| ConHash.ConHash.KeysOfRing | nginx/c/conhash_util.c:17-36 | The keys of the tree in order are the keys of the ring, each once, ascending. |
| ConHash.ConHash.MidTravel | nginx/c/conhash_util.c:17-24 | The in-order traversal writes the keys of a subtree in order until the array is full. |
| ConHash.ConHash.GetVnodes | nginx/c/conhash_util.c:25-36 | Exports the ascending prefix of the key set that fits, and leaves the rest of the array alone. |
| CirQueue.CirQueue.IsEmpty | proxy/cir_queue.c:40-51 | True exactly for the empty queue; front and rear meet only then, because one slot stays free. |
| CirQueue.CirQueue.IsFull | proxy/cir_queue.c:57-67 | True exactly when 4095 keys are queued. |
| CirQueue.CirQueue.Push | proxy/cir_queue.c:73-90 | Adds at the end; a full queue is left as it is. |
| CirQueue.CirQueue.Pop | proxy/cir_queue.c:96-115 | Takes the oldest key; nothing from an empty queue. |
| CirQueue.CirQueue.Clear | proxy/cir_queue.c:116-125 | Empties the queue. |
| Reply.AllSplits | proxy/parser.c:216-259 | Parsing a + b handles the same replies, leaves the same tail and ends the same way as parsing a and then its tail followed by b. |
| Reply.OneExtends | proxy/parser.c:31-193 | A parse that does not wait for more bytes comes out the same whatever follows. |
| Reply.FeedIsParse | proxy/parser.c:19-26 | For a stream whose prefixes all leave tails that fit, feeding chunks handles the replies of a one-shot parse and leaves exactly its tail in the buffer. |
| Reply.SavedIff | proxy/parser.c:19-26 | A NUL-free tail survives in the buffer if and only if it is shorter than MAX_READ. |
| Reply.EmptyValueSkipped | proxy/parser.c:95-116 | Byte by byte, the answer for {a: x, b: ""} parses to {a: x}. |
| Reply.OverlayHolds | proxy/parser.c:95-116 | The object parsed from an array holds of each field the last value that is not empty. |
| Reply.PairsRoundTrip | proxy/parser.c:44-119 | The items of an array parse to its fields with their values; empty values are skipped and do not disturb the others. |
| Reply.OneRoundTrip | proxy/parser.c:31-193 | Parsing the encoding of a reply, whose values may be empty, yields that reply and the bytes after it. |
| Reply.StreamParses | proxy/parser.c:232-255 | One parse of any prefix of a stream of replies handles the complete ones and leaves the beginning of the next. |
| Reply.Fragmentation | proxy/parser.c:216-259 | For every stream of well-formed replies of at most MAX_READ bytes and every split into chunks of at most MAX_READ bytes, the handled replies are those of a one-shot parse and the buffer is the unparsed tail. |
| Reply.TooLongIsLost | proxy/parser.c:19-26 | A longer reply whose first chunk is full leaves nothing in the buffer. |
| Reply.FitIff | proxy/parser.c:216-259 | The bound is exact: a whole stream of well-formed replies has the same replies handled, and nothing left over, under every split into chunks of at most MAX_READ bytes if and only if no reply is longer than that. |
| Reply.LongDropped | proxy/parser.c:19-26 | A longer reply has such a split of which nothing is handled and nothing left over, or, if it is more than twice as long, one that leads to the parse of a bulk string. |
| Reply.StreamDropped | proxy/parser.c:216-259 | Every stream has a split under which exactly the replies that fit are handled, or, with a reply of more than 2 * MAX_READ bytes, one that leads to the parse of a bulk string. |
| Proxy.StrNCopy | proxy/parser.c:22-22 | strncpy: what comes after a NUL becomes NUL. |
| Proxy.Connection.SaveToBuf | proxy/parser.c:19-26 | The tail is saved, unless it is too long. |
| Proxy.Connection.TakeItem | proxy/parser.c:57-94 | One bulk item of an array, or why there is none: incomplete, unexpected, or a negative length. |
| Proxy.Connection.ParseArray | proxy/parser.c:31-123 | Handles one array, saves it when it is incomplete, or ends the process, as the parse of the bytes says. |
| Proxy.Connection.ParseSimple | proxy/parser.c:161-193 | A status line answers the oldest query exactly when its line feed is more than five bytes in. |
| Proxy.Connection.PopHandle | proxy/parser.c:197-210 | The value is stored under the oldest queued key; a value nobody asked for ends the process. |
| Proxy.Connection.ParseReadData | proxy/parser.c:216-259 | A chunk is merged with the saved tail if both fit, and the replies in it are handled in order. |
| Proxy.Connection.CloseFd | proxy/io.c:87-112 | A reset empties the queue and the buffer. |
| Proxy.Connection.Connect | proxy/event.c:62-83 | Opens a closed connection and changes nothing else; when the slave is not reached, everything is closed. |
| Proxy.Connection.QueryKey | proxy/lrued_query.c:16-35 | The command goes out and its key is queued together; a full queue sends nothing, a failed write resets everything. |
| Pairing.NewReplies | proxy/parser.c:216-259 | A chunk on top of the saved tail yields exactly the replies it completes. |
| Pairing.HandleReplies | proxy/parser.c:161-210 | Replies that answer the queue in order store each value under its key. |
| Pairing.LongReplyMispairs | proxy/parser.c:19-26 | A reply longer than MAX_READ leaves its key queued and the next value is stored under that key, for every split into chunks of at most MAX_READ bytes of which the one that fills the buffer is not the last and none after it starts like a reply. |
| Pairing.LongReplyExists | proxy/parser.c:19-26 | There are such replies and splits: one field with a value of MAX_READ bytes, in two chunks. |
| Pairing.CommandIs | proxy/lrued_query.c:16-35 | What is sent for a key: hgetall, the key and a line end. |
| Pairing.CommandsTell | proxy/lrued_query.c:16-35 | From what has been sent the keys asked for can be read, if they have no line feeds. |
| Pairing.EveryRunIsPaired | proxy/lrued_query.c:16-35 | In every run of queries, answers, chunks and resets: the queue holds the keys of the queries sent and unanswered, in order; each stored value lies under the key whose query it answers; the saved bytes are the unparsed tail; no chunk that may come next ends the process. |
| Pairing.ExchangeStores | proxy/lrued_query.c:16-35 | Such runs exist: after any run the connection can be reset, up to 4095 keys asked for and any answers to the first of them received in any chunks; then each answer is stored under its key and the other keys are queued. |
| Relay.AnnouncedSize | proxy/read_handler.c:78-85 | A header announcing n below 2^63 makes the relay count down n, whatever blank lines come before it. |
| Relay.NumberReads | proxy/read_handler.c:83-85 | A sign and digits read as the number they denote, a minus sign modulo 2^64, and at most as 2^64 - 1. |
| Relay.SignedIs | proxy/read_handler.c:83-85 | The size is that number in a signed variable of 64 bits. |
| Relay.StartsIff | proxy/read_handler.c:132-141 | A chunk of 11 to 99 bytes starts a sync if and only if it begins with +CONTINUE or +FULLRESYNC. |
| Relay.AnswersStart | proxy/read_handler.c:132-141 | Both answers, in bytes, and one that is not. |
| Relay.HeaderIs | proxy/read_handler.c:61-78 | Blank lines followed by a line are a complete header, and its text is that line. |
| Relay.Relay.ReadData | proxy/io.c:25-53 | Delivers the master's bytes in order, none for now, or closes everything, as the next call decides. |
| Relay.Relay.WriteData | proxy/io.c:55-86 | The partial-write loop delivers all bytes in order if and only if a slave is connected and the calls to come take them before one fails; otherwise it closes everything after a prefix of them. |
| Relay.Relay.WaitForLine | proxy/read_handler.c:60-77 | Forwards byte by byte until a line that is not empty is complete, and keeps its text; without a slave it reads one byte, which the header is parsed without. With a slave, the calls and bytes to come decide how it ends. |
| Relay.Relay.ReadHeader | proxy/read_handler.c:60-87 | After the header the size is the one parsed from it; a whole header ends the process if and only if it starts with a minus sign; too long a line is undefined, and a failing call closes everything. Where the greeting ended stays fixed, and with a slave connected nothing is lost before the header. |
| Relay.Relay.ReadPayload | proxy/read_handler.c:88-117 | In any chunks, the bytes subtracted from the parsed size are those read while a slave was connected; when they make it up the relay runs. Without a slave one chunk is read and not subtracted; a negative size is undefined. The connections stay open if and only if the calls to come let the payload through. |
| Relay.HeaderUnique | proxy/read_handler.c:60-77 | A stream begins with at most one header. |
| Relay.StreamExact | proxy/read_handler.c:53-154 | The master sends a greeting, a header, a payload of the announced size and commands. The relay cuts what it has read in the same places if and only if all it had read when the header began was as long as the greeting and a slave was connected whenever a chunk of the payload was read. |
| Relay.Relay.InStream | proxy/read_handler.c:53-154 | The same for every state the running relay can be in; if the condition holds, the scanner has got exactly the commands read so far. |
| Relay.SyncRun | proxy/read_handler.c:53-154 | With a slave connected throughout a sync: the stream is cut where the master means it if and only if the chunk that starts the sync ends where the greeting ends. |
| Relay.TogetherInput | proxy/read_handler.c:132-141 | A stream that is not: greeting and header come in one chunk, the first line of the payload and the commands is taken for the header, and the scanner misses a command line. |
| Relay.HeaderWithoutSlave | proxy/read_handler.c:60-77 | A run that is not, for every stream: an accept fails before the header and one byte of it is read without a slave; unless everything is closed the stream is cut elsewhere. |
| Relay.LostDollar | proxy/read_handler.c:60-83 | Such a stream: the dollar sign of a size of twelve is lost, two bytes pass as payload and ten go to the scanner. |
| Relay.NoPayload | proxy/read_handler.c:133-139 | When no payload follows the greeting, the first line of the commands is taken for the header and never reaches the scanner. |
| Relay.PayloadExact | proxy/read_handler.c:88-117 | The bytes passed as payload are as many as the size that was parsed if and only if a slave was connected whenever a chunk of them was read. |
| Relay.OneByteTooMany | proxy/read_handler.c:92-112 | A payload that does not: one byte announced, one read without a slave and one with. |
| Relay.FailedAccept | proxy/event.c:89-115 | A run to such a payload: an accept fails during a sync and the next slave is registered; unless everything is closed, more than the announced bytes pass before the scanner gets its first. |
| Relay.Relay.Accept | proxy/event.c:89-115 | A new slave replaces the old one and is sent what is read from then on; a failed accept leaves no slave and the master connected; a slave that cannot be registered closes everything. |
| Accepting.AcceptTcpHandler | proxy/event.c:89-115 | The old descriptor is closed without telling the event loop, so with epoll the new slave is registered if and only if the kernel takes it, it fits the table and its number is neither that of the old slave nor that of another descriptor closed while registered; otherwise everything is closed, and the event loop is in step on that number again. |
| Relay.Relay.ReadChunk | proxy/read_handler.c:118-150 | Commands reach the scanner and the slave; before a sync nothing reaches the scanner and the master's answer alone decides whether a sync starts. The connections stay open if and only if the calls to come let the chunk through. |
| Relay.Relay.ReadFromMaster | proxy/read_handler.c:53-154 | Every step keeps the invariant: what the slave got is what was read since it connected, in order and without loss, and before the scanner gets a byte a header has been parsed and as many payload bytes counted as it says. The contract says where each part of what was read ends, which Relay.StreamExact compares with the stream. It also says, from the calls to come, when the connections stay open. |
| Relay.Relay.ReadFromSlave | proxy/read_handler.c:30-52 | A request is passed to the master as it is, and SYNC starts a sync: all that has been read counts as the greeting. A request that is not taken closes everything. |
| Sds.Sds.MakeRoomFor | proxy/sds.c:129-147 | Room for the bytes asked for, contents and terminator kept, the capacity doubled below one megabyte and one megabyte more above. |
| Sds.Sds.CatLen | proxy/sds.c:239-251 | Appends, keeping length, free room and terminator consistent; its growth is the growth function's. |
| Sds.AmortisedGrowth | proxy/sds.c:129-147 | For any appends to an empty string staying below SDS_MAX_PREALLOC, the bytes moved are at most twice the final length and the reallocations at most log2 of it plus one. |
| Sds.BoundFails | proxy/sds.c:139-142 | Beyond that limit no multiple of the final length bounds the bytes moved: for every factor there are appends of a megabyte that break it. |
| Sds.GrowthBound | proxy/sds.c:129-147 | What growth costs without a limit: at most 20 reallocations and one more for each megabyte of final length, and at most that many times the final length in bytes moved. |
| Sds.Reverse | proxy/sds.c:320-328 | The two-pointer loop reverses the bytes in place. |
| Sds.LongToStr | proxy/sds.c:301-330 | The decimal form of a signed 64-bit number in at most 20 bytes, and a terminator. |
| Sds.ULongToStr | proxy/sds.c:333-359 | The decimal form of an unsigned 64-bit number in at most 20 bytes, and a terminator. |
| Sds.SignedRoundTrip | proxy/sds.c:301-330 | The printed form reads back as the number. |
| SdsFormat.Directive | proxy/sds.c:473-541 | One directive or byte of the format shows what the rendering says and the format goes on behind it. |
| SdsFormat.CatFmt | proxy/sds.c:451-549 | For every format without a trailing lone percent sign, with matching arguments and a result below 2^31 bytes: the old contents followed by the rendering, every write inside the capacity. |
| SdsFormat.QuotedRenders | proxy/sds.c:529-533 | Any text with its percent signs doubled renders to itself. |
| SdsFormat.NumberReadsBack | proxy/sds.c:491-528 | A number shown by a directive reads back as itself, over the whole range of its C type. |
| SdsFormat.StringsShown | proxy/sds.c:473-490 | %s shows a C string, %S all the bytes of a dynamic string. |
| SdsFormat.NumbersTaken | proxy/sds.c:491-528 | %i and %I take the signed, %u and %U the unsigned numbers of 32 and 64 bits. |
| SdsRepr.CatRepr | proxy/sds.c:744-767 | Appends the quoted and escaped form of any byte string. |
| SdsRepr.ReadToken | proxy/sds.c:829-907 | Reads one argument or reports unbalanced quotes, and never looks past the terminator. |
| SdsRepr.SplitLineArgs | proxy/sds.c:819-927 | Splits any C string into its arguments, or reports an error; it terminates and never reads past the terminator. |
| SdsRepr.QuotedRoundTrip | proxy/sds.c:836-870 | Reading back an escaped string yields it byte for byte. |
| SdsRepr.RoundTrip | proxy/sds.c:744-927 | For every list of arbitrary byte strings, splitting their printed forms joined by spaces returns that list. |
| SdsRepr.EscapePrints | proxy/sds.c:744-767 | Only printable bytes are printed, and a byte stands for itself if and only if it is printable and no quote or backslash. |
| SdsRepr.EscapeLetters | proxy/sds.c:747-764 | The escapes of line feed, carriage return, tab, bell, backspace, quote and backslash, and of other bytes. |
| SdsRepr.EscapesRead | proxy/sds.c:836-862 | What escapes in quotes read as: two hexadecimal digits of either case, a letter, or the byte itself. |
| SdsRepr.HexDigits | proxy/sds.c:770-798 | The hexadecimal digits and their values. |
| SdsRepr.BareToken | proxy/sds.c:888-907 | A token without quotes is taken as it is, up to the next space, line end or tab. |
| SdsRepr.SingleRoundTrip | proxy/sds.c:871-887 | Any bytes that do not end in a backslash can be written between apostrophes and read back. |
| SdsRepr.OpenQuote | proxy/sds.c:867-869 | A quote that is not closed is an error. |
| SdsRepr.OpenApostrophe | proxy/sds.c:882-884 | So is an apostrophe that is not closed. |
| SdsRepr.TouchingQuote | proxy/sds.c:863-866 | So is a closing quote before anything but white space or the end. |
| SdsSplit.SplitLen | proxy/sds.c:681-728 | The tokens between the leftmost occurrences of the separator; the slot array always has room for the next and the final one, and past five slots it is at most twice as long as needed. |
| SdsSplit.JoinSplit | proxy/sds.c:681-728 | Joining the tokens with the separator gives the string back. |
| SdsSplit.TokensAreClean | proxy/sds.c:681-728 | No token contains the separator. |
| SdsSplit.SplitJoin | proxy/sds.c:681-728 | With a one-byte separator, splitting also undoes joining. |
| SdsSplit.JoinArgs | proxy/sds.c:954-963 | The pieces as C strings, with the separator between each two. |
| SdsSplit.SplitThenJoin | proxy/sds.c:681-963 | For NUL-free strings the join of the split, through C strings, is the string. |
| Md5Spec.FChooses | nginx/c/md5.c:202-202 | Where x has a one bit F takes the bit of y, elsewhere that of z. |
| Md5Spec.GChooses | nginx/c/md5.c:228-228 | Where z has a one bit G takes the bit of x, elsewhere that of y. |
| Md5Spec.HIsParity | nginx/c/md5.c:254-254 | H is the parity of the three bits. |
| Md5Spec.ITurns | nginx/c/md5.c:280-280 | I turns the bits of y where x has a one bit or z has none. |
| Md5Spec.Rotates1 | nginx/c/md5.c:197-197 | ROTATE_LEFT turns all bits of a word, by the distances of the first round; Rotates2 to Rotates4 say so of the others. |
| Md5Spec.LengthReads | nginx/c/md5.c:365-372 | The length appended reads back as two words, the low-order one first, which make it up modulo 2^64. |
| Md5Vector.AbcDigest | nginx/c/md5.c:360-381 | The digest of abc is the test digest of RFC 1321, section A.5, computed through all 64 operations. |
| Md5Spec.FoldSplit | nginx/c/md5.c:351-353 | Processing blocks in two parts is processing them at once. |
| Md5Spec.CountMore | nginx/c/md5.c:333-337 | The two words with their carry count bits modulo 2^64. |
| Md5Spec.PadLength | nginx/c/md5.c:376-376 | Both ways to write the number of padding bytes give it, for every message length. |
| Md5.Process | nginx/c/md5.c:131-310 | The 64 unrolled operations are the block function of RFC 1321, section 3.4. |
| Md5.State.Append | nginx/c/md5.c:322-358 | The state is that of the message so far followed by the new bytes, however they are cut; no bytes or a negative count change nothing. |
| Md5.State.Finish | nginx/c/md5.c:360-381 | The digest is that of RFC 1321 for everything appended. |
| Md5.HashDef | nginx/c/conhash_inter.c:11-27 | The default key of the ring is the sum of the four registers of the digest. |
| Md5.AbcKey | nginx/c/conhash_inter.c:11-27 | The default key of abc. |
| MyHash.Transform | nginx/c/myhash/md5.c:79-161 | The 64 macro calls are the block function of RFC 1321, section 3.4. |
| MyHash.Encode | nginx/c/myhash/md5.c:53-65 | Words to bytes, low-order byte first. |
| MyHash.Decode | nginx/c/myhash/md5.c:66-78 | Bytes to words, low-order byte first. |
| MyHash.Context.Update | nginx/c/myhash/md5.c:18-41 | The state is that of the message so far followed by the input, for every length for which the loop's unsigned index does not wrap. |
| MyHash.WrapIff | nginx/c/myhash/md5.c:32-33 | Those lengths exactly: below 2^32 - 64 plus what the partial block lacks, modulo 64. |
| MyHash.EndsIff | nginx/c/myhash/md5.c:32-33 | For the other lengths the loop over the blocks never ends: it ends if and only if the index does not wrap. |
| MyHash.Context.Final | nginx/c/myhash/md5.c:42-52 | The digest is that of RFC 1321, hence that of the other implementation. |
| MyHash.Hash | nginx/c/myhash/myhash.c:3-19 | The slot of a C string: the sum of its digest's bytes modulo the number of slots. |
| MyHash.AbcSlot | nginx/c/myhash/myhash.c:3-19 | Of a thousand slots abc has number 960. |
| MyHash.TotalTwo | nginx/c/myhash/myhash.c:10-16 | The sum of the bytes of two parts is that of the whole. |
| AeFiles.EventLoop.CreateFileEvent | proxy/ae.c:240-258 | The mask grows by the requested events, maxfd stays the largest registered descriptor and the kernel's set equal to the masks, if and only if the descriptor ends up with an event or, under select, lies below maxfd; a refused request changes nothing. Handlers it does not name, and other descriptors, stay as they are. |
| AeFiles.EventLoop.DeleteFileEvent | proxy/ae.c:260-276 | The mask shrinks; maxfd is found again; the kernel is asked to modify or drop only what it has. Handlers and other descriptors stay as they are. |
| AeFiles.EventLoop.ResizeSetSize | proxy/ae.c:211-227 | Refused exactly when a registered descriptor would not fit; no mask changes, and what both tables have room for is kept. |
| AeFiles.EventLoop.ApiAddEvent | proxy/ae.c:95-111 | ADD for unregistered descriptors, MOD for registered ones: the kernel refuses exactly those closed while registered. |
| AeFiles.EventLoop.ApiDelEvent | proxy/ae.c:113-130 | MOD or DEL for registered descriptors, without effect on those the kernel has dropped; or the bits cleared in the two select sets. |
| AeFiles.EventLoop.Close | proxy/event.c:98-101 | Closing a descriptor takes it out of the kernel's set; the loop stays in step with it if and only if the descriptor was not registered. |
| AeFiles.EventLoop.Reopen | proxy/event.c:97-115 | When a closed descriptor's number is registered again, that succeeds if and only if the loop had been told of the closing. |
| AeFiles.InStep | proxy/ae.c:95-130 | The kernel watches what the loop believes if and only if no descriptor was closed while registered. |
| AeFiles.BackEndsAgree | proxy/ae_select.c:61-74 | The select sets and the epoll set describe the same interest. |
| AeFiles.AddKeepsWatch | proxy/ae.c:95-111 | Adding keeps the kernel's set in step with the masks if and only if the mask is not empty or the descriptor was registered. |
| AeTimers.TimerLoop.CreateTimeEvent | proxy/ae.c:308-325 | A fresh identifier, above all others, at the head of the list. |
| AeTimers.TimerLoop.DeleteTimeEvent | proxy/ae.c:327-347 | Removes exactly the timer with the identifier, and says whether there was one. |
| AeTimers.Truncates | proxy/ae.c:299-300 | Seconds and milliseconds come from a division that rounds towards zero. |
| AeTimers.DueWhen | proxy/ae.c:294-306 | A timer is due as soon as its period, in milliseconds, is over. |
| AeTimers.PutOff | proxy/ae.c:294-306 | A timer put off is due again at the same moment if and only if its period is not positive. |
| AeTimers.BehavesIff | proxy/ae.c:424-428 | A return value of minus one stops a timer; any other must put it off to a later time while it is still there. |
| AeTimers.NotGoneBack | proxy/ae.c:390-396 | A clock that has not gone back leaves the timers alone. |
| AeTimers.GoneBack | proxy/ae.c:390-396 | After a backward clock step every timer is due, except within second zero. |
| AeTimers.TimerLoop.ProcessTimeEvents | proxy/ae.c:376-442 | With the clock fixed, the restart-from-head loop terminates and calls the callbacks of exactly the timers it reports, none twice, none created during the pass and none that was not due, and each due timer unless a callback deleted it; the list at the end is exactly the untouched timers, the put-off ones and those created by the callbacks called and not deleted by a later one. |
| HashTable.CompareZero | proxy/hash_table.c:76-82 | String comparison is zero only for equal strings, and antisymmetric. |
| HashTable.CompareTransitive | proxy/hash_table.c:76-79 | String comparison is transitive. |
| HashTable.HashTable.Set | proxy/hash_table.c:66-106 | The sorted chains refine a map: setting updates exactly one key. |
| HashTable.HashTable.Get | proxy/hash_table.c:109-129 | Getting yields the map's value, or nothing for an absent key. |
| HashTable.FoundIff | proxy/hash_table.c:115-127 | Where the walk along a sorted chain stops decides whether the key is in the map. |
| Hosts.Store.InitHost | proxy/main.c:46-61 | The list of masters and the backup map from the configured pairs. |
| Hosts.Store.SaveValue | proxy/store.c:29-37 | A value goes to its key's master and then to that master's backup. |
| Hosts.ClientHost | client/src/main/java/com/ifeng/iceberg/IcebergClient.java:51-56 | With distinct masters the client, whichever list it draws from, asks a host the value was written to. |
| Hosts.DistinctMastersAgree | client/src/main/java/com/ifeng/iceberg/IcebergClient.java:51-56 | With distinct masters, the host the client picks from either list is one the proxy wrote to. |
| Hosts.HostsAgree | proxy/main.c:54-59 | In general this holds if and only if a repeated master always has the same backup, or is its own. |
| Placement.WriteGetPath | nginx/c/hash.c:70-109 | The path of the write side, for keys of any length an int can count, and the directories made: those after one, two and three names. |
| Placement.ReadGetPath | nginx/c/hash.c:111-137 | The path of the read side names the same three directories. |
| Placement.ReadIsEnd | nginx/c/hash.c:70-137 | The path that is read is the end of the path that was written, from /files/ on. |
| Placement.AbcDirectory | nginx/c/hash.c:70-109 | Of a thousand directories abc goes to 960. |
| Placement.CountableIff | nginx/c/hash.c:82-87 | The digit loop divides by zero unless the slot count starts with the digit one. |
| Placement.NameIsPadded | nginx/c/hash.c:80-88 | With a power of ten as slot count, a directory name is the number padded with zeros. |
| Placement.ClientHash | client/src/main/java/com/ifeng/iceberg/IcebergClient.java:57-78 | The client's slot of a key. |
| Placement.ClientPath | client/src/main/java/com/ifeng/iceberg/IcebergClient.java:86-93 | With a thousand directories to choose from, the directories in the client's address are those the value was written to, for every NUL-free key. |
| Placement.SlotsAgree | client/src/main/java/com/ifeng/iceberg/IcebergClient.java:57-78 | Client and server compute the same slot for every NUL-free key. |
| Placement.DirectoriesAgree | client/src/main/java/com/ifeng/iceberg/IcebergClient.java:86-93 | With a thousand slots the client names the same directories as the server, for every key. |
| Placement.OnlyThousand | client/src/main/java/com/ifeng/iceberg/IcebergClient.java:88-92 | Among the powers of ten, only with a thousand slots are all numbers named alike. |

## Left out

- RedBlackTree.Tree.Insert: when the recolouring gets to a root that holds a red node outside the tree, the source follows the cleared links of that deleted node; this is excluded.
- ConHash.ConHash.AddReplicas: which freed memory malloc hands out is a parameter, and it never fails. It stops before a node that the tree does not take; the source goes on with the insertion of which RedBlackTree.Tree.Insert says what becomes.
- ConHash.ConHash.AddNode: when it stops early, the hash values of the servers on the ring are not spoken of.
- ConHash.ConHash.Replay: ends with an addition that stops early.
- RedBlackTree.Tree.Delete: ghost annotations say nothing of the deleted node's memory, which the callers free.
- ConHash.ConHash.Lookup: the hash function is a parameter; the default one is Md5.HashDef.
- Proxy.Connection.ParseArray: the loops read one byte past the data before they compare the index; the model compares first. Numbers are unbounded where the source uses int. Objects are maps of byte strings: JSON encoding and its UTF-8 check are not part of this model.
- Proxy.Connection.TakeItem: a bulk item of negative length, which hgetall never answers, counts as undefined; the source moves its index back by it.
- Proxy.Connection.ParseReadData: a top-level bulk string, which hgetall never answers, counts as undefined, because the source passes a string where an object is expected. What the log is told is left out.
- Proxy.Connection.QueryKey: whether the socket takes the command is a parameter; the partial-write loop is Relay.Relay.WriteData.
- Pairing.EveryRunIsPaired: assumes that the slave answers in order, with hashes, in which a field named by the empty string has no value, or with lines of more than five bytes, each reply at most MAX_READ bytes long; Pairing.LongReplyMispairs says what a longer one does.
- Relay.Relay.WriteData: reconnecting to the master inside a write is a separate step, Relay.Relay.Connect.
- Relay.Relay.ReadFromMaster: a header line longer than the buffer is undefined.
- Accepting.AcceptTcpHandler: what accept returns is a parameter. The kernel hands out the lowest free number, which is that of the old slave unless a lower one is free. Connecting for queries, which follows, is Proxy.Connection.Connect; of the closing only the new descriptor's part in the event loop is modelled.
- Sds.Sds.MakeRoomFor: requires that length and room fit the 32-bit header; allocation failure is left out, also elsewhere.
- SdsFormat.CatFmt: requires a result below 2^31 bytes, as the source's position is an int. A trailing lone percent sign makes the source read past the format's end.
- SdsRepr.SplitLineArgs: the tokens are returned as their contents.
- Md5.State.Append: requires counts that do not overflow a signed int, alone or added to a partial block.
- MyHash.Context.Update: requires a length for which the source's loop ends; MyHash.EndsIff says which.
- AeTimers.TimerLoop.ProcessTimeEvents: the linked list is a sequence. Callbacks return AE_NOMORE or a positive period, as with another one the pass has no end (AeTimers.PutOff), and no period after deleting their own timer, which the source would write into freed memory.
- HashTable.HashTable.Get: ht_hash reads an uninitialised variable; the model takes it as a fixed function of the key.
- Placement.WriteGetPath: paths are byte strings of any length and making a directory is only recorded; a key and three names after it are no longer than an int counts. The buffers for them, of fixed size or for nine digits, are not part of this model.
- Hosts.Store.InitHost: requires an even number of addresses, since reading the configuration rejects an odd one (proxy/read_conf.c:55).
- Hosts.Store.SaveValue: requires keys shorter than 2^32 - 64 bytes, as MyHash.Context.Update does.
- Placement.ClientPath: the URL-encoded file name at the end is left out, as the two sides use different encoders.
- processInputBuffer and delParser (proxy/lrued_query.c:41-129): what counts as a DEL command rests on a 14-byte buffer compared without a terminator; the relay model only records which bytes they get.
- nginx/lua/chash.lua: not used by the rest, and its sort leaves pairs unsorted.
- util_rbtree_check: skips parts of the tree; RedBlackTree.Tree.ValidIsRedBlack takes its place.
- The sleep time in aeProcessEvents, polling, and finalizers of timers.
- proxy/util_rbtree.c, proxy/md5.c and proxy/myhash.c repeat the nginx files.
- Sockets, curl, configuration files, logging, the JSON library, semaphores (the proxy has one thread) and the return of memory.
