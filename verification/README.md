# Verified core of the net-policy daemon

A Dafny 4.11 model of the parts of the daemon where a mistake changes what a pod
may send or receive, or corrupts the memory and messages that decide it:

- the JSON text engine that control documents pass through (`Json*.dfy`, `MinifyParts.dfy`);
- the reference-counted deleter chain and the zero-copy packet (`Deleter.dfy`, `Packet.dfy`);
- the packet-decision state machine, its two callbacks and its reaper (`FlowSpec.dfy`, `Flow.dfy`,
  `FlowRuns.dfy`, `FlowVerdicts.dfy`);
- the hand-off of control requests to the epoll thread (`Dispatch.dfy`);
- the translation of a policy request into engine rules and HTTP tables (`Policy.dfy`,
  `PolicyRequest.dfy`, `PolicyEntries.dfy`), with the types it shares with the packet decision (`PolicyTypes.dfy`);
- netlink attributes and conntrack tuples (`Netlink.dfy`, `Conntrack.dfy`);
- connection labels (`Labels.dfy`) and the TCP checksum (`Checksum.dfy`).

Code that changes buffers, fields or maps step by step is a class or a method with
loops, proved against a pure function of its inputs; what the code is for is proved
about those functions. `dafny verify dfyconfig.toml` checks everything.

## Main results

- Printing a tree and parsing the text gives the tree back, formatted or not, for every
  tree of at most 1000 levels; the parser's and the printer's loops refine the two functions
  this is stated about, with the exact condition under which a fixed buffer suffices.
- What the parser takes is written down as a grammar of texts that are put together from their
  parts, each with the tree it stands for: a parse to the end succeeds exactly on the documents
  of that grammar, and yields their trees. Literals stand for the UTF-8 of their code points, by
  a reader of its own made from the ranges of RFC 3629, and numerals for their exact values.
- Minifying keeps exactly the strings and the other bytes of a text and drops its space and
  comments, for every text that can be minified. Minifying formatted text gives the unformatted text, in place. The pass stays in front of
  the text's terminator if and only if every string and block comment in the text is closed.
- JSON comparison is symmetric and transitive. It is not reflexive on every tree: a tree
  equals its copy if and only if members with the same key mean the same, and then comparison
  is equality of meaning with the order of members forgotten.
- Deleters: every action runs exactly once, at the moment the last variable that
  encapsulates it is gone; the ownership graph never gets a cycle; sharing and appending
  mean what their documentation says, for every other deleter too.
- A packet behaves as one byte sequence under every operation. Any number of packets made from
  one by sharing behave as byte sequences that have nothing to do with each other, under any
  run of shares, headers, copies in front and behind, front trims, `get_header`, `linearize` and
  appending one to another. A byte written through the place that `get_header` returns is
  different: it is seen by exactly those bytes of any packet that lie in the same place, so a
  sharer sees it.
- `trim_back` drops a suffix, and keeps the invariant of the internal buffer if and only if it
  does not cut into the internal fragment; any cut of a packet copied from at most 112 bytes does.
  `linearize` keeps the bytes, and its result fits into the list of fragments if and only if
  there is a byte or a free place.
- Over all runs of packets, sweeps and policy updates: one verdict for each packet, every entry
  brought by a packet of its own under a key that had HTTP rules then, a constant rule key and
  each payload parsed once and in order while a flow lives, no entry left after a close,
  denied flows never tracked and always dropped, and a bound on the age of entries. Every verdict
  and every event is stated a second time without the decision table: a packet comes back reset
  if and only if it completes a header, its key is in the table of its direction, and the first
  rule that fits the header denies.
- In every interleaving of producers and the epoll thread no request is lost, repeated or
  reordered, and no pointer outlives its producer's wait. Left alone, the epoll thread answers
  a queued request if and only if a wake-up is due or under way; a write that fails can leave
  one unanswered until another producer's write goes through.
- A policy request reaches the engine as exactly the ordered product of its addresses and
  ports, through the JSON text, and nothing passes from one rule to the next; what an address
  text stands for and where each entry of the product is are stated separately, also for rules
  without ports, which stand for all of them. Applying a
  request again leaves the HTTP tables as they are if and only if it has a name or no HTTP rules.
- Attribute trees and conntrack tuples that are built are read back unchanged; a failed build
  leaves the message as it was. Which tuples can be built, every byte of one that is not padding
  and the bits a reader sets are stated in numbers.
- The label map and its inverse table undo each other, and exactly which lines of a file count is
  stated by their characters. After `rst_tcp_link` the addresses, the protocol, the length and the
  segment add up to a multiple of 65535 in network order.

## Model

| member | source | states |
|---|---|---|
| JsonRoundTrip.PrintThenParse | cjson.c:1213-1339 | parsing the formatted or unformatted text of any tree without Raw nodes, nested at most 1000 deep, returns that tree and stops at the terminator, whether or not the end of input is checked |
| JsonRoundTrip.ParseRendered | cjson.c:1213-1265 | the same inside a larger text and at any depth, for every continuation that may follow a value |
| JsonRoundTrip.ParseRenderedArray | cjson.c:1342-1433 | the text of an array is read back as the array |
| JsonRoundTrip.ParseRenderedObject | cjson.c:1498-1604 | the text of an object is read back as the object, keys and order included |
| JsonRoundTrip.ParseQuoted | cjson.c:699-947 | escaping and unescaping undo each other on every NUL-free string |
| JsonRoundTrip.StrtodOfDecimal | cjson.c:267-341 | the decimal text of an integer of at most 15 digits has that value |
| JsonSyntax.DocumentAccepted | cjson.c:985-1078 | a parse that must reach the end accepts a text with a tree if and only if the text is a document of the grammar that stands for the tree: a byte order mark or none, space, one value of at most 1000 nested brackets, space |
| JsonSyntax.DocumentReads | cjson.c:1001-1078 | every document is parsed to its tree |
| JsonSyntax.DocumentFound | cjson.c:1001-1078 | whatever is accepted is a document, and has its tree |
| JsonSyntax.StartReads | cjson.c:1001-1049 | without the check for the end, a value at the start is read whatever follows, unless that makes a numeral longer |
| JsonSyntax.StartFound | cjson.c:1001-1049 | and what is read then is a value at the start of the text |
| JsonSyntax.ValueReads | cjson.c:1213-1265 | at any depth, each value of the grammar is read as its tree, up to its end |
| JsonSyntax.ValueFound | cjson.c:1213-1265 | at any depth, what is read is a value of the grammar within the nesting limit, and its tree |
| JsonSyntax.ItemsRead | cjson.c:1374-1414 | the items of a list, with commas between them and any space around them, are read as its elements |
| JsonSyntax.ItemsFound | cjson.c:1374-1414 | nothing else is read as elements |
| JsonSyntax.FieldsRead | cjson.c:1528-1585 | the fields of a record, key, colon and value with any space, are read as its members |
| JsonSyntax.FieldsFound | cjson.c:1528-1585 | nothing else is read as members |
| JsonTokens.LiteralReads | cjson.c:699-825 | every string literal made of plain bytes and escapes is read with the bytes its units stand for, up to a first zero byte |
| JsonTokens.LiteralFound | cjson.c:699-825 | whatever is read as a string is such a literal, out-of-step escapes at its end included, and has its value |
| Bytes.CStringExactly | cjson.c:802-806 | the value of a literal is a C string: what stands in front of the first zero byte |
| JsonTokens.PiecesDecode | cjson.c:744-800 | units that stand one behind the other are decoded to the bytes they stand for |
| JsonTokens.PiecesFound | cjson.c:744-800 | whatever is decoded is made of such units |
| JsonTokens.CodeEscape | cjson.c:578-696 | the escape of any code point below 65536 that is no half of a pair, its digits in either case, is decoded to bytes that read back as that code point |
| JsonTokens.PairEscape | cjson.c:578-696 | so are the two escapes of any other code point |
| JsonTokens.LetterEscape | cjson.c:762-783 | each of the eight two-character escapes is decoded to its byte |
| JsonTokens.Utf8Reads | cjson.c:641-690 | the bytes written for a code point are read as that code point by the ranges of RFC 3629, section 4 |
| JsonTokens.Utf8Only | cjson.c:641-690 | and no other bytes are |
| JsonTokens.Hex4Exactly | cjson.c:541-575 | four digits, the most significant first, and zero if one of them is none |
| JsonTokens.HexValueExactly | cjson.c:547-563 | a digit stands for its place in the alphabet, in either case |
| JsonTokens.EscapeExactly | cjson.c:899-940 | what is printed for a byte: its own escape, a code escape with small digits, or itself |
| JsonTokens.NumeralReads | cjson.c:267-341 | every numeral of at most 63 bytes is read with its value, when no byte of a number follows |
| JsonTokens.NumeralFound | cjson.c:267-341 | whatever is read as a number is such a numeral, and has its value |
| JsonTokens.ValueMeans | cjson.c:314-321 | the value is that of all digits as one number, moved by the places behind the point and by the power of ten |
| JsonTokens.OneMeaning | cjson.c:314-321 | a numeral has one value only |
| JsonTokens.DigitExactly | cjson.c:286-305 | a digit stands for its place in the alphabet |
| JsonTree.Layout | cjson.c:1436-1718 | the layout of formatted and unformatted text, character by character |
| JsonTree.RenderNulFree | cjson.c:1268-1339 | the text of a tree has no NUL byte, so the scan for the end of printed text finds it |
| JsonPrinter.PrintBuffer.Ensure | cjson.c:374-459 | succeeds exactly when the request fits under the limit (INT_MAX, or the fixed buffer), and then keeps the bytes printed so far |
| JsonPrinter.PrintBuffer.UpdateOffset | cjson.c:462-472 | recovers the end of what was printed by finding the NUL |
| JsonPrinter.PrintBuffer.PrintNumber | cjson.c:475-538 | prints the decimal text and advances the offset itself |
| JsonPrinter.PrintBuffer.PrintString | cjson.c:828-947 | prints the quoted, escaped text and leaves the offset alone |
| JsonPrinter.PrintBuffer.PrintValue | cjson.c:1268-1339 | succeeds exactly when the tree's text and two more bytes fit; then that text, a NUL and the old prefix stand in the buffer and the depth is restored |
| JsonPrinter.PrintBuffer.PrintArray | cjson.c:1436-1495 | the same for arrays |
| JsonPrinter.PrintBuffer.PrintObject | cjson.c:1607-1718 | the same for objects, with indentation |
| JsonPrinter.Print | cjson.c:1088-1150 | returns exactly the text and a NUL, or nothing when it is too long |
| JsonPrinter.PrintBuffered | cjson.c:1163-1191 | the same from any first size; a negative one is refused |
| JsonPrinter.PrintPreallocated | cjson.c:1193-1210 | succeeds exactly when the caller's buffer has the text's length and two bytes more |
| JsonReader.ParseBuffer.SkipWhitespace | cjson.c:964-982 | skips as the grammar says and never passes the last byte |
| JsonReader.ParseBuffer.ParseNumber | cjson.c:267-341 | accepts and yields what strtod makes of at most 63 number bytes |
| JsonReader.ParseBuffer.ParseHex4 | cjson.c:541-575 | the value of four hex digits, zero if one is not |
| JsonReader.ParseBuffer.Utf16LiteralToUtf8 | cjson.c:578-696 | decodes an escape or a surrogate pair to UTF-8 inside the given room, or rejects it; the bytes read back as the code point by RFC 3629 |
| JsonReader.ParseBuffer.ParseString | cjson.c:699-825 | accepts exactly what the grammar accepts, for every input; that these are the string literals and their values is LiteralReads and LiteralFound |
| JsonReader.ParseBuffer.DecodeString | cjson.c:712-803 | what the decode pass writes, terminator included, fits the estimate of the scan pass, also when malformed escapes put the two passes out of step; what the bytes are is PiecesDecode and PiecesFound |
| JsonReader.ParseBuffer.EscapeRoom | cjson.c:578-696 | a unicode escape writes no more than the scan pass counted for it |
| JsonReader.ParseBuffer.ParseValue | cjson.c:1213-1265 | accepts exactly the grammar's values, yields their tree, stops where the grammar stops and restores the depth; that these are the values of JsonSyntax is ValueReads and ValueFound |
| JsonReader.ParseBuffer.ParseArray | cjson.c:1342-1433 | the same for arrays, with the nesting limit |
| JsonReader.ParseBuffer.ParseObject | cjson.c:1498-1604 | the same for objects, with the nesting limit |
| JsonReader.ParseWithOpts | cjson.c:1001-1078 | the whole entry point against the grammar, byte order mark and end-of-input check included; with that check it succeeds exactly on the documents of JsonSyntax, and yields their trees |
| JsonMinify.MinifyFormatted | cjson.c:2630-2698 | minifying the formatted text of any tree gives its unformatted text |
| JsonMinify.Minify | cjson.c:2630-2698 | the in-place pass stays in front of the terminator if and only if the text is closed, and then computes the minified text; it never writes behind the terminator |
| JsonMinify.MinifiedExactly | cjson.c:2666-2690 | exactly the texts whose strings and block comments all end, by a scan byte for byte, have a minified text |
| JsonMinify.LeftOpen | cjson.c:2666-2690 | a lone quote and the start of a block comment have none |
| MinifyParts.PartsMinified | cjson.c:2630-2698 | of a text made of space, comments, strings and other bytes exactly the strings and the other bytes are kept, in order |
| MinifyParts.PartsFound | cjson.c:2630-2698 | every text that can be minified is made of such parts; a block comment may share its star with its end |
| JsonCompare.EqualSymmetric | cjson.c:2800-2923 | comparison does not depend on the order of its arguments |
| JsonCompare.EqualTransitive | cjson.c:2800-2923 | comparison is transitive |
| JsonCompare.ReflexiveIff | cjson.c:2882-2915 | a tree equals a separate copy of itself if and only if members with the same name mean the same |
| JsonCompare.NotReflexive | cjson.c:2882-2915 | an object with two different numbers under one name does not equal its own copy |
| JsonCompare.CompareMeaning | cjson.c:2800-2923 | exactly what comparison decides: agreeing duplicates and the same meaning with the order of members forgotten |
| JsonCompare.CompareDistinct | cjson.c:2800-2923 | with distinct keys comparison is equality of meaning, hence reflexive |
| JsonCompare.Compare | cjson.c:2800-2923 | the recursive loops decide that relation, the swapped second pass included |
| JsonCompare.GetObjectItem | cjson.c:1773-1799 | finds the first member with the name under the chosen case rule |
| JsonCompare.CaseInsensitiveStrcmp | cjson.c:98-119 | zero exactly when the strings agree up to the case of letters |
| JsonCompare.SameKeyLetters | cjson.c:98-119 | keys are the same byte by byte, or, when case does not count, letter by letter |
| Deleter.Heap.ExactlyOnce | http/deleter.hh:122-131 | an action has run once if no variable encapsulates it any more, and not at all otherwise |
| Deleter.Heap.NothingLeft | http/deleter.hh:122-131 | with no variable left every action has run, once, and every node is freed |
| Deleter.Outstanding | http/deleter.hh:122-131 | the same while code holds temporaries: reference counts lead from every pending action up to a holder |
| Deleter.OwnerOf | http/deleter.hh:114-119 | following owners upwards from anything that is owned ends at a variable or a temporary |
| Deleter.BehindPending | http/deleter.hh:114-119 | whatever an owned pointer reaches has not been carried out |
| Deleter.Heap.constructor | http/deleter.hh:61-62 | nothing held, nothing done |
| Deleter.Heap.Release | http/deleter.hh:122-131 | the destructor keeps the invariant: counts equal owners, every action is in one place, ranks decrease; variables keep what they encapsulate |
| Deleter.Heap.Delete | http/deleter.hh:114-149 | destroying a node runs its action and then releases the deleters inside it |
| Deleter.Heap.MakeFree | http/deleter.hh:250-257 | a new variable encapsulates freeing the object, or nothing when there is none |
| Deleter.Heap.MakeDeleter | http/deleter.hh:174-178 | a new variable encapsulates the action and everything the moved deleter did |
| Deleter.Heap.MoveConstruct | http/deleter.hh:64-65 | the new variable takes over, the old one is empty |
| Deleter.Heap.MoveAssign | http/deleter.hh:133-140 | the target's old actions lose this holder, then it takes over; assigning to itself changes nothing |
| Deleter.Heap.Share | http/deleter.hh:202-213 | both variables encapsulate the same actions, nothing runs |
| Deleter.Heap.Append | http/deleter.hh:218-243 | the variable encapsulates both sets of actions, the argument is empty, no other variable changes and nothing runs |
| Deleter.Heap.Walk | http/deleter.hh:223-240 | the loop walks the part of the chain that only this variable leads to, and stops at its end, at the argument itself, or at a shared node outside it |
| Deleter.Heap.AppendShared | http/deleter.hh:233-236 | in front of a shared node a new node holds both, without a cycle |
| Deleter.Heap.AppendEnd | http/deleter.hh:241-242 | at the end the argument becomes the tail, without a cycle |
| Deleter.Heap.Box | http/deleter.hh:208-210 | a directly held object moves into a node of its own, still held once |
| Deleter.Heap.Destroy | http/deleter.hh:122-131 | the variable is gone and nobody else's actions change |
| Packets.Packet.Contents | http/packet.hh:106-118 | the bytes of the fragments in order, whose number is the packet's length |
| Packets.Packet.Empty | http/packet.hh:366-374 | an empty packet with room for the fragments asked for |
| Packets.Packet.Copying | http/packet.hh:346-363 | a copy, inside the packet exactly when it is at most 112 bytes |
| Packets.Packet.ZeroCopy | http/packet.hh:384-403 | the given fragments themselves |
| Packets.Packet.AllocateIfNeeded | http/packet.hh:148-153 | room for more fragments, same bytes, same headroom |
| Packets.Packet.Relocate | http/packet.hh:131-142 | the copy has its own internal buffer and the same bytes |
| Packets.Packet.UnuseInternalData | http/packet.hh:173-188 | same bytes, none of them in the internal buffer |
| Packets.Packet.AllocateHeadroom | http/packet.hh:430-448 | succeeds exactly when the headroom suffices; then the old bytes follow the new, unwritten ones |
| Packets.Packet.PrependCopy | http/packet.hh:451-472 | the bytes in front of the old ones, also when they come from the packet's own internal buffer and it need not move |
| Packets.Packet.PrependUninitializedHeader | http/packet.hh:585-605 | returns where the first bytes of the lengthened packet lie, in memory no other fragment uses |
| Packets.Packet.PrependHeader | http/packet.hh:577-583 | a header written there stands in front of the old bytes |
| Packets.PrependToSharer | http/packet.hh:577-632 | a header prepended to one of two packets that share buffers leaves the other's bytes, and the two stay apart |
| Packets.Packet.AppendFragment | http/packet.hh:474-481 | the fragment's bytes behind the old ones, not copied |
| Packets.Packet.AppendCopy | http/packet.hh:417-427 | a copy behind the old bytes |
| Packets.Packet.Append | http/packet.hh:498-512 | the other packet's bytes behind the old ones |
| Packets.Packet.TrimFront | http/packet.hh:538-558 | exactly the prefix is gone; the internal buffer's headroom follows |
| Packets.Packet.TrimBack | http/packet.hh:560-574 | exactly the suffix is gone; the internal buffer's invariant is kept if and only if the cut is not inside or before the internal fragment, and after a cut inside it the fragment still begins at the old headroom, so that a header which fills the new one would begin in front of the buffer |
| Packets.TrimBackSmall | http/packet.hh:560-574 | of a packet copied from at most 112 bytes any cut from the back breaks the invariant |
| Packets.Packet.GetHeader | http/packet.hh:514-530 | null exactly when the bytes are not there or none are left; else a place in one fragment that holds them, the packet's bytes unchanged, and either nothing has moved or the place is in a new buffer |
| Packets.Packet.LinearizeAt | http/packet.cc:55-81 | enough fragments become one, same bytes; when all were asked for the others are empty, so the old buffers may go |
| Packets.Packet.Linearize | http/packet.cc:55-81 | all bytes are in the first fragment; the list has room for the result if and only if there was a byte or a free place |
| Packets.LinearizeFourEmpty | http/packet.cc:59-72 | a packet of four empty fragments gets a fifth, for which there is no room |
| Packets.Packet.Share | http/packet.hh:612-632 | a packet whose bytes lie exactly where those of the slice asked for lie, in buffers that the original holds too; neither points into the other's internal buffer, and the original keeps its bytes |
| Packets.ShareAmong | http/packet.hh:612-632 | among any number of packets that cannot write to each other's bytes, a share of one is another such packet, and all keep their bytes |
| Packets.ChangeAmong | http/packet.hh:417-583 | among such packets a header, a copy in front or behind, a front trim, get_header and linearize change at most one packet's bytes and no other's |
| Packets.AppendAmong | http/packet.hh:498-512 | among such packets one is appended to another, which has the bytes of both then; the appended one is given a new value, and no other packet changes |
| Packets.Operate | http/packet.hh:417-632 | over any run of these operations the packets have the bytes that unconnected byte sequences would have |
| Packets.WriteThrough | http/packet.hh:514-530 | a byte written where get_header points is seen by exactly those bytes of any packet that lie in the same place |
| Packets.WriteSeenBySharer | http/packet.hh:514-632 | so a sharer sees it at the same byte of its slice |
| Flow.Daemon.Callback | net-policy.cpp:415-732 | one verdict, the tracked flows and the events are those of the decision table, for either direction; FlowVerdicts says what the table means |
| Flow.Daemon.TcpCallback | net-policy.cpp:734-970 | the TCP part of both callbacks; the shared dispatch always finds its entry, with the key looked up |
| Flow.Daemon.Inspect | net-policy.cpp:694-731 | one parser step at most, and the verdict its header leads to |
| Flow.Daemon.MatchMicroPolicyRule | net-policy.cpp:343-371 | the rule that decides: the reverse direction's when it has a smaller priority number and this one does not allow (SmallerDecides) |
| Flow.Daemon.MatchHttpPolicyRule | net-policy.cpp:331-340 | the action of the first rule that admits the header, default if none does |
| Flow.Daemon.MicrosegTouch | net/connection_manager.h:122-128 | refreshes an entry, never inserts, and not for ignored or duplicate packets |
| Flow.Daemon.MicrosegTrack | net/connection_manager.h:149-155 | inserts only if absent, own direction only |
| Flow.Daemon.MicrosegClose | net/connection_manager.h:188-197 | removes both directions exactly for a Closed packet |
| Flow.Daemon.DispatchMicroseg | net/connection_manager.h:214-306 | what each kind of packet does to the map and which header comes out |
| Flow.Daemon.EvictStale | net/connection_manager.h:343-357 | keeps exactly the entries the engine did not report and that are younger than the timeout |
| Flow.Daemon.Run | net-policy.cpp:2020-2038 | any sequence of packets, sweeps and updates leads to the state, the verdicts and the events of the run lemmas |
| FlowRuns.OneVerdictEach | net-policy.cpp:415-970 | the verdicts of a run are one for each packet, in order |
| FlowRuns.Birth | net-policy.cpp:659-683 | an entry appears only through its own packet, with a key that then has HTTP rules in that packet's direction |
| FlowRuns.Origin | net-policy.cpp:659-683 | every entry present after a run was brought by a packet of its own, under the key that the rules of that moment gave and had HTTP rules for in its direction; it has lived since, and its parser has had exactly what came since |
| FlowRuns.Death | net/connection_manager.h:268-272 | an entry disappears if and only if a Closed packet names it or a sweep has a reason |
| FlowRuns.Lifetime | net-policy.cpp:577-698 | while an entry lives its rule key is constant and its parser gets every payload of its own non-SYN, non-duplicate packets, each once and in order, and nothing else |
| FlowRuns.Closed | net-policy.cpp:563-575 | after a Closed packet neither direction's entry remains; the one exception is a packet that is also a SYN and begins a flow |
| FlowRuns.DroppedIff | net-policy.cpp:469-658 | when a packet is dropped, both directions |
| FlowVerdicts.ResetIff | net-policy.cpp:706-731 | a packet comes back reset if and only if it completes a header, the key of its flow is in this direction's table and the first rule that fits denies; and as it came if and only if that rule has another action than deny and default |
| FlowVerdicts.CompletedVerdict | net-policy.cpp:700-731 | the whole verdict on a packet that completes a header: key gone, no rule fits, or by the number of the first rule that fits |
| FlowVerdicts.CompletedEvents | net-policy.cpp:713-727 | a completed header is reported exactly when the first rule that fits is not the default one, and with which tuple |
| FlowVerdicts.RuleDecides | net-policy.cpp:469-658 | verdict and event when the rule engine's rule decides by itself |
| FlowVerdicts.OtherVerdict | net-policy.cpp:426-632 | every other packet passes: without a mark, with the mark that ends inspection, or with the mark of its direction |
| FlowVerdicts.SentCompletes | net-policy.cpp:724-731 | bytes go along with a verdict only if a header is completed |
| FlowVerdicts.SearchFinds | net-policy.cpp:331-340 | the search yields the action of the first rule that fits, the default if none does |
| FlowVerdicts.SmallerDecides | net-policy.cpp:350-371 | when both directions have a rule and this one does not allow, the smaller number decides, and this one on a tie |
| FlowVerdicts.NodesHaveNoRule | net-policy.cpp:343-348 | no rule holds for packets from an address of a node |
| FlowVerdicts.Classes | net-policy.cpp:426-600 | which packets are looked at, which can begin a flow and which feed a parser, by the numbers of marks, lengths, protocols and kinds |
| FlowVerdicts.MarksPass | net-policy.cpp:426-430 | the mark that one direction leaves lets the packet through in the other and not in its own |
| FlowVerdicts.TrackedIff | net-policy.cpp:620-688 | a flow becomes tracked if and only if a SYN or data of its own comes whose deciding rule has HTTP rules in that direction |
| FlowVerdicts.Refreshed | net/connection_manager.h:122-128 | the time of an entry is that of its last packet that is neither ignored nor a repetition |
| FlowRuns.NeverTracked | net-policy.cpp:634-658 | a denied flow without HTTP rules is never tracked in any run that does not lift the denial |
| FlowRuns.DenyHolds | net-policy.cpp:540-658 | every SYN-flagged or data packet of such a flow is dropped, whatever came before |
| FlowRuns.AgesAtSweep | net/connection_manager.h:343-357 | at the last sweep no present entry was older than the timeout |
| FlowRuns.ReaperBound | net-policy.cpp:1823-1834 | with sweeps at most an interval apart no entry gets older than timeout plus interval |
| Dispatch.StepKeepsInv | grpc/control_dispatch.cc:14-31 | every step of every thread keeps order, answers and wake-ups intact |
| Dispatch.RunKeepsInv | grpc/control_dispatch.cc:14-31 | the same over every interleaving |
| Dispatch.NothingStranded | net-policy.cpp:1781-1799 | a queued request has a producer about to write or whose write failed, or a wake-up is due or under way |
| Dispatch.NoDanglingItem | net-policy.cpp:1476-1486 | no queued or drained pointer outlives its producer's wait |
| Dispatch.RunOnceInOrder | net-policy.cpp:1788-1797 | requests run once, in push order, and no producer returns before its own has run |
| Dispatch.EveryoneAnswered | net-policy.cpp:1781-1799 | left alone the consumer comes to rest with every request answered whose write went through |
| Dispatch.SettledRuns | net-policy.cpp:1781-1799 | left alone the consumer runs its batch, in order, and the queue behind it exactly if a wake-up is due |
| Dispatch.SettledExactly | net-policy.cpp:1781-1799 | left alone it answers a request if and only if the request is not queued any more or a wake-up is due or under way |
| Dispatch.Stranded | grpc/control_dispatch.cc:14-24 | after a push whose write fails the request is queued, the consumer asleep, and no answer comes |
| Dispatch.OnlyAWriteHelps | grpc/control_dispatch.cc:14-24 | with no wake-up due a queued request stays unanswered over every run in which no write goes through |
| Dispatch.GrpcDispatchQueue.Push | grpc/control_dispatch.cc:14-24 | the item is last, and unless the write fails a wake-up is due, also when the counter is full; it is the push and the write of the protocol |
| Dispatch.GrpcDispatchQueue.DrainAll | grpc/control_dispatch.cc:26-31 | everything queued, in order, and an empty queue |
| Dispatch.GrpcDispatchQueue.DispatchEvent | net-policy.cpp:1781-1799 | reads the counter down to zero and runs what was queued, in order; it takes the protocol to where the consumer comes to rest |
| Policy.ParseIpString | net-policy.cpp:80-133 | appends the addresses of a comma-separated list, ranges of last octets written out, or throws exactly when the bounds of a range are no numbers |
| Policy.ExpandJoined | net-policy.cpp:83-87 | a list written with commas is read piece by piece |
| Policy.PlainAddress | net-policy.cpp:128-129 | an address without a dash stands for itself |
| Policy.RangeOfAddresses | net-policy.cpp:88-104 | three octets and two numbers with a dash stand for the addresses from the one to the other |
| Policy.RangeToAddress | net-policy.cpp:89-102 | a range whose end is a whole address goes up to that address's first octet, and is empty exactly when it starts above it |
| Policy.RangeAt | net-policy.cpp:100-102 | how many addresses a range has, and each of them |
| PolicyEntries.NotFourParts | net-policy.cpp:91-105 | a range that does not start with an address of four parts is passed over |
| PolicyEntries.StoiReads | net-policy.cpp:97-98 | blanks, a sign and digits are read as the number, whatever follows, unless it is out of the range of int |
| PolicyEntries.StoiFound | net-policy.cpp:97-98 | nothing else is read as a number |
| Policy.ProductAt | net-policy.cpp:1412-1432 | every combination of source, destination and port has its entry at its place |
| Policy.ProductLength | net-policy.cpp:1412-1432 | there are no other entries, and none under a priority that is refused |
| Policy.Microseg.DeletePolicy | net-policy.cpp:1127-1134 | all that is known under the name goes, except for an empty name |
| Policy.Microseg.Erase | net-policy.cpp:259-264 | both tables lose the key and nothing else, and the engine is told for both directions |
| Policy.Microseg.AddHttpPolicy | net-policy.cpp:266-272 | one more rule at the end of the key's list in one table |
| Policy.Microseg.AddNewPolicy | net-policy.cpp:1141-1149 | the engine is told exactly for priorities 1 to 128 |
| Policy.Microseg.AddHttpRules | net-policy.cpp:1302-1325 | the HTTP rules up to the first that lacks something go to the table of the rule's direction, none with a field of another |
| Policy.Microseg.CollectAddresses | net-policy.cpp:1327-1353 | appends the addresses up to the first entry without one, or throws |
| Policy.Microseg.CollectPorts | net-policy.cpp:1355-1383 | appends the ports, cut to 16 bits, a missing end being the port itself |
| Policy.Microseg.AddProduct | net-policy.cpp:1412-1432 | the nested loops add the ordered product of sources, destinations and ports, and without ports one entry for each pair of addresses |
| Policy.Microseg.ParseRule | net-policy.cpp:1276-1437 | one turn of the loop, whatever lists it finds: the rule's HTTP rules and the product with its own addresses and ports appended, or how far it got; a turn that ends clears the lists |
| Policy.Microseg.ParseNetPolicy | net-policy.cpp:1241-1449 | the lists are empty at the head of every turn, so each rule has the effect it has by itself; the whole effect on tables and engine, missing parts and exceptions included |
| PolicyRequest.RuleMeans | net-policy.cpp:1722-1761 | a rule written to JSON and read back has exactly the effect the request asks for |
| PolicyRequest.DocumentMeans | net-policy.cpp:1688-1779 | reading a request's document does what the request means, leaves every other policy alone, and throws exactly if the addresses of some rule do |
| PolicyEntries.WithoutPorts | net-policy.cpp:1412-1423 | a rule without ports has one entry for each source and destination, at its place, for all ports and protocols, and no other |
| PolicyEntries.WithPorts | net-policy.cpp:1371-1432 | with ports it has one for each of them too, cut to sixteen bits, an end of zero meaning the port itself, and no other |
| PolicyEntries.Refused | net-policy.cpp:1141-1149 | under a priority outside 1 to 128 it has none |
| PolicyEntries.MeantWithoutPorts | net-policy.cpp:1412-1423 | the entries of a rule without ports are among those of the request that has it |
| PolicyEntries.EngineMeant | net-policy.cpp:1264-1437 | the engine is told to forget the name, and then gets exactly the entries of the rules that are reached |
| PolicyEntries.TablesMeant | net-policy.cpp:1264-1325 | afterwards the HTTP rules of the name are those of the request, and all other names keep theirs |
| PolicyEntries.RuleNumbers | net-policy.cpp:1688-1706 | the action, direction, protocol and priority of an entry, by the numbers of the request |
| PolicyEntries.HttpRuleAt | net-policy.cpp:1302-1323 | each HTTP rule has the action and direction of the rule it belongs to |
| PolicyEntries.Words | net-policy.cpp:1182-1190 | the words for actions, protocols and directions, and what any other word is read as |
| PolicyEntries.Keys | net-policy.cpp:1260-1400 | the keys of a policy document, letter by letter |
| PolicyEntries.OutcomeIff | net-policy.cpp:1276-1437 | a rule is read to its end, breaks the loop or throws, by what is missing; its HTTP rules are stored in any case |
| PolicyEntries.AddressesStop | net-policy.cpp:1331-1340 | nothing behind an address entry without an address is read |
| PolicyEntries.HttpStops | net-policy.cpp:1306-1320 | nothing behind an HTTP rule that lacks a part is read |
| PolicyEntries.IntOfNumber | cjson.c:323-335 | the integer of a number is the number without its fraction, within the range of int |
| PolicyRequest.Again | net-policy.cpp:1264-1273 | applying a request twice leaves both HTTP tables as after once, if and only if it has a name or no HTTP rules |
| PolicyRequest.UnnamedAgain | net-policy.cpp:1127-1134 | a request without a name and with one HTTP rule, applied twice, leaves the rule there twice |
| PolicyRequest.AddPolicyRule | net-policy.cpp:1715-1779 | the request printed, parsed and applied has the meaning of the request; the result is zero, or one when an exception ended it |
| Netlink.ReadBack | libmnl/libmnl.h:146-154 | iterating recursively over the bytes of any attribute tree returns the tree and stops exactly at the end |
| Netlink.ForEach | libmnl/libmnl.h:146-159 | the loop yields the attributes and the stopping place of the iteration |
| Netlink.FlatIsTop | libmnl/libmnl.h:146-159 | the plain iteration yields the top level of what iterating into every nest yields |
| Netlink.HeadEncoded | libmnl/attr.c:98-117 | the first attribute is accepted and the next one begins at its aligned end |
| Netlink.SizeAligned | libmnl/attr.c:420-420 | every attribute takes a multiple of four bytes |
| Netlink.FieldBits | libmnl/attr.c:39-42 | a type field is two flags and fourteen bits of type |
| Netlink.NlMsg.constructor | libmnl/mnlmsg.c:83-91 | a zeroed header and its length |
| Netlink.NlMsg.Put | libmnl/attr.c:411-421 | the attribute is encoded at the tail, length and type as two bytes each, the low one first; the message before it is unchanged and its length stays aligned; the length is kept in sixteen bits |
| Netlink.NlMsg.PutCheck | libmnl/attr.c:552-559 | refuses exactly what does not fit, then changing nothing |
| Netlink.NlMsg.NestStart | libmnl/attr.c:526-535 | a header with the nested flag at the tail |
| Netlink.NlMsg.NestStartCheck | libmnl/attr.c:697-702 | refuses exactly what does not fit |
| Netlink.NlMsg.NestEnd | libmnl/attr.c:712-715 | only the nest's length is written, the distance to the tail |
| Netlink.NlMsg.NestCancel | libmnl/attr.c:725-728 | the message is what it was at the start of the nest |
| Netlink.NlMsg.PutAttrs | libmnl/attr.c:411-535 | put, nest start and nest end encode any tree of attributes |
| Netlink.NlMsg.BuildAndRead | libmnl/attr.c:274-305 | build any tree, iterate, get it back, stop at the tail |
| Conntrack.BuildTupleIp | libnetfilter_conntrack/build_mnl.c:16-41 | encodes the addresses of an IPv4 or IPv6 tuple, else leaves the message as it was |
| Conntrack.BuildTupleProto | libnetfilter_conntrack/build_mnl.c:43-81 | encodes protocol and ports or ICMP fields for the protocols 1, 6, 17, 33, 47, 58, 132 and 136, else leaves the message as it was |
| Conntrack.BuildTuple | libnetfilter_conntrack/build_mnl.c:93-109 | succeeds exactly for address families 2 and 10 and the protocols 1, 6, 17, 33, 47, 58, 132 and 136; every byte that is not padding, in numbers; a failed build leaves the message as it was |
| Conntrack.TupleWired | libnetfilter_conntrack/build_mnl.c:16-109 | the bytes of a built tuple: each header with its length, type and nested flag, and each field at its place |
| Conntrack.SupportedNumbers | libnetfilter_conntrack/build_mnl.c:25-76 | which address families and protocols there are |
| Conntrack.ParseNested | libmnl/attr.c:298-305 | the table holds the last attribute of each known type; a wrong length is fatal, an unknown type skipped |
| Conntrack.ParseIp | libnetfilter_conntrack/parse_mnl.c:46-125 | which address bytes and attribute bits a table sets |
| Conntrack.ParseProto | libnetfilter_conntrack/parse_mnl.c:158-263 | which protocol fields and attribute bits a table sets |
| Conntrack.ParseTuple | libnetfilter_conntrack/parse_mnl.c:290-325 | the same for a whole tuple, zone included |
| Conntrack.ZoneRead | libnetfilter_conntrack/parse_mnl.c:306-321 | the zone is read in network byte order, and stays without the attribute |
| Conntrack.WidthNumbers | libnetfilter_conntrack/parse_mnl.c:26-288 | how long each attribute must be, by the numbers of the types |
| Conntrack.TupleRoundTrip | libnetfilter_conntrack/parse_mnl.c:290-325 | parsing a built tuple recovers it and sets exactly the bits of what it carries, whose numbers BitNumbers gives |
| Conntrack.BitNumbers | libnetfilter_conntrack/libnetfilter_conntrack.h:59-137 | the bits that reading a built tuple sets, by their numbers, for each direction |
| Conntrack.BitOf | libnetfilter_conntrack/libnetfilter_conntrack.h:59-137 | which attribute has which bit |
| Conntrack.BuildThenParse | libnetfilter_conntrack/build_mnl.c:93-109 | the same through the message buffer |
| Labels.HashName | libnetfilter_conntrack/labels.c:44-54 | the loop computes the hash, modulo two to the thirty-second, with signed characters |
| Labels.LoadedSound | libnetfilter_conntrack/labels.c:259-281 | whatever lines are loaded, no bit has two names, no name is empty, no bit is too large |
| Labels.LoadedExactly | libnetfilter_conntrack/labels.c:259-281 | a name has a bit after loading if and only if some line that is no comment gives it, with a bit below 1024, a name of letters, digits, spaces and dashes, and neither taken by a line before it |
| Labels.HashSnoc | libnetfilter_conntrack/labels.c:44-54 | the hash is a polynomial in 31 with signed characters, reduced to 32 bits and to the table |
| Labels.LabelMap.Insert | libnetfilter_conntrack/labels.c:83-105 | the buckets hold one more entry exactly when the name was not there |
| Labels.LabelMap.GetBit | libnetfilter_conntrack/labels.c:56-74 | the bit of the name, -1 exactly when there is none |
| Labels.LabelMap.GetName | libnetfilter_conntrack/labels.c:76-81 | the name of the bit, the empty name for a hole, nothing beyond the last |
| Labels.LabelMap.Inverse | libnetfilter_conntrack/labels.c:56-81 | the lookup of a name gives a bit exactly when the lookup of the bit gives the name |
| Labels.LabelMap.MakeNameTable | libnetfilter_conntrack/labels.c:177-191 | the table is the inverse of the buckets |
| Labels.LabelMap.Load | libnetfilter_conntrack/labels.c:236-301 | the buckets and the table represent the fold that takes a line if neither its bit nor its name is taken; nothing when no line was taken |
| Checksum.Fold | net-policy.cpp:171-172 | folding terminates in sixteen bits, keeps the sum modulo 65535 and reaches zero only from zero |
| Checksum.SumsAgree | net-policy.cpp:161-175 | the check succeeds in the host's byte order exactly when it does in network order |
| Checksum.SumsSwap | net-policy.cpp:161-175 | the sum in the host's byte order is that in network order with its bytes exchanged |
| Checksum.NetworkWordsSnoc | net-policy.cpp:161-169 | in network order the bytes at even places count 256 times |
| Checksum.CoveredTotal | net-policy.cpp:196-203 | what is summed up, byte by byte: both addresses, zero, the protocol, the length of the segment in network order, and the segment |
| Checksum.CarriesItsSum | net-policy.cpp:161-175 | a buffer that carries its own checksum passes the check |
| Checksum.Csum | net-policy.cpp:161-175 | the loops compute the complemented, folded sum of the words |
| Checksum.TcpCsum | net-policy.cpp:178-213 | the sum over pseudo header and segment with a zero checksum field, which stored as it is has the right bytes in network order; or zero for another protocol and for a packet of 2048 bytes and more |
| Checksum.RstTcpLink | net-policy.cpp:384-413 | at most the first eight payload bytes are zeroed and nothing else but the checksum changes, by the numbers of the two headers; below 2048 bytes the addresses, the protocol, the length and the segment then add up to a multiple of 65535 in network order, and the check gives zero in either order |

## Left out

- Allocation failure everywhere: growing, copying and duplicating always succeed.
- Numbers that are not integers of at most 15 digits when printed, locale-dependent decimal points, and rounding: numbers are exact reals.
- Raw JSON nodes, error positions of failed parses, reference and constant-key flags, and the node-by-node building and deleting of trees, which are values here.
- JsonCompare.Compare: two separate trees only; that a node always equals itself by pointer is not modelled, and neither are Raw nodes and NaN.
- JsonMinify.Minify: what the code does behind the terminator of a text that is not closed; the model stops there.
- Deleter.Heap.Append: reference counts are unbounded, the order in which released actions run is not stated, and a deleter inside a running action cannot be used by it.
- Packets.Packet.Append: lengths and fragment counts are unbounded instead of 32 and 16 bits wide, the packet's own deleter is not tied to the deleter model, and offload information and the RSS hash are not carried.
- Packets.Operate: trim_back, whose condition is not one on the bytes, fragments taken over without a copy, and linearizing a packet without bytes are not among the operations of a run.
- Packets.Packet.PrependCopy: bytes in the packet's own internal buffer when the packet has to move to a larger one first, which releases them before they are read.
- Packets.Packet.TrimBack: what later operations do once the internal buffer's invariant is lost.
- Packets.Packet.AppendFragment: fragments and packets that point into the packet's own internal buffer, which only its first fragment may use (http/packet.hh:114).
- The flow engine, rule engine, HTTP parser, packet queues and conntrack sessions: their results are inputs, and a parser is a function of the chunks it was fed.
- Loopback flows, whose two directions share one connection id, in the statements about denied flows.
- Flow.Daemon.Callback: one clock reading for each packet instead of several; logging and the delivery of events are left out.
- Policy.Microseg.ParseNetPolicy: an item whose text is taken must be a string, where the code would follow a null pointer, and conntrack marks of pods are left out.
- Policy.ParseIpString: ends behind a range up to INT_MAX, where the code's counter overflows.
- PolicyRequest.AddPolicyRule: strings without NUL, pod numbers of at most 15 digits, and the work is done at once instead of through the queue.
- Netlink.NlMsg.constructor: the message length is a field of its own, not the first four bytes of the buffer; little-endian hosts only.
- Message batches, validation tables, whole conntrack objects, expectations and attribute getters and setters: many small members of the kinds already here.
- Labels.LabelMap.Load: reading the file, strtoul and trimming; a line comes as its number and its label.
- Checksum.TcpCsum: TCP packets below 2048 bytes whose headers do not fit inside them are excluded.
- Checksum.RstTcpLink: packets whose headers do not fit inside them are excluded.
- llhttp, nghttp2, the HTTP inspector and filter chain, sockets, timers, namespaces, iptables and logging.
