# ibkr-dx, verified

A Dafny model of the parts of ibkr-dx whose correctness is hardest to see by
reading: the dependency-cycle search that guards the module graph, the
Diffie-Hellman channel that carries the first messages of a session, the other
graph and brace searches its gates stand on, and the splitter that delivers
every callback to two places.

| file | models |
|---|---|
| `Graph.dfy`, `Ordering.dfy`, `Text.dfy`, `Options.dfy` | shared vocabulary: reachability, name order, text search, absence |
| `ModuleGraph.dfy` | `scripts/check_module_graph.py`: Tarjan's search as a class over its six tables |
| `WireReach.dfy` | `scripts/gen_wire_reach.py`: classification by delegation with one shared `seen` |
| `Worklist.dfy`, `OrderFieldReach.dfy` | `scripts/gen_order_field_reach.py`: the worklist closure of the order's conversion |
| `ArgReach.dfy` | `scripts/gen_arg_reach.py`: brace matching and the innermost `impl` |
| `WireCoverage.dfy` | `scripts/gen_wire_coverage.py`: string-aware block ends and test cutting |
| `SpanRows.dfy`, `MarkedItems.dfy`, `ItemReading.dfy` | what those cuts mean: when they are the marked items, wherever these end, and when items are read by punctuation |
| `Seams.dfy`, `CutSeams.dfy`, `CutWitnesses.dfy` | when the marker reappears in what is left, and texts on which the cuts are not the items or the marker does reappear |
| `Bytes.dfy`, `Modular.dfy`, `Base64.dfy`, `Cipher.dfy`, `Prf.dfy` | `src/auth/crypto.rs` and the arithmetic `src/auth/dh.rs` uses |
| `KeySchedule.dfy`, `FrameFormat.dfy` | what the key block and a frame must satisfy, as a peer would write it down from the protocol |
| `SecureConnect.dfy`, `Channel.dfy` | `src/auth/dh.rs`: the opening message, the key derivation, the channel object |
| `ChannelRuns.dfy`, `Conversation.dfy`, `Handshake.dfy` | whole runs of one channel, of two channels over a network, and of the exchange that joins them |
| `Tee.dfy` | `src/api/wrapper.rs`: the `Tee` over wrappers with and without an `error_from` of their own |

`dafny verify dfyconfig.toml` checks all of it.

## How it is set up

**Abstract parts.** The AES block function and the two HMACs are parameters
(`Cipher.Primitives`). What is used of them: deciphering undoes enciphering
under one key and, for what only the writer can have written, the other way
round; and the digests are 16 and 20 bytes. CBC (section 6.2 of NIST SP
800-38A), PKCS#7 padding (section 6.3 of RFC 5652), the TLS 1.0 PRF (section 5
of RFC 2246) and Base64 (section 4 of RFC 4648) are concrete. The client random
and the private key are arbitrary inputs; the modulus is any number of at least
two. Pattern matches of the scripts come in as data: which wordings a body
shows, which names it calls and in which order, where the `impl` headers are,
where the marked items end.
Sets and dictionaries the scripts walk in no promised order are walked in every
order.

**Form.** Code that updates things in place is a class with methods, or a method
with a loop; each is proved against a function or a property of values, and the
theorems are about those. So that a function and the code that follows it
cannot both be wrong in one way, each is also met by a description that does not
use it: exclusive or by bits, the key block and the frame by relations between
bytes, a literal by its bare quotes, a block by brace counts, an order by what
comes next. `p_md5` and `p_sha1` differ only in the hash and are
one method with the hash as an argument. The loop body and the two ends of
`walk` are methods of their own (`Enter`, `Visit`, `Close`, `PopGroup`).
`expect` on missing keys is a precondition of the channel's methods and the
outcome `Panicked` in runs.

**Where the code and its prose differ.** A comment in `build_secure_connect`
speaks of a 2048-bit prime; the modulus in `src/auth/srp.rs` has 1024 bits, and
128 bytes hold a public value exactly when it is below 2^1024
(`SecureConnect.PaddedValue`). Both derivations seed the PRF with the client
random first, and the key block is cut as AES keys, vectors, MAC keys; the model
follows the code rather than section 6.3 of RFC 2246.

**Two things `without_tests` does not do.** It promises to remove every marked
block. What it removes runs from a marker to the end of the first block that
opens after it, whatever that block belongs to. So unmarked code goes along

- with a marked item that ends at a semicolon, as in
  `src/engine/hot_loop/hmds/mod.rs:4265-4266` and `src/auth/session/mod.rs:4-5`
  (`CutWitnesses.UnmarkedFunctionLost`);
- with a marked field, which ends at a comma, as in
  `src/engine/context/mod.rs:79-85` and `:203-207`
  (`CutWitnesses.MarkedFieldTakesTheNext`);
- with an item whose first brace stands in a literal
  (`CutWitnesses.QuotedBraceTakesTheNext`);

and an item that goes on past its first block leaves its end behind
(`MarkedItems.PastTheBlock`, `CutWitnesses.ImportLeavesItsEnd`). Where a marked
item ends is for the language to say, so the items are an input here: any spans
of the text in a row. For every such list, the pass cuts exactly the items when
each starts at a marker and is what is cut there and no marker stands outside
them, and not otherwise (`MarkedItems.CutExactlyTheItems`); it takes exactly
their characters when no marker stands outside them and each run of adjoining
items is a run of adjoining cuts, and not otherwise
(`MarkedItems.OnlyItemsCut`). Where no item ends inside the first block after its
marker, that is a condition on each item alone (`MarkedItems.ItemByItem`). If
items are taken to end at the first semicolon or block, it is a matter of which
of the two comes first (`ItemReading.ReadItemsCut`,
`ItemReading.OnlyReadItemsCut`), a reading the marked field defeats.

What is left may spell the marker again across a cut
(`CutWitnesses.MarkerRespelled`); it does so exactly when a seam spells it
(`CutSeams.MarkerOnlyAtSeams`), which is also exactly when a second pass is not
idle (`CutSeams.SecondPassIdle`).

**One thing `classify` does not do.** "A call that forwards to another is
whatever that one is" can fail around a loop (`WireReach.NotSoInALoop`). Take
the first delegate that answers anything on its own: the caller is whatever that
one is exactly when the delegate, asked with the caller already in `seen`,
answers the same or `silent` (`WireReach.DelegateDecides`); where no delegate
leads back that is always so (`WireReach.WhateverTheDelegateIs`).

## Main results

- `cycles` reports exactly the strongly connected components of two or more
  vertices, for every finite graph and every order of iteration.
- `classify` with its shared `seen` gives the same answer as the plain recursion
  that remembers only the calls being followed, and that answer is `silent`
  exactly when nothing reachable is marked; for every call graph, loops
  included, what a caller makes of its delegates is decided.
- A frame opens to a text exactly when it is the writer's own frame of it; the
  key block is the one the protocol's relations admit, and no other.
- Any run of the channel is unchanged by taking out every refused frame and
  hello; chaining message by message is one continuous CBC pass; and over a
  network that delays frames and injects refused ones, both ways at once, what
  was read is always the beginning of what was sent.
- The cuts of `without_tests` are exactly the marked items, and take exactly
  their characters, under conditions on the text and its items that are both
  necessary and sufficient, wherever the items end; and so for the marker being
  gone from what is left.
- A server that takes the client's values out of the opening message ends in
  step with the client, for every modulus up to 2^1024.

## Model

| member | source | states |
|---|---|---|
| `ModuleGraph.Cycles` | scripts/check_module_graph.py:58-88 | for every finite graph: each reported group is a strongly connected component of at least two vertices, without repeats and in name order; groups are disjoint; every such component is reported; the report is empty iff no two distinct vertices reach each other |
| `ModuleGraph.Search.Walk` | scripts/check_module_graph.py:62-82 | keeps the whole low-link invariant, in which the low-link of every stacked vertex names a stacked one at or below it that it reaches; terminates on the vertices not yet numbered, only extends the tables, and leaves `low[v]` either equal to `index[v]` with the group popped, or naming a reachable vertex still stacked; no edge from what it stacked leads below `low[v]` |
| `ModuleGraph.Search.Visit` | scripts/check_module_graph.py:67-72 | one successor, walked or already stacked or already popped, keeps the invariant and the bound on edges looked at so far |
| `ModuleGraph.Search.Close` | scripts/check_module_graph.py:73-82 | the end of a walk restores the caller's invariant in both cases |
| `ModuleGraph.Search.PopGroup` | scripts/check_module_graph.py:74-80 | the pop loop leaves exactly the older stack, and the group is exactly what left `on`, without repeats |
| `ModuleGraph.Search.Enter` | scripts/check_module_graph.py:63-66 | the vertex takes the next number as index and low-link, and goes on top of the stack |
| `ModuleGraph.OpenScanning` | scripts/check_module_graph.py:63-66 | numbering and stacking a reachable vertex keeps the invariant with that vertex running |
| `ModuleGraph.ScannedWalk` | scripts/check_module_graph.py:68-70 | after a recursive walk and the `min` with its low-link, the low-link still names a reachable stacked vertex and still bounds every edge seen |
| `ModuleGraph.ScannedOn` | scripts/check_module_graph.py:71-72 | the same for a successor that is on the stack |
| `ModuleGraph.KeptAnchors` | scripts/check_module_graph.py:73-73 | when the low-link is smaller than the index, everything stacked still reaches a running vertex at or below it |
| `ModuleGraph.GroupClosed` | scripts/check_module_graph.py:73-80 | when they are equal, no edge leaves the popped vertices together with the group |
| `ModuleGraph.GroupIsComponent` | scripts/check_module_graph.py:73-80 | when they are equal, what lies above the vertex is one whole strongly connected component |
| `ModuleGraph.GroupPopped` | scripts/check_module_graph.py:73-82 | popping that group keeps the caller's invariant |
| `ModuleGraph.LowerKeeps` | scripts/check_module_graph.py:70-72 | taking the `min` into a low-link keeps the invariant, the low-links of all other stacked vertices included |
| `ModuleGraph.PoppingLowLinks` | scripts/check_module_graph.py:73-80 | a pop never takes away the vertex the low-link of a remaining one names |
| `ModuleGraph.ReportedGrows` | scripts/check_module_graph.py:81-82 | appending the sorted group keeps the report exact; a single vertex is not reported |
| `ModuleGraph.StackReachesAbove` | scripts/check_module_graph.py:62-82 | at any moment of the search each stacked vertex reaches every one above it |
| `ModuleGraph.Settled` | scripts/check_module_graph.py:85-87 | with no walk running the stack is empty |
| `ModuleGraph.EveryComponentListed` | scripts/check_module_graph.py:58-88 | an exact report holds every component of two or more vertices, whole |
| `ModuleGraph.EmptyReport` | scripts/check_module_graph.py:88-94 | an exact report is empty iff no two distinct vertices reach each other |
| `ModuleGraph.CycleIsMutual` | scripts/check_module_graph.py:51-54 | in a graph without self-edges, as `edges` builds it, a cycle exists iff two distinct vertices reach each other |
| `ModuleGraph.MemberNamesMember` | scripts/check_module_graph.py:96-100 | every module of a reported group names another of the same group, so the listing under it is never blank |
| `ModuleGraph.Verdict` | scripts/check_module_graph.py:91-103 | the exit code is zero iff no two distinct modules reach each other; without self-edges, iff there is no cycle |
| `Ordering.SortedIsSorted` | scripts/check_module_graph.py:82-82 | sorting orders and rearranges: same elements, same length, no new repeats |
| `Ordering.LexIsTotalOrder` | scripts/check_module_graph.py:82-82 | the order of names is a total order |
| `Ordering.LexDecides` | scripts/check_module_graph.py:82-82 | a name comes before another iff where they first differ it stops or has the smaller character |
| `WireReach.Classifier.Classify` | scripts/gen_wire_reach.py:100-137 | with one `seen` shared by the whole search, the answer is that of the recursion that remembers only the calls being followed; for every call graph and every order of calls; it terminates |
| `WireReach.SpentIsSilent` | scripts/gen_wire_reach.py:102-104 | looking again at a name that was looked at and let go finds nothing, from anywhere still inside the search |
| `WireReach.KindHasSource` | scripts/gen_wire_reach.py:126-137 | a kind other than silent comes from a body the calls lead to, which shows that kind itself |
| `WireReach.SilentMeansUnmarked` | scripts/gen_wire_reach.py:100-137 | silent iff no body reachable through delegation carries any mark |
| `WireReach.PathIrrelevant` | scripts/gen_wire_reach.py:128-133 | names a call never leads to do not change its answer by being followed |
| `WireReach.DelegateDecides` | scripts/gen_wire_reach.py:126-137 | for every call graph and every name that shows nothing early, with `d` the first delegate that is not silent on its own: the name answers what `d` answers with the name already seen, or, if that is silent, what `d` answers on its own; so it is whatever `d` is iff `d` with the name seen says the same or is silent; without such a `d` it answers what it reads itself |
| `WireReach.OwnWordingFirst` | scripts/gen_wire_reach.py:107-124 | for every call graph and every name: what its own body shows, the first of wire, refused, missing and withdrawn, is the answer whatever it delegates to |
| `WireReach.SessionLast` | scripts/gen_wire_reach.py:135-137 | a body that shows nothing and has no delegate that answers is session if it reads the session, else silent |
| `WireReach.SilentButForName` | scripts/gen_wire_reach.py:100-133 | what is silent once a name has been seen is, on its own, silent or whatever that name is |
| `WireReach.SpentIrrelevant` | scripts/gen_wire_reach.py:102-104 | following names that were looked at and let go changes no answer |
| `WireReach.SilentIsSpent` | scripts/gen_wire_reach.py:100-137 | a silent answer leaves only names that are unmarked and hand on to names already seen |
| `WireReach.WhateverTheDelegateIs` | scripts/gen_wire_reach.py:126-137 | where no delegate leads back to it, a name that shows nothing early answers with the first answer its delegates give on their own, and else with what it reads itself |
| `WireReach.NotSoInALoop` | scripts/gen_wire_reach.py:126-133 | a loop of two in which the caller answers from the session while its first delegate, asked on its own, reaches the wire |
| `WireReach.EarlyIsFirst` | scripts/gen_wire_reach.py:107-124 | a body is the first kind, in the order wire, refused, missing, withdrawn, whose wording it shows |
| `WireReach.SilentCalls` | scripts/gen_wire_reach.py:140-185 | the gate finds exactly the requests from which nothing marked is reachable |
| `OrderFieldReach.Conversion` | scripts/gen_order_field_reach.py:179-195 | the text is the bodies of exactly the names reachable from `attrs` through calls on `self`, each once, in depth-first order with the last call of a body first, joined by line breaks; it terminates |
| `OrderFieldReach.LastCallNext` | scripts/gen_order_field_reach.py:186-194 | right after a body comes that of the last call in it that has not come before, if there is one |
| `OrderFieldReach.StartsWithAttrs` | scripts/gen_order_field_reach.py:186-186 | the first body is that of `attrs` |
| `Worklist.Split` | scripts/gen_order_field_reach.py:186-194 | in the depth-first order what stands later in the list is done first, and counts as seen when the rest is done |
| `Worklist.Turn` | scripts/gen_order_field_reach.py:190-194 | taking a new name off the list and putting its calls on top is one step of the depth-first order |
| `Worklist.AfterComesLastCall` | scripts/gen_order_field_reach.py:187-194 | the same for any graph and any list to start from |
| `ArgReach.Body` | scripts/gen_arg_reach.py:58-72 | the text from the first brace to the first position where the depth counted from it is back to zero, or to the end if it never is |
| `ArgReach.EndCounts` | scripts/gen_arg_reach.py:63-72 | a place is the end of a block iff every proper beginning of the block holds more opening braces than closing ones, and there they are equal or the text is over |
| `ArgReach.HoldsEdges` | scripts/gen_arg_reach.py:201-203 | a block holds its two braces and nothing outside them |
| `ArgReach.BlocksNest` | scripts/gen_arg_reach.py:58-72 | two blocks are disjoint, or the later lies inside the earlier; never-closing blocks included |
| `ArgReach.LaterIsInside` | scripts/gen_arg_reach.py:197-203 | of two blocks that hold one position, the one with the later header is inside the other |
| `ArgReach.ImplAt` | scripts/gen_arg_reach.py:190-204 | empty iff no `impl` block holds the position; otherwise the name of one that does and lies inside every other that does |
| `WireCoverage.EndOfBlock` | scripts/gen_wire_coverage.py:94-110 | just past the first brace of code, outside string literals and with escapes skipped, that brings the depth to zero; no answer iff there is none |
| `WireCoverage.SkipLiteral` | scripts/gen_wire_coverage.py:99-102 | the inner loop stops at the closing quote, the first with an even number of backslashes before it, or past the end where there is none; nothing it passed was code |
| `WireCoverage.LiteralSkipped` | scripts/gen_wire_coverage.py:99-102 | for every text: from the quote that opens a literal to the first quote with an even number of backslashes before it nothing is code and no brace counts, and right after it the depth is what it was |
| `WireCoverage.LiteralUnclosed` | scripts/gen_wire_coverage.py:99-102 | a literal without such a quote swallows the rest |
| `WireCoverage.CodeCounts` | scripts/gen_wire_coverage.py:103-106 | outside literals exactly the braces count, one up and one down |
| `WireCoverage.DeepInside` | scripts/gen_wire_coverage.py:94-110 | before its end a block is at least one deep, so the end is the first return to zero |
| `WireCoverage.WithoutTests` | scripts/gen_wire_coverage.py:75-91 | terminates; each cut starts at the first marker after the cut before it and ends with the first block after that marker, or with the text; what is returned is the rest put together; it gives up iff it meets a marked block that never closes |
| `WireCoverage.OutcomeDecided` | scripts/gen_wire_coverage.py:75-91 | that description decides both the cuts and the result: no other text fits it |
| `WireCoverage.CutTests` | scripts/gen_wire_coverage.py:81-91 | the loop, with the cuts it made |
| `WireCoverage.WovenIsText` | scripts/gen_wire_coverage.py:81-91 | kept pieces and cuts in turn, and what follows the last cut, give the original text |
| `WireCoverage.PieceHasNoMarker` | scripts/gen_wire_coverage.py:83-87 | no kept piece spells the marker, the one after the last cut included |
| `MarkedItems.CutExactlyTheItems` | scripts/gen_wire_coverage.py:75-91 | for every text, every outcome and every list of items whatever: the pass gets to the end and cuts exactly these iff they are in a row, each starts at a marker and is what is cut there, and no marker stands outside them |
| `MarkedItems.OnlyItemsCut` | scripts/gen_wire_coverage.py:75-91 | for every text and all items in a row, wherever they start and end: exactly their characters are cut iff no marker stands outside them and each run of adjoining items is a run of adjoining cuts; then the result is the text less its items |
| `MarkedItems.ItemByItem` | scripts/gen_wire_coverage.py:75-91 | for items that start at the markers, none ending inside the first block after its marker: exactly their characters are cut iff each is what is cut at its marker, or ends before any brace and where the next marker stands; iff each cut is one item or several that adjoin |
| `MarkedItems.PastTheBlock` | scripts/gen_wire_coverage.py:88-91 | of an item that goes on past the block at whose end its cut ends, the character behind the block is not cut unless a marker stands there |
| `MarkedItems.CutsFromMarkers` | scripts/gen_wire_coverage.py:81-91 | the cuts of a pass that gets to the end are in a row, start at markers, and leave no marker outside |
| `SpanRows.KeptIsUncovered` | scripts/gen_wire_coverage.py:81-91 | what is kept is exactly the characters no cut holds |
| `SpanRows.SameCharactersSameText` | scripts/gen_wire_coverage.py:81-91 | spans that hold the same characters leave the same text |
| `ItemReading.ReadItemsCut` | scripts/gen_wire_coverage.py:75-91 | items read by punctuation alone, to the first semicolon or the first block: they are what is cut, and the pass gets to the end, iff in each the block comes before any semicolon or, without a brace, nothing follows the semicolon |
| `ItemReading.OnlyReadItemsCut` | scripts/gen_wire_coverage.py:75-91 | items so read: exactly their characters are cut iff in each that holds or the next marker stands where it ends; iff each cut is one item or several that adjoin; then the result is the text less its items |
| `ItemReading.ItemsDecided` | scripts/gen_wire_coverage.py:75-91 | a text has at most one list of items so read |
| `ItemReading.ItemsExist` | scripts/gen_wire_coverage.py:75-91 | it has one iff none of them starts a block, before any semicolon, that never closes |
| `CutSeams.MarkerOnlyAtSeams` | scripts/gen_wire_coverage.py:81-91 | what is left spells the marker iff at some seam the text before it ends with a beginning of the marker and the text after it begins with the rest |
| `CutSeams.PassIsIdle` | scripts/gen_wire_coverage.py:75-91 | a pass changes nothing iff the marker does not occur |
| `CutSeams.SecondPassIdle` | scripts/gen_wire_coverage.py:75-91 | a second pass changes nothing iff no seam of the first spells the marker |
| `Seams.OnlyAtSeams` | scripts/gen_wire_coverage.py:81-87 | for any pattern and any pieces without it, the pieces together hold it iff a seam spells it |
| `CutWitnesses.UnmarkedFunctionLost` | scripts/gen_wire_coverage.py:88-91 | a marked declaration without a block: the unmarked function after it is gone |
| `CutWitnesses.MarkedFieldTakesTheNext` | scripts/gen_wire_coverage.py:88-91 | a marked field that ends at a comma: the unmarked field and the function after it are gone, and read by punctuation all of it would be one item |
| `CutWitnesses.ImportLeavesItsEnd` | scripts/gen_wire_coverage.py:88-91 | a marked import of a group: its semicolon, past the braces, stays |
| `CutWitnesses.QuotedBraceTakesTheNext` | scripts/gen_wire_coverage.py:88-91 | a marked item with a brace in a literal: the unmarked function after it is gone |
| `CutWitnesses.EscapedQuoteSkipped` | scripts/gen_wire_coverage.py:99-102 | an escaped quote in a marked block: the block ends at its own brace and the function after it stays |
| `CutWitnesses.MarkerRespelled` | scripts/gen_wire_coverage.py:86-91 | a text whose result is the marker itself |
| `CutWitnesses.AdjoiningItemsCutTogether` | scripts/gen_wire_coverage.py:88-90 | one cut over two adjoining marked items: it does not end with its own item, and takes nothing unmarked |
| `Text.FindIsLeast` | scripts/gen_wire_coverage.py:83-88 | the search finds the least occurrence, and none only where there is none |
| `ByteStrings.StripLeadingZeros` | src/auth/crypto.rs:19-25 | only zeros go, the number stays, no leading zero remains unless it is the last byte |
| `ByteStrings.FromToBE` | src/auth/dh.rs:236-236 | the shortest big-endian form reads back as its number and has no needless leading zero |
| `ByteStrings.ToFromBE` | src/auth/dh.rs:236-237 | bytes without a needless leading zero are that form, so stripping `to_bytes_be` changes nothing |
| `ByteStrings.XorCancels` | src/auth/crypto.rs:38-56 | mixing the same bytes in twice restores the first |
| `ByteStrings.XorMixes` | src/auth/crypto.rs:113-117 | a byte is the exclusive or of two iff each of its bits is the sum, without carry, of theirs |
| `ByteStrings.BitIsDigit` | src/auth/crypto.rs:113-117 | bit `i` is the binary digit at the place of 2^i |
| `Modular.KeyAgreement` | src/auth/dh.rs:94-99 | for all exponents and moduli both sides arrive at one number |
| `Modular.ModPowSteps` | src/auth/dh.rs:99-99 | exponent zero gives one, and each further step multiplies by the base once |
| `Modular.DegenerateConfines` | src/auth/dh.rs:225-232 | a public value congruent to 0, 1 or -1 confines the shared number to 0, 1 and N-1, whatever the private key |
| `Modular.RangeRefusesDegenerate` | src/auth/dh.rs:225-232 | the range check refuses every such value, and below the modulus refuses nothing else |
| `Base64.DecodeEncode` | src/auth/dh.rs:112-125 | decoding what was encoded gives it back, and the text never holds a semicolon |
| `Base64.EncodeDecode` | src/auth/dh.rs:217-220 | text that decodes is the encoding of what it decodes to: decoding accepts one spelling only |
| `Base64.StandardAlphabet` | src/auth/dh.rs:112-125 | A to Z, a to z, 0 to 9, plus and slash for 0 to 63 in order, and the padding sign |
| `Base64.QuadValue` | src/auth/dh.rs:112-125 | the four symbols of a group, as base-64 digits, are the bits of its bytes, most significant first, filled up with zeros |
| `Base64.EncodeByGroup` | src/auth/dh.rs:112-125 | each group of three bytes, or the rest, in order, is spelled by its four symbols |
| `Cipher.AesCbcEncrypt` | src/auth/crypto.rs:38-46 | the buffer, padded and enciphered block by block, is CBC over the padded text |
| `Cipher.AesCbcDecrypt` | src/auth/crypto.rs:49-56 | the inverse, with no answer for a wrong length or wrong padding |
| `Cipher.EncryptBlocks` | src/auth/crypto.rs:43-45 | in place, the buffer becomes its CBC encryption |
| `Cipher.DecryptBlocks` | src/auth/crypto.rs:50-54 | in place, the buffer becomes its CBC decryption |
| `Cipher.CbcRoundTrip` | src/auth/crypto.rs:38-56 | CBC decryption undoes CBC encryption |
| `Cipher.CbcRoundTripBack` | src/auth/crypto.rs:38-56 | CBC encryption undoes CBC decryption: each ciphertext is that of one text |
| `Cipher.CbcBlock` | src/auth/crypto.rs:43-45 | each cipher block is the block cipher of that block of data mixed with the cipher block before it, or the vector |
| `Cipher.CbcAppend` | src/auth/crypto.rs:38-46 | encrypting in two parts, the second chained to the first, is encrypting the whole |
| `Cipher.UnpadPad` | src/auth/crypto.rs:38-56 | padding comes off again, for every length |
| `Cipher.PadUnpad` | src/auth/crypto.rs:49-56 | what unpads is the padding of its data |
| `Cipher.AesRoundTrip` | src/auth/crypto.rs:38-56 | a message deciphers to itself |
| `FrameFormat.DecipheredIff` | src/auth/crypto.rs:49-56 | deciphering gives a text iff byte by byte the deciphered blocks, mixed with the blocks before them, are the text and one to sixteen bytes that say how many they are |
| `FrameFormat.EncipheredIff` | src/auth/crypto.rs:38-46 | a ciphertext is that of a text iff it carries it in this sense |
| `Prf.Expand` | src/auth/crypto.rs:59-98 | the loops compute P_hash byte for byte, cut to the length asked for |
| `Prf.StreamGrows` | src/auth/crypto.rs:66-74 | one round of the loop adds the next digest of the stream |
| `Prf.PHashPrefix` | src/auth/crypto.rs:75-76 | a shorter output is a prefix of a longer one |
| `Prf.Halves` | src/auth/crypto.rs:105-108 | both halves of the secret have length n/2 rounded up, and share one byte iff n is odd |
| `Prf.Tls10Prf` | src/auth/crypto.rs:101-118 | P_MD5 of the first half mixed with P_SHA-1 of the second, of exactly the length asked for |
| `Prf.PrfPrefix` | src/auth/crypto.rs:101-118 | a shorter PRF output is a prefix of a longer one |
| `KeySchedule.PrfIs` | src/auth/crypto.rs:101-118 | bytes are the PRF output iff there are the A(i) chains, the two expansions under the two halves, MD5 under the first and SHA-1 under the second, and each byte mixes theirs |
| `SecureConnect.SplitJoin` | src/auth/dh.rs:127-129 | fields without the separator are found again |
| `SecureConnect.PaddedValue` | src/auth/dh.rs:114-124 | the 128 bytes stand for the public value iff it is below 2^1024 |
| `SecureConnect.PaddedTop` | src/auth/dh.rs:119-124 | a larger value keeps its 128 most significant bytes |
| `SecureConnect.DecimalReads` | src/auth/dh.rs:127-129 | numbers are spelled in the usual digits, most significant first |
| `SecureConnect.U32Value` | src/auth/dh.rs:133-133 | the length header reads back as the length |
| `Channel.SecureChannel.constructor` | src/auth/dh.rs:85-108 | no keys, and the public value of the private key |
| `Channel.SecureChannel.BuildSecureConnect` | src/auth/dh.rs:111-136 | the magic `#%#%`, a length header equal to the payload length, and a payload spelled as the format says, which splits into exactly six fields and a trailing empty one |
| `Channel.PadPublic` | src/auth/dh.rs:114-124 | both branches fill the 128 bytes, the long one with the most significant bytes |
| `Channel.ConnectVersions` | src/auth/dh.rs:127-129 | the fields read back as both versions |
| `Channel.ConnectValues` | src/auth/dh.rs:112-125 | fields 4 and 5 decode to the client random and to 128 bytes that are the public value iff it is below 2^1024 |
| `Channel.WindowsTileBlock` | src/auth/dh.rs:45-71 | the six windows tile the 104 bytes in order |
| `Channel.SecureChannel.ProcessServerHello` | src/auth/dh.rs:208-263 | derives the keys, or answers the first of the four reasons against the hello and changes nothing |
| `Channel.HelloDecided` | src/auth/dh.rs:214-261 | accepted iff two fields decode and the second, as a number, lies in [2, N-2]; which fault is named first; and then the block is the one the protocol admits |
| `Channel.KeyBlockIs` | src/auth/dh.rs:234-248 | a block is the derived one iff there are a pre-master secret without needless leading zeros and 48 bytes of master secret such that both PRF relations hold under their labels, the client random before the server random |
| `Channel.SecureChannel.DeriveKeys` | src/auth/dh.rs:234-261 | the block the protocol admits for the shared number and the two randoms, with its own vectors |
| `Channel.SecureChannel.Encrypt` | src/auth/dh.rs:269-284 | ciphertext and HMAC over vector and ciphertext; only the write vector moves, to the last cipher block |
| `Channel.SecureChannel.Decrypt` | src/auth/dh.rs:287-311 | answers a text iff the data is a frame of it under the reading windows and vector; length, then MAC, then padding decide; only an accepted frame moves the read vector; a short frame is refused even without keys |
| `Channel.SecureChannel.EncryptFresh` | src/auth/dh.rs:314-331 | the frame under the vector as derived, with nothing changed |
| `Channel.Open` | src/auth/dh.rs:287-311 | an accepted frame is at least 36 bytes with whole blocks, so the last-block slice never underflows |
| `Channel.OpenIff` | src/auth/dh.rs:287-311 | a frame opens to a text iff its blocks carry the text under the reading key and vector and its last 20 bytes are the HMAC of vector and blocks under the reading MAC key |
| `Channel.RefusalDecided` | src/auth/dh.rs:288-305 | too short iff under 20 bytes; else bad MAC iff the tag is not that HMAC; else bad ciphertext iff the blocks carry nothing |
| `Channel.FrameIff` | src/auth/dh.rs:269-284 | bytes are the frame of a text iff they carry it under the writing windows and end in the tag |
| `ChannelRuns.Apply` | src/auth/dh.rs:208-311 | the channel object takes exactly the steps the runs are made of |
| `ChannelRuns.RunKeys` | src/auth/dh.rs:208-311 | after any run keys are absent, or a block of 104 bytes with two vectors of 16 |
| `ChannelRuns.KeyedIffGreeted` | src/auth/dh.rs:208-263 | after any run a new channel has keys iff some hello was accepted |
| `ChannelRuns.BeforeHello` | src/auth/dh.rs:269-295 | after any run without an accepted hello, sending panics and so does receiving, except that a frame under 20 bytes is refused |
| `ChannelRuns.UnservedChangesNothing` | src/auth/dh.rs:208-311 | a refused hello or frame leaves the channel as it was |
| `ChannelRuns.RefusalsStutter` | src/auth/dh.rs:287-311 | taking every refused call out of a run changes neither keys nor vectors nor any other answer |
| `ChannelRuns.InsertedRefusals` | src/auth/dh.rs:287-311 | any number of refused calls put in anywhere: same keys and vectors at the end, same answers of all other calls, same calls served |
| `ChannelRuns.SameServedSameEnd` | src/auth/dh.rs:287-311 | runs that serve the same calls end alike and answer those alike |
| `ChannelRuns.BlockStays` | src/auth/dh.rs:257-311 | between hellos the key block does not change |
| `ChannelRuns.FreshIsFirst` | src/auth/dh.rs:313-331 | in every reachable keyed state `encrypt_fresh` gives what the first `encrypt` after the current hello would have given |
| `Conversation.FramesAreOneStream` | src/auth/dh.rs:269-284 | the frames of any list of messages, without tags, are one CBC pass over all of them padded, and the vector left behind is its last block |
| `Conversation.FrameIsRead` | src/auth/dh.rs:269-311 | a peer in step reads the frame as what was written and stays in step |
| `Conversation.OnlyTheWritersFrame` | src/auth/dh.rs:269-311 | a peer in step reads a frame as a text iff it is the frame the writer writes for that text |
| `Conversation.RefusedIffForeign` | src/auth/dh.rs:287-311 | it refuses a frame iff the writer, where it stands, writes it for no text |
| `Conversation.ChangedTagRefused` | src/auth/dh.rs:299-303 | a frame with another tag is refused for its tag |
| `Conversation.ReplayNeedsCollision` | src/auth/dh.rs:296-303 | a frame written under one vector and accepted under another has one HMAC under both |
| `Conversation.PeerReadsAll` | src/auth/dh.rs:269-311 | for any list of messages the peer reads exactly that list and ends in step |
| `Conversation.InStepAfterEach` | src/auth/dh.rs:278-308 | the peer's read vector equals this side's write vector after every message |
| `Conversation.StepKeepsOrder` | src/auth/dh.rs:269-311 | every step of a two-way network, sending, delivering or injecting a refused frame, keeps both directions in order |
| `Conversation.NothingLostOrReordered` | src/auth/dh.rs:269-311 | in every state of every run, what was read is the beginning of what was sent, and all of it when nothing is under way |
| `Handshake.MirrorReads` | src/auth/dh.rs:45-71 | with each pair of windows exchanged, each side reads with what the other writes with |
| `Handshake.BothDeriveOneBlock` | src/auth/dh.rs:223-261 | the client accepts every hello that carries the random and public value of a server in the group, in however many bytes and whatever further fields follow; and a block satisfies the server's own derivation iff it is the client's |
| `Handshake.Exchange` | src/auth/dh.rs:85-263 | on the channel object, for every modulus up to 2^1024: a server that takes random and public value out of the message the channel built derives the channel's block and no other, and with it both ends are in step both ways |
| `Handshake.HelloForms` | src/auth/dh.rs:164-172 | the documented 128 bytes are such a hello for every modulus up to 2^1024, and so is the shortest form |
| `Handshake.ExchangeEndsInStep` | src/auth/dh.rs:111-263 | the same said of the fields of that message, for every block the server derives |
| `Handshake.DegenerateHelloRefused` | src/auth/dh.rs:225-232 | a hello with a degenerate public value is refused whatever else it carries |
| `TeeWrapper.Recorder.ErrorFrom` | src/api/wrapper.rs:51-53 | without an `error_from` of its own a wrapper is told through `error`, under the origin's number, once |
| `TeeWrapper.SinkErrorFrom` | src/api/wrapper.rs:521-524 | through any tree of splitters each leaf hears an `error_from` exactly as if told directly, the asked side before the kept side |
| `TeeWrapper.SinkError` | src/api/wrapper.rs:517-520 | the same for `error` |
| `TeeWrapper.SinkOther` | src/api/wrapper.rs:501-516 | the same for every other callback |
| `TeeWrapper.DeliverAll` | src/api/wrapper.rs:492-524 | for any run, each leaf's log grows by exactly what direct delivery would have added, and the logging goes callback by callback with the asked side before the kept side |
| `TeeWrapper.EachErrorOnce` | src/api/wrapper.rs:42-53 | a wrapper that implements `error` hears each error of a run once, through one callback or the other |
| `TeeWrapper.OldWrapperUnchanged` | src/api/wrapper.rs:48-53 | a wrapper without `error_from` hears what it heard before that callback existed |
| `TeeWrapper.HearsWhatItImplements` | src/api/wrapper.rs:42-53 | any wrapper hears of any run exactly the callbacks it implements, in order and as they were made; without an `error_from`, after each error was restated under its number |
| `TeeWrapper.NumberStated` | src/types/model.rs:2183-2189 | the number of an origin is its own where it has one, and -1 for the rest |
| `TeeWrapper.AskedFirst` | src/api/wrapper.rs:501-524 | of one callback the asked side notes everything before the kept side notes anything |

## Left out

- AES, MD5, SHA-1 and HMAC internals, and any claim of secrecy or unforgeability: the network of `Conversation` injects only frames that are refused.
- Server identity, certificates and the signature field, which the code does not read.
- The random source and the clock in `SecureChannel::new`: the client random and the private key are inputs.
- `modpow` as an algorithm: it is the power reduced by the modulus.
- File reading, regular expressions, printing and the Markdown reports of the scripts; `edges`, `bodies` and `body_of` come in as data.
- Python's recursion limit, which `cycles` raises to ten thousand: a deeper graph would stop the script, not the model.
- Text is a sequence of characters; only ASCII text is turned into bytes, and the texts that are turned into bytes are ASCII.
- Other error details: the messages carried by the errors, and the exact text of `die`.
- The eighty-odd callbacks of the wrapper one by one: one constructor with a name and arguments stands for all but the two error callbacks.
- The engine, the order book, market data and everything else under `src/engine`, `src/gateway` and `src/client_core`.
