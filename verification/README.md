# A small SMTP client and server, verified

This project models the SMTP client and server of the repository and the dictionary they share, and
proves what they are for: that a letter sent by the client is the letter the server holds, and that
the run ends.

Four parts, from the bottom up:

- **Dictionary** (`Rings`, `Tree*`, `RedBlack`, `Dictionary*`, `SampleRuns`, `LostKeys`, `NullRun`). A
  coloured search tree with parent pointers, rebalanced by rotations on the heap, whose nodes are also
  threaded on a ring. `TreeShape` has the tree as a value and the fixup as a function on it;
  `TreeProgram` has the C code as functions on any memory, well-formed or not; `TreeRefinement` and
  `TreeReads`, with `TreeMemory`, `TreeRotation`, `TreeLinks` and `TreeFixup`, tell when the second
  does what the first does; `TreeOrder` tells when it keeps a search tree at all, and `TreeRuns` lifts
  both to runs; `RedBlack` tells when the tree stays balanced; `Dictionary` is the class.
- **Server** (`StringUtils`, `MailGrammar`, `SmtpCommands`, `Lines`, `Smtp`, `Framing`, `Server`,
  `SmtpRuns`). Chunks of bytes become commands, commands drive a session of four states that owns
  three rings of lines.
- **Client** (`ClientFsm`, `Replies`, `Connections`, `ClientLoop`, `Batch`, `Recipients`, `Delivery`). The
  dialogue machine, the send queue and receive buffer, the division of work among processes, the
  recipients of a mail file, and that its connections go to their servers.
- **Both together** (`Dialogue`, `Composition`, `Pairs`). One connection and one session over two FIFO
  channels, as step relations and as objects that take these steps.

## How to read it

Methods work on the heap as the C code does; each is proved against a function on values, and the
theorems are about those functions. `Dict` and the pointers in it are mirrored by a ghost map, the
lines of a session by a ghost `Ledger`.

Both rotations forget to re-aim the parent pointer of the subtree they move. The dictionary has a
constant `repaired`: false is the code as written, true adds the two missing assignments, which is the
one deviation from the source. What the code as written does follows in these steps.

1. The methods of `Dict` that touch the tree compute `TreeProgram` on any memory, stale pointers
   included. A piece of the program ends, follows a null pointer, or has not ended in the rounds it was
   given.
2. All pointers stay truthful exactly if no insertion rotates around a non-empty subtree (`Harmless`,
   which can be told from the keys, and `HarmlessAlways`); the eighth of eight rising keys does
   (`EightInsertions`).
3. An insertion does what insertion on the shape does if the pointers that its fixup reads are truthful
   (`InsertRefines`), whatever the others are, and so does a run (`Passable`, `RunRefines`); the ninth of
   nine rising keys goes past a stale pointer in this way (`NineRising`).
4. In general a rotation keeps the tree exactly if its node is named by its own parent pointer, that is,
   if this leads to its parent (`TurnRightTree`). So an insertion or a run holds a tree after every
   rotation exactly if all of them are at such nodes (`InsertKeeps`, `RunKeeps`), and then, if it ends, it
   ends with a search tree in which exactly the keys inserted are found (`RunFinds`, and `InsertAll` for
   the map). `Steady` is that condition together with ending; runs that are `Passable` meet it
   (`PassableSteady`), and others too.
5. Runs that do not meet it fail: after a certain run of ten keys six of them are not found any more
   (`TenInsertions`, and `LoseKeys` on the heap), and the ninth of nine other keys makes the fixup follow
   a null pointer, though every rotation up to there is at a node that its parent pointer names
   (`NineFollowNull`).

For the repaired dictionary runs of any length and any keys are proved to be a map.

The tree is not always a red-black tree, with or without the repair, because the fixup goes on from the
same node after a double rotation and looks at the colour of its parent only. It stays one exactly if
no insertion ever double-rotates a node that is black by then (`KeepsBalance`, a predicate on the tree
and the key before the insertion); `NineInsertions` is a run of nine keys of which the last does.

For the server, `InSequence`, `ErrorIff`, `Codes` and `Restarts` tell what each command does after any
lines, and `History` and `SavedAre` what is in an envelope and which are saved. For the client, `Ending`
tells how a dialogue ends over any events, and `ProcessMailFiles` that the connections made from mail
files go to the servers of their recipients.

Assumptions: allocation succeeds; streams and strings contain no NUL; `memcpy` on overlapping buffers
moves; the client's buffers end at `to_send` and `to_receive`; dictionary keys are shorter than 128
bytes; nothing is read after a QUIT; arrays the code means to zero are zero. For the two programs
together: the addresses are in the server's grammar; the text is not empty, has no doubled and no
final carriage return and no line that is a single dot (there is no dot-stuffing as in section 4.5.2
of RFC 5321; `FirstEnvelope` tells what such a line does); no chunk ends between a CR and its LF;
replies arrive whole.

`dafny verify dfyconfig.toml` checks the project.

## Model

| member | source | states |
|---|---|---|
| `CString.StrCmpZero` | common/src/tree.c:104 | `strcmp` answers 0 exactly for equal keys |
| `CString.StrCmpFlip` | common/src/tree.c:104 | swapping the arguments of `strcmp` swaps the sign |
| `CString.LessTransitive` | common/src/tree.c:104 | the order of `strcmp` is transitive |
| `CString.LessMeans` | common/src/tree.c:104 | it is the one of dictionaries: at the first difference one string has ended or has the smaller character |
| `Rings.ListInit` | common/include/list.h:18-22 | an initialised element is a ring of its own |
| `Rings.ListAddBetween` | common/include/list.h:24-32 | putting an element between two neighbours turns the ring `s` into the ring with the element behind position `k` |
| `Rings.ListAdd` | common/include/list.h:34-37 | the new element follows the head directly, all others keep their place |
| `Rings.ListAddTail` | common/include/list.h:39-42 | the new element is the last one seen from the head |
| `Rings.ListDelBetween` | common/include/list.h:44-49 | the two neighbours of an element close the ring without it, if anything is left of it; the element keeps its own links |
| `Rings.ListDel` | common/include/list.h:51-56 | the remaining elements, if any, form the ring without the element, whose own links are null |
| `Rings.ListForeach` | common/include/list.h:58-59 | visits each element of the ring once, from the head on, and stops |
| `Rings.RingMeans` | common/include/list.h:13-16 | being a ring is: pairwise distinct links, each `next` and `prev` leading to its neighbour, closed at the ends |
| `TreeShape.TreeNode.constructor` | common/include/tree.h:29-48 | a new node is black, unlinked, and alone on its ring |
| `TreeShape.StepClimbs` | common/src/tree.c:69-89 | an iteration of the fixup lifts the node by two levels on recolouring and on a double rotation and by one on a single rotation; a grandparent always exists; the root stays black |
| `TreeShape.StepInorder` | common/src/tree.c:69-89 | an iteration of the fixup keeps the nodes and their key order |
| `TreeShape.FixInorder` | common/src/tree.c:68-91 | the whole fixup keeps the nodes and their key order and ends with a black root |
| `TreeShape.LocateExact` | common/src/tree.c:129-142 | on a search tree the walk ends at a node exactly if the key is in the tree, and then at a node with that key |
| `TreeShape.InsertedOrder` | common/src/tree.c:93-123 | inserting a new key adds its node at its place in the key order and nothing else; the tree stays a search tree with a black root |
| `TreeRotation.RightRotatedTree` | common/src/tree.c:22-38 | `right_rotate` yields the rotated tree in its context exactly if the parent pointer of its node is truthful |
| `TreeRotation.LeftRotatedTree` | common/src/tree.c:40-57 | `left_rotate` yields the rotated tree in its context exactly if the parent pointer of its node is truthful |
| `TreeLinks.RightRotationLinks` | common/src/tree.c:22-38 | if all parent pointers are truthful, they are so after `right_rotate` exactly if the moved subtree is empty or was re-aimed |
| `TreeLinks.LeftRotationLinks` | common/src/tree.c:40-57 | if all parent pointers are truthful, they are so after `left_rotate` exactly if the moved subtree is empty or was re-aimed |
| `TreeRefinement.TurnRightIs` | common/src/tree.c:22-38 | where no two of the nodes involved coincide, the assignments of `right_rotate` amount to the rotation, every other field staying as it was |
| `TreeRefinement.TurnLeftIs` | common/src/tree.c:40-57 | likewise for `left_rotate` |
| `TreeRefinement.Iterates` | common/src/tree.c:70-88 | one iteration of the fixup, with truthful pointers on the path to the root, does what `Step` does on the shape, meets no null pointer and changes parent pointers on that path only |
| `TreeRefinement.FixRefines` | common/src/tree.c:68-91 | the loop ends and leaves the tree `Fix` behind; if all parent pointers were truthful before, they are afterwards exactly if every rotation moved an empty subtree or the repair is on |
| `TreeRefinement.WalkRefines` | common/src/tree.c:129-142 | the search loop ends, whatever the parent pointers are, and where the walk on the shape ends |
| `TreeReads.InsertRefines` | common/src/tree.c:93-123 | if the parent pointers that the fixup reads are truthful, an insertion as written ends with the tree that insertion on the shape yields; if all were truthful before, exactly when they still are |
| `TreeOrder.TurnRightTree` | common/src/tree.c:22-38 | on any memory that holds a tree of all its nodes, it holds one after `right_rotate`, of the same nodes in the same order, exactly if the parent pointer of the node leads to its parent, or is null at the root |
| `TreeOrder.TurnLeftTree` | common/src/tree.c:40-57 | likewise for `left_rotate` |
| `TreeOrder.FixKeeps` | common/src/tree.c:68-91 | the loop holds a tree after every rotation exactly if every rotation is at such a node; then nodes and order stay, and if it ends the root is black |
| `TreeOrder.InsertKeeps` | common/src/tree.c:93-123 | likewise for an insertion into any search tree, whatever its parent pointers are; if it ends, it ends with a search tree that has the new key |
| `TreeRuns.RunRefines` | common/src/tree.c:93-123 | a run of insertions, each of which reads truthful parent pointers only, ends with the tree that the run on shapes yields, also past stale pointers |
| `TreeRuns.RunKeeps` | common/src/tree.c:93-123 | a run from the empty tree holds a tree after every rotation exactly if every rotation is at a node that its parent pointer names; if it ends, it ends with a search tree that has one node for each key inserted |
| `TreeRuns.RunFinds` | common/src/tree.c:93-142 | after such a run that ends, a search finds a node exactly for the keys inserted, and one of those inserted with the key |
| `TreeRuns.PassableSteady` | common/src/tree.c:93-123 | a run that reads truthful parent pointers only is such a run, and ends |
| `TreeRuns.HarmlessRun` | common/src/tree.c:93-123 | a run of which all but the last are known to rotate around empty subtrees only ends, and leaves all parent pointers truthful exactly if the last one is such an insertion too |
| `TreeRuns.HarmlessAlways` | common/src/tree.c:93-123 | in any run all parent pointers are truthful after every insertion exactly if none rotates around a non-empty subtree |
| `RedBlack.FixBalances` | common/src/tree.c:68-91 | from a red-black tree with one red node hung in, the fixup ends with a red-black tree exactly if no iteration double-rotates a black node |
| `RedBlack.InsertionBalances` | common/src/tree.c:93-123 | an insertion leaves a red-black tree a red-black tree exactly if `KeepsBalance` held before it |
| `RedBlack.RunBalances` | common/src/tree.c:93-123 | in a run of insertions on shapes the tree is a red-black tree at every moment exactly if that held before each of them; the shapes are those of the code with the repair, and as written along the runs of `TreeRuns.RunRefines` |
| `Dictionary.Dict.RightRotate` | common/src/tree.c:22-38 | does on the heap what the program does on the memory, on any memory |
| `Dictionary.Dict.LeftRotate` | common/src/tree.c:40-57 | likewise |
| `Dictionary.Dict.FixIteration` | common/src/tree.c:70-88 | one iteration on the heap is one of the program, wherever that has a result |
| `Dictionary.Dict.FixAfterInsert` | common/src/tree.c:68-91 | the loop on the heap is that of the program, wherever that ends |
| `Dictionary.Dict.Descend` | common/src/tree.c:99-113 | the search for the slot ends where that of the program ends |
| `Dictionary.Dict.LinkIntoTree` | common/src/tree.c:114-122 | a new node is hung into its slot and the fixup follows, on any memory |
| `Dictionary.Dict.InsertIntoTree` | common/src/tree.c:93-123 | an insertion on any memory: the program's pointers, a new node only if the search finds none, else its value |
| `Dictionary.Dict.InsertAnywhere` | common/src/tree.c:93-123 | whatever becomes of the tree, one ring holds every linked node once, the new one behind the node below which it was hung |
| `Dictionary.Dict.LinkIntoRing` | common/src/tree.c:117-121 | the node joins the ring behind its parent, or starts it |
| `Dictionary.Dict.InsertTreeNode` | common/src/tree.c:93-123 | if it ends and rotates at nodes only that their parent pointers name, or with the repair, refines map update; tree, ring and node set stay in agreement; if all parent pointers were truthful before, exactly when they still are |
| `Dictionary.Dict.FindTreeNode` | common/src/tree.c:129-142 | the search on any memory answers what that of the program answers |
| `Dictionary.Dict.FindMeans` | common/src/tree.c:129-142 | in a dictionary that is in order that is the node which holds the key in the map, or null |
| `Dictionary.Dict.constructor` | common/src/tree.c:144-148 | an empty dictionary |
| `Dictionary.Dict.DictHas` | common/src/tree.c:157-160 | whether the key is in the map |
| `Dictionary.Dict.DictSet` | common/src/tree.c:162-171 | the map updated at the key, the invariant kept, `size` untouched |
| `Dictionary.Dict.DictGet` | common/src/tree.c:173-182 | the value in the map, or the failure code |
| `Dictionary.Dict.TreeForeach` | common/include/tree.h:77 | from any node, visits every node of the tree exactly once, whichever node is the root |
| `Dictionary.Run` | common/src/tree.c:144-182 | after any sequence of `dict_set` on the repaired dictionary all parent pointers are truthful and lookups see the last value written per key |
| `Dictionary.ReplayLast` | common/src/tree.c:162-182 | what the sequence of writes stands for: per key the last value written, no other keys |
| `DictionaryRuns.InsertAll` | common/src/tree.c:93-123 | as written, a run of insertions into an empty dictionary that ends and rotates at nodes only that their parent pointers name holds the map of its writes |
| `DictionaryRuns.InsertHarmless` | common/src/tree.c:93-123 | as written, in such a run all parent pointers are truthful all the time exactly if none of its rotations moves a non-empty subtree; if only the last insertion is in doubt, they are so in the end exactly if it has no such rotation |
| `TreeFixup.HarmlessPrefix` | common/src/tree.c:93-123 | a run without such a rotation has none in any of its beginnings |
| `SampleRuns.EightInsertions` | common/src/tree.c:22-57 | of eight rising keys the first seven do no harm, and the eighth insertion rotates around a non-empty subtree |
| `SampleRuns.InsertEight` | common/src/tree.c:22-57 | on the heap such a run ends with a dictionary that is a map still but has a stale parent pointer |
| `SampleRuns.NineRising` | common/src/tree.c:22-57 | the fixup of the ninth of nine rising keys reads no stale pointer, while there is one |
| `SampleRuns.InsertNine` | common/src/tree.c:22-57 | on the heap that run still ends with the map of its writes |
| `SampleRuns.NineInsertions` | common/src/tree.c:69-89 | nine keys in an order after which the tree is not a red-black tree, while it was one after eight |
| `LostKeys.TenInsertions` | common/src/tree.c:22-123 | ten keys in an order after which six of them are not found; five of these were found after nine insertions, the sixth is the tenth itself |
| `LostKeys.LoseKeys` | common/src/tree.c:22-142 | the same on the heap, with the search before and after the tenth insertion |
| `NullRun.NineFollowNull` | common/src/tree.c:22-91 | nine keys in an order in which eight insertions end with a search tree, though the eighth reads a stale pointer, and the fixup of the ninth follows a null pointer, though every rotation is at a node that its parent pointer names |
| `StringUtils.StrCrlf` | common/src/string_utils.c:39-56 | the first CRLF whose run of carriage returns is odd, or none if there is none |
| `StringUtils.CrlfIsFirst` | common/src/string_utils.c:39-56 | on strings without doubled carriage returns that is the first CRLF |
| `StringUtils.CrlfIsFirstIff` | common/src/string_utils.c:39-56 | in general it is the first CRLF exactly if there is none or its run of carriage returns is odd |
| `StringUtils.StrTrim` | common/src/string_utils.c:8-21 | cuts the buffer in place so that the text at the returned offset is the old one without surrounding white space |
| `StringUtils.TrimUnique` | common/src/string_utils.c:8-21 | there is one way to trim a string |
| `StringUtils.TrimAround` | common/src/string_utils.c:8-21 | what is left of a string is what stands between blanks, tabs, CR, LF, vertical tabs and form feeds |
| `StringUtils.StrStartsWith` | common/src/string_utils.c:23-37 | whether the prefix matches character by character, in any case if asked |
| `StringUtils.StartsWithMeans` | common/src/string_utils.c:23-37 | to ignore case is to accept each letter of the prefix in either case, and nothing else |
| `StringUtils.StrCat` | server/src/server.c:201-207 | appends a string to the text in a buffer |
| `MailGrammar.DomainMeans` | server/src/smtp.c:14-15 | the recogniser accepts exactly dot-separated non-empty atoms |
| `MailGrammar.MailMeans` | server/src/smtp.c:16 | the recogniser accepts exactly domain@domain |
| `MailGrammar.AtomCharMeans` | server/src/smtp.c:14 | the characters of an atom are digits, letters, the hyphen and the backslash |
| `MailGrammar.ArgumentMeans` | server/src/smtp.c:75-102 | the captured group is the one address that stands between the command word and a `>` |
| `MailGrammar.MailFromMeans` | server/src/smtp.c:75-97 | a sender is read exactly from `MAIL FROM:<`, in any case, an address and `>`, whatever follows |
| `MailGrammar.RcptToMeans` | server/src/smtp.c:99-126 | a recipient exactly from `RCPT TO:<`, in any case, an address and `>`, when nothing follows |
| `SmtpCommands.ParseWords` | server/src/smtp.c:222-238 | every spelling of a command word in either case is that command, and only it; DATA, RSET and QUIT are exact when they stand alone |
| `SmtpCommands.LineRead` | server/src/smtp.c:221 | white space around a command is not read |
| `Lines.Grown` | server/src/smtp.c:109-118 | a ring that takes in a new line leaves the other two alone, and all lines stay on exactly one ring |
| `Lines.Freed` | server/src/smtp.c:30-51 | freeing one ring leaves the other two alone |
| `Smtp.Session.FreeSmtpLines` | server/src/smtp.c:18-28 | terminates, frees exactly the lines of the ring, each once, and reads no link of a freed line |
| `Smtp.Session.BufferReset` | server/src/smtp.c:45-51 | the unfinished command is dropped and its lines freed; state and envelope stay |
| `Smtp.Session.EnvelopeFree` | server/src/smtp.c:30-43 | the envelope is empty and no line is left allocated |
| `Smtp.Session.SessionReset` | server/src/smtp.c:53-57 | new state, empty envelope, empty buffer, no line allocated |
| `Smtp.Session.SmtpStartSession` | server/src/smtp.c:59-63 | the session starts empty with the greeting 220 |
| `Smtp.Session.SmtpEhlo` | server/src/smtp.c:69-73 | resets to ESTABLISHED with 250 |
| `Smtp.Session.SmtpMail` | server/src/smtp.c:75-97 | 500 outside the grammar, 503 outside ESTABLISHED (in this order), else the sender is set |
| `Smtp.Session.SmtpRcpt` | server/src/smtp.c:99-126 | 500, 503 outside MAIL_RCPT, else the recipient joins its ring behind the head |
| `Smtp.Session.SmtpData` | server/src/smtp.c:128-141 | 500, 503 outside MAIL_RCPT, else MAIL_DATA with 354 |
| `Smtp.Session.SmtpReadData` | server/src/smtp.c:162-188 | a single dot completes the envelope and resets; any other line joins the data ring and leaves the reply buffer alone |
| `Smtp.Session.SmtpReset` | server/src/smtp.c:190-200 | 500, or nothing stays allocated, the envelope is empty and the state is INITIAL exactly if it was |
| `Smtp.Session.SmtpQuit` | server/src/smtp.c:202-212 | 500 or a reset with 221, negative either way; no line stays allocated exactly if the word was QUIT alone or none was stored |
| `Smtp.Session.SmtpProcessCommand` | server/src/smtp.c:216-240 | the heap session does what the command does to state and envelope; the buffer is empty afterwards; live lines are exactly those on the three rings |
| `Smtp.Session.AddFragment` | server/src/server.c:186-194 | a piece without a line end joins the buffer at its tail and counts into `buffer_size` |
| `SmtpRuns.StoredOrder` | server/src/smtp.c:114-118 | after lines l1..ln a ring reads l1, ln, .., l2 |
| `SmtpRuns.StoredSame` | server/src/smtp.c:177-181 | that order is a permutation of the lines |
| `SmtpRuns.RunCoherent` | server/src/smtp.c:69-240 | after every sequence of lines: INITIAL and ESTABLISHED go with an empty envelope, MAIL_RCPT with a sender and no data, MAIL_DATA with a sender |
| `SmtpRuns.ClosingLeaves` | server/src/smtp.c:202-212 | after every sequence of lines a closing command leaves stored lines behind exactly if it is malformed and there are recipients |
| `SmtpRuns.ErrorKeeps` | server/src/smtp.c:69-240 | a 5xx reply leaves state and envelope unchanged |
| `SmtpRuns.ErrorIff` | server/src/smtp.c:69-240 | after every sequence of lines a command that does not start anew is answered by a 5xx exactly if it changes nothing |
| `SmtpRuns.Restarts` | server/src/smtp.c:190-212 | after EHLO, HELO, an exact RSET or an exact QUIT the envelope is empty; the state is INITIAL after QUIT, and after RSET if it was before, and else ESTABLISHED |
| `SmtpRuns.InSequence` | server/src/smtp.c:69-141 | a command is accepted exactly if it is well-formed and the protocol allows it: MAIL in ESTABLISHED, RCPT and DATA in MAIL_RCPT, the restarting ones always |
| `SmtpRuns.Codes` | server/src/smtp.c:69-240 | 354 goes with MAIL_DATA, 221 with an exact QUIT, 502 with VRFY, and 503 exactly with what is refused here and accepted after other lines |
| `SmtpRuns.ClosesOn` | server/src/smtp.c:202-212 | after every sequence of lines the connection is closed exactly by what begins like QUIT and is not data |
| `SmtpRuns.History` | server/src/smtp.c:69-240 | after every sequence of lines the envelope is explained by them: data is read only after EHLO or HELO, MAIL and DATA in this order, no greeting, exact RSET or exact QUIT stands between MAIL and DATA, and the envelope is that sender, the recipients accepted in between and all lines since |
| `SmtpRuns.SavedAre` | server/src/smtp.c:162-188 | over every sequence of lines the envelopes saved are those held before each final dot, in order, and no others |
| `SmtpRuns.SavedExplained` | server/src/smtp.c:162-188 | so each of them is explained by the lines before its dot, which is answered 250 and leaves an empty envelope |
| `Framing.FeedAllGlue` | server/src/server.c:170-210 | for every division into chunks the commands with their line ends and the remainder are the stream |
| `Framing.Chunking` | server/src/server.c:170-210 | the commands are the CRLF split of the stream exactly if no chunk boundary severs a CR from its LF and every CRLF has, counted inside its chunk, an odd run of carriage returns |
| `Framing.SingleLossFree` | server/src/server.c:170-210 | in a stream without doubled carriage returns only the severed line ends count |
| `Framing.SplitUnique` | server/src/server.c:170-210 | a stream has one CRLF split |
| `Framing.ChunkingIndependent` | server/src/server.c:170-210 | two harmless divisions of a stream yield the same commands and the same remainder |
| `Server.AssembleCommand` | server/src/server.c:198-207 | the buffered pieces and the new one fill the allocation of `command_size` + 1 exactly |
| `Server.HandleChunk` | server/src/server.c:159-228 | a chunk is cut into commands, each is processed and answered, the rest is buffered; a freed session is never used |
| `SmtpRuns.ChunksAreCommands` | server/src/server.c:159-228 | state, remainder and completed envelopes depend on the commands only, not on how they were spread over chunks |
| `SmtpRuns.ServeStream` | server/src/server.c:101-228 | a session from its first chunk to its last; lines stay owned by exactly one ring |
| `ClientFsm.AdvanceMeans` | client/src/client-fsm.c:81-172 | what a raised event does: the next piece, or S_ERROR, or FINISH with a frozen queue, or the end of the process |
| `ClientFsm.ConversePrefix` | client/src/client_fsm_handlers.c:10-129 | over every run of raised events the bytes queued are the first k pieces of EHLO, MAIL, RCPT, DATA, body, QUIT, k being fixed by the state while the dialogue lasts; S_MAIL is never reached |
| `ClientFsm.HaltsWhen` | client/src/client-fsm.c:156-162 | the process exits exactly in FINISH on an event other than CONNECTION_LOST |
| `ClientFsm.QueueGrows` | client/src/client_fsm_handlers.c:10-129 | an earlier queue is a prefix of every later one |
| `ClientFsm.Talking` | client/src/client-fsm.c:81-172 | as long as every event is an OK with something to say, the client is as many pieces into the dialogue as there were events |
| `ClientFsm.Ending` | client/src/client-fsm.c:81-172 | over every run the first other event decides: BAD, ERROR or an OK for a letter without text end in S_ERROR for good; a lost connection or the OK to QUIT in FINISH, where any event but a lost connection ends the process |
| `ClientFsm.RunningIff` | client/src/client.c:307-317 | so a connection counts as running exactly as long as no such event has come |
| `Connections.ConcatDynamicStrings` | common/src/shared_strings.c:8-22 | a fresh buffer with the first bytes of both strings |
| `Connections.ConcatMailText` | client/src/client_fsm_handlers.c:131-138 | the lines in one buffer, null exactly for a text without lines |
| `Connections.Connection.HandleConnect` | client/src/client_fsm_handlers.c:10-25 | queues the EHLO line |
| `Connections.Connection.HandleEhlo` | client/src/client_fsm_handlers.c:27-42 | queues the MAIL line |
| `Connections.Connection.HandleMf` | client/src/client_fsm_handlers.c:75-90 | queues the RCPT line |
| `Connections.Connection.HandleRt` | client/src/client_fsm_handlers.c:92-106 | queues the DATA line |
| `Connections.Connection.HandleData` | client/src/client_fsm_handlers.c:108-129 | queues the text and the final dot, or turns to S_ERROR without a text |
| `Connections.Connection.HandleQuit` | client/src/client_fsm_handlers.c:44-57 | queues the QUIT line |
| `Connections.Connection.ClientFsmStep` | client/src/client-fsm.c:240-343 | the object follows the table; whatever is queued puts its socket into the write set |
| `Connections.Connection.ConnWrite` | client/src/client.c:432-452 | `send` takes the front of the queue, the rest moves up |
| `Connections.Connection.ProcessConnWrite` | client/src/client.c:378-389 | as above, or the event ERROR, which turns a dialogue to S_ERROR |
| `Connections.Connection.Conserved` | client/src/client.c:416-452 | wire and queue make up everything enqueued, with `sended` + `to_send` its length; likewise inbound |
| `Connections.Connection.ConnRead` | client/src/client.c:416-430 | delivered bytes join the receive buffer |
| `Connections.Connection.TryParseMessagePart` | client/src/parser.c:465-506 | the first line leaves the buffer, or there is none |
| `Connections.Connection.ReadReply` | client/src/client.c:341-374 | terminates and takes one reply from the buffer, losing no byte |
| `Connections.Connection.ProcessConnRead` | client/src/client.c:332-376 | the machine takes at most one step for what was delivered; a failed `recv` turns a dialogue to S_ERROR, a closed connection to FINISH |
| `Replies.CodeClass` | client/src/client.c:391-414 | the code test amounts to three digits of which the first is 2 or 3 |
| `Replies.TakeReply` | client/src/client.c:341-374 | what is taken are whole lines up to the first CRLF each, all announcing another one except the last, which decides between OK and BAD |
| `Replies.ReadableIff` | client/src/parser.c:465-471 | the buffers the loop can read are those in which it meets a final line or runs out at a line end |
| `ClientLoop.GetActiveConnection` | client/src/client.c:296-305 | the first connection on the socket |
| `ClientLoop.CheckConnectionsForFinish` | client/src/client.c:307-317 | finished exactly if no connection is running |
| `ClientLoop.SetConnectionsNeedWrite` | client/src/client.c:319-330 | the write set is exactly the sockets of running connections with pending bytes |
| `Dialogue.TextLinesAre` | server/src/smtp.c:162-188 | the lines expected on the server are the CRLF split of the text |
| `Dialogue.PieceFramed` | client/src/client_fsm_handlers.c:10-129 | each piece of the dialogue is made of whole lines |
| `Dialogue.GroupServe` | server/src/smtp.c:216-240 | the lines of a piece, from any of them to any other, do to the session what is told for the piece: silence until the last line, which brings its answer |
| `Dialogue.FeedWithin` | server/src/server.c:170-210 | any chunk of a piece yields the next lines of that piece, all of them exactly if it is the rest |
| `Composition.NextInv` | client/src/client.c:165-237 | every step of the joint system keeps its invariant and uses up energy until the client has finished |
| `Composition.Outcome` | server/src/smtp.c:162-188 | in every reachable state the server has saved nothing or exactly the envelope sent (sender, the one recipient, the lines of the text in ring order), the client has met no error, and a finished client means a saved envelope and quiet channels |
| `Composition.FirstEnvelope` | server/src/smtp.c:162-188 | for a letter with any lines the first envelope saved is the one sent exactly if no line of the text is a single dot; otherwise its data ends before the first such line |
| `Composition.Progress` | client/src/client.c:165-237 | short of the end some step is always possible |
| `Composition.Termination` | client/src/client.c:165-237 | a run that has not finished is bounded by three times the bytes of the dialogue; nothing changes any more exactly when the client has finished |
| `Pairs.Pair.ClientWrites` | client/src/client.c:378-389 | the connection object takes the joint step of a partial send |
| `Pairs.Pair.ServerServes` | server/src/server.c:159-228 | the session object takes the joint step of reading a chunk |
| `Pairs.Pair.ClientHears` | client/src/client.c:332-376 | the connection object takes the joint step of reading replies |
| `Pairs.Pair.ClientMisses` | client/src/client.c:332-342 | the connection object takes the joint step of finding the connection closed |
| `Batch.BatchFilesForProcesses` | client/src/client.c:23-76 | the ranges handed out are consecutive, non-empty and at most ceil(n/k) long, cover 0..n-1 if no fork fails, and are at most k, so `pids` is never overrun |
| `Batch.ExactlyOnce` | client/src/client.c:35-63 | then every file is in some range and no file is in two |
| `Recipients.CutWritten` | client/src/parser.c:427-463 | address and host cut out of a line are those written into it |
| `Recipients.GetAddressFromReciever` | client/src/parser.c:327-368 | 127.0.0.1 and 3001 for alfabank.com in home mode, "home" for it otherwise; for any other host the address of its mail exchanger and 25, or none exactly if one of two queries fails |
| `Recipients.GetRecieversFromHosts` | client/src/parser.c:297-325 | addresses and ports in host order without those answered "home", null exactly if a lookup fails |
| `Recipients.CollectRaws` | client/src/parser.c:115-125 | the lines up to the first blank one |
| `Recipients.SortOut` | client/src/parser.c:149-194 | recipients and hosts in file order, those at home left out unless in home mode |
| `Recipients.ParseMail` | client/src/parser.c:104-274 | sender, recipients, hosts, ports and text of a mail file; none exactly if it is too short or a lookup fails |
| `Recipients.AlignedIff` | client/src/parser.c:297-325 | hosts and ports are in line with the recipients exactly if no lookup answers "home" |
| `Recipients.HomeFiltered` | client/src/parser.c:185-192 | which only a DNS answer can bring about, as recipients at home have been left out |
| `Recipients.CountMailsConnections` | client/src/client.c:288-294 | the sum of the numbers of recipients |
| `Recipients.InitConnections` | client/src/client.c:245-268 | connection number (recipients of the mails before) + b has recipient b of its mail, host b, port b, and the mail's sender and text; the count is filled exactly |
| `Recipients.InitConnection` | client/src/smtp_conn.c:12-33 | sender, recipient, host, port and text of recipient `to_num` |
| `Recipients.EachConnection` | client/src/client.c:288-294 | every connection number belongs to one recipient of one mail |
| `Delivery.NamesCut` | client/src/parser.c:427-463 | a line names exactly one address, between the first `<` and the last `>`, and one host, behind its first `@`: those cut out |
| `Delivery.RecieverAt` | client/src/parser.c:149-194 | the recipient of a line that is wanted (home mode, or a host other than alfabank.com) stands behind those of the wanted lines before it |
| `Delivery.FoundIff` | client/src/parser.c:297-368 | all lookups succeed exactly if for every host named, other than alfabank.com, both DNS queries do |
| `Delivery.ParsedLine` | client/src/parser.c:104-274 | in a parsed mail each wanted line has its recipient in that place, and its server in the same place moved up by the lines for which the DNS said "home": 127.0.0.1 and 3001 for alfabank.com, for others the mail exchanger's address and 25 |
| `Delivery.ParsedCount` | client/src/parser.c:149-194 | it has as many recipients as there are wanted lines |
| `Delivery.PlacedWanted` | client/src/parser.c:312-313 | without such an answer nothing is moved up |
| `Delivery.ConnectionDelivers` | client/src/client.c:245-268 | the connection for a wanted line has its recipient, the sender and text of its file and, without such an answer, the server of its own host |
| `Delivery.ProcessMailFiles` | client/src/client.c:78-141 | connections are made exactly if every file can be read, has three lines and names only hosts that are found; then they are one for each wanted line of each file, in file order, each with its recipient and the server of that recipient's host |

## Left out

- Dictionary.Run: proved for the repaired rotations; for those of the source see `DictionaryRuns.InsertAll`, since without a condition it is false (`LostKeys.TenInsertions`, `NullRun.NineFollowNull`).
- DictionaryRuns.InsertAll: once a rotation has torn the tree no theorem says what the map is; `Dictionary.Dict.InsertAnywhere` still says what the pointers and the ring are.
- Dictionary.Dict.DictSet: as written, the condition is that the pointers which the fixup reads are truthful, as it has to be told before the node exists; the exact one is that of `Dictionary.Dict.InsertTreeNode`.
- `delete_tree_node` and `dict_t.size`: empty, and never updated; `dict_free` only frees.
- The order of ring and fixup in `insert_tree_node`: the model links the ring last, which is the same, as neither touches the other's fields.
- The steps of several clients against one server, and of several connections in one process: one connection and one session are composed; `ClientLoop` has the tests over all connections.
- Smtp.Session.SmtpReadData: envelopes are not written out, because `envelope_save` returns before its loop; the envelope is recorded as complete instead.
- Server.HandleChunk: a chunk is a value; the limit of 1024 bytes enters only in the composed system. Bytes behind a closing command in the same chunk are excluded, because there the code goes on with a session it has freed.
- SmtpRuns.ServeStream: streams with bytes behind a closing command are excluded for the same reason.
- Connections.Connection.ReadReply: buffers that stop within a line are excluded, because there the code uses a message that does not exist.
- Connections.Connection.ProcessConnRead: likewise; and the step of the machine comes after the reading loop, not inside it, where the loop ends in the source too.
- Recipients.ParseMail: files whose header lacks brackets, an `@`, a blank line, or has 16 or more recipients are excluded, because the code reads outside of its arrays there.
- Delivery.ProcessMailFiles: the same files are excluded; it stops before the connections are started, and where the DNS answers "home" nothing is said of hosts and ports but what `Delivery.ParsedLine` and `Recipients.AlignedIff` say.
- Sockets, `select`, `fork`, `waitpid`, signals, DNS, clocks, files and logging: their results are parameters.
- Regular expressions: replaced by a recogniser for the same grammar.
- Allocation failures and the pool and linear allocators behind `MODIFY` and `MODIFY2`.
