# Verified models of YARP1

This project models the self-contained algorithms and thread protocols of YARP1, an
inter-process port library for robots with an image and a maths library, and proves what
they are for. Code that changes things in place is a class or a method over arrays, proved
against functions on values; what the code promises is then proved about those functions,
for all inputs, runs or reachable states.

- **Linear solver** (`LinearAlgebra`, `Pivoting`, `PivotSign`, `LUDecomposition`,
  `LUSolution`, `LUTheorems`, `LinearSystem`). Crout factorisation in place with implicit
  scaled pivoting, and permuting, forward and back substitution, over exact reals.
  `replaced` is the set of columns whose zero pivot was replaced by TINY.
- **Mesh** (`Sequences`, `IntrusiveLists`, `MeshLinks`, `MeshComponent`, `MeshRuns`,
  `MeshText`, `MeshLabels`). Links on the heap, each in up to three intrusive doubly linked lists. The ghost arguments `s`
  and `ms` are the live links and the meshes, and `Orders` gives the sequence every list
  spells out; `Valid` says that all pointers agree with them. Marking, pruning, clearing,
  labels, and the concise text form.
- **Port buffers** (`PortBuffers`, `PortInvariants`, `PortDelivery`, `Ports`). The port
  thread and the reader rotate one, two or three buffers through three slots. Each section
  under the mutex, and each taking of a semaphore token, is one step; a run is any sequence
  of enabled steps of the two threads.
- **Input socket** (`Listeners`, `Rendezvous`, `RendezvousTheorems`, `SocketThreads`,
  `SocketPool`). Any number of TCP listeners and one consumer meet through four kinds of
  semaphores, with and without acknowledgments, and count the bytes each connection can
  receive; and the list of connections with its pool of port numbers.
- **Messages** (`Framing`, `FrameLayout`, `BlockTransfer`, `MessageExchange`, `ByteRendezvous`). Multipart
  messages and their answers over reliable streams of bytes; a sender and a receiver waiting
  for each other; and what a consumer that begins messages and reads on by way of the input
  socket obtains.
- **Shared image buffers** (`RowPadding`, `ImageBuffers`, `ImageSharing`, `ImageRuns`,
  `ImageEffects`, `Images`). Any number of images share pixel buffers, row tables and reference counters.
- **Convolution** (`Convolution`, `ConvolutionLoops`, `SharedPixels`, `SeparableLoops`).
  Direct and separable convolution over exact reals and unpadded rows, with the scratch array.
- **Image files** (`NetpbmText`, `HeaderGrammar`, `ImageFile`) and the **line reader** of the name client
  (`LineReader`).

Where the code does not do what one would expect, it is kept as it is:

- With an all-zero row `LU` stops at an assertion, so that is required not to happen; a
  singular matrix is factored with TINY in place of a zero pivot, and `ReplacedIffSingular`
  says that this happens exactly for singular matrices.
- A program that mixes blocking and polling reads can get an old message back
  (`MixedReadsCanGoBack`); a read returns the newest message exactly if the input flag is
  set when it goes through (`FreshIffInput`).
- Referring to an image keeps the counts right exactly if the source is another image and
  has pixels (`ReferKeepsIff`). After a call with another source some run leaves pixels behind
  that nobody releases, after a right one none does (`ReferLeaksIff`); whole runs from nothing
  are in `ReferCanLeak` and `SelfReferCanLeak`.
- A receiver begins a message with a receive of no bytes, which waits for one more byte. So a
  message whose blocks are all empty is begun only when more is sent after it (`BegunIff`),
  and with acknowledgments, where the sender waits for the answer first, never: a sequence of
  messages gets through if and only if none is empty with acknowledgments, or the last one is
  not empty without them (`ExchangeIff`, `ExchangeEnds`). The same holds at a listener that
  is asked for no bytes (`RendezvousEnds`, `WaitsForPeer`), among any number of listeners
  (`ReadIffFramed`, `MessageObtained`).
- Reads alone take a message off the stream exactly if they ask for at least one byte
  (`TakenOffIffNotEmpty`).
- `Prune` resets only the ids of its own links, so links of other meshes that still have the
  id 1, as from a call before, stop the marking. The component stays whole if and only if every
  link of this mesh in it can be walked to without touching such a link (`ComponentKeptIff`,
  `SparedIff`). `PruneTwice` is an input where it does not: of three links in a row, the middle
  one of another mesh, the first call keeps all and the same call again deletes the last.
- A call that reads a line can return nothing although the line is there. It returns the line
  if and only if the line end comes no later than the receive call that brings the first
  carriage return (`ReturnedIff`); that is so however the bytes come if and only if the line end
  is buffered already or there is no carriage return in the line (`AlwaysReturnedIff`).
  `EndComesLate` is an input where nothing is returned. Asked again, it returns the line
  (`ReceiveLine`).
- Given one image twice, direct convolution goes through the scratch array. With two images
  that share their pixels it does not, and overwrites what it may still need; the result is
  right for every image if and only if the kernel, which the loops go through backwards, has
  no weight after its centre, but for those that never reach from one inner pixel to another
  (`SharedRightIff`).
- The separable convolution without a kernel for the rows never looks at its source, and the
  direct one in place overwrites the border with what its scratch array contains; both are
  part of the contracts of `ConvolveSep2D` and `Convolve2D`.
- Resizing a colour image with padded rows to the size it has recreates it all the same:
  the size test of `Resize` pads pixels where the header pads bytes (`ResizeSameIff`). An
  image one pixel wide is an input (`ResizeSameLoses`). An image can also keep its old pixel
  type (`TypeMayStay`), but never its old size (`ResizeShows`).

## Model

| member | source | states |
|---|---|---|
| LUDecomposition.LU | src/libYARP_math/src/YARPLU.cpp:61-122 | the packed factors multiply to the rows of the matrix permuted by the recorded swaps, plus TINY on the diagonal for the replaced columns; every multiplier obeys the scaled pivot bound; the swaps are valid and d is their sign |
| LUDecomposition.RowScales | src/libYARP_math/src/YARPLU.cpp:71-80 | the reciprocal of the largest magnitude of every row |
| LUDecomposition.FactorColumn | src/libYARP_math/src/YARPLU.cpp:84-120 | one turn of the main loop leaves one more column factored for the matrix with the pivot rows exchanged |
| LUDecomposition.EliminateBelow | src/libYARP_math/src/YARPLU.cpp:91-102 | the column is reduced from the diagonal down and the chosen row is the last with the largest weighted magnitude |
| LUDecomposition.PivotOutweighs | src/libYARP_math/src/YARPLU.cpp:97-101 | no row of the column, times its weight and with either sign, exceeds the chosen one, and none after it equals that |
| LUDecomposition.FactorsBounded | src/libYARP_math/src/YARPLU.cpp:71-114 | with s the largest magnitude of each row, either sign of a multiplier times the s of its column's row is at most the s of its own |
| LUDecomposition.TurnFactors | src/libYARP_math/src/YARPLU.cpp:82-121 | elimination, row exchange and scaling together keep the columns done and complete the next |
| LUDecomposition.AllColumnsFactored | src/libYARP_math/src/YARPLU.cpp:82-121 | columns factored one by one make up a factorisation of the whole matrix |
| Pivoting.SwappedMatVec | src/libYARP_math/src/YARPLU.cpp:103-114 | applying the recorded swaps to the rows of a matrix and to its product with a vector is the same |
| Pivoting.SwappedIsPermutation | src/libYARP_math/src/YARPLU.cpp:103-114 | recorded swaps only rearrange |
| PivotSign.SignOfPermutation | src/libYARP_math/src/YARPLU.cpp:103-113 | the sign kept by flipping d is that of the permutation, by its number of inversions |
| PivotSign.SwapsArePermutation | src/libYARP_math/src/YARPLU.cpp:103-114 | all the swaps together put the rows in the order of one permutation, whose sign is d |
| LUSolution.LuSolve | src/libYARP_math/src/YARPLU.cpp:129-156 | the result x satisfies L (U x) = b with the recorded swaps applied |
| LUSolution.Forward | src/libYARP_math/src/YARPLU.cpp:136-147 | interleaving the swaps with forward substitution and skipping leading zeros leaves the solution of the unit lower triangular system for the permuted right-hand side |
| LUSolution.Back | src/libYARP_math/src/YARPLU.cpp:149-155 | back substitution solves the upper triangular system |
| LUTheorems.Solves | src/libYARP_math/src/YARPLU.cpp:129-156 | when no pivot was replaced the x found satisfies A x = b for the original A and b |
| LUTheorems.ReplacedSingular | src/libYARP_math/src/YARPLU.cpp:115-115 | the first column whose pivot is replaced gives a nonzero vector that A takes to zero |
| LUTheorems.ReplacedIffSingular | src/libYARP_math/src/YARPLU.cpp:115-115 | a pivot is replaced if and only if A is singular |
| LUTheorems.SolvesNonsingular | src/libYARP_math/src/YARPLU.cpp:61-156 | factoring and solving answers A x = b for every nonsingular A and every b |
| LUTheorems.FactorsPermutedRows | src/libYARP_math/src/YARPLU.cpp:61-122 | what LU returns, by one permutation of the rows: the factors multiply to the permuted matrix and d is the sign of the permutation |
| LinearSystem.SolveSystem | src/libYARP_math/src/YARPLU.cpp:61-156 | the copies of A and b are solved, A and b stay as they are, and the result solves the system when A is nonsingular |
| IntrusiveLists.UnlinkExact | src/libYARP_OS/src/mesh.cpp:186-195 | taking a link out from between its neighbours keeps every list exact, and takes it out of its own only |
| IntrusiveLists.PushFrontExact | src/libYARP_OS/src/mesh.cpp:196-204 | becoming the first of a list keeps every list exact |
| IntrusiveLists.PushBackExact | src/libYARP_OS/src/mesh.cpp:261-279 | becoming the last of a list keeps every list exact |
| IntrusiveLists.ClearedExact | src/libYARP_OS/src/mesh.cpp:312-324 | releasing a whole list from the front keeps the others exact |
| IntrusiveLists.NothingDangles | src/libYARP_OS/src/mesh.cpp:165-280 | in exact lists next and prev are inverse, and parents, neighbours and roots are still there |
| IntrusiveLists.DestroyExact | src/libYARP_OS/src/mesh.cpp:165-172 | when a link has let go of its children and left its list, the others form exact lists without it and keep their other ends |
| MeshLinks.MeshLink.SetSource | src/libYARP_OS/src/mesh.cpp:184-205 | the link leaves the list of its old source and is the first in that of the new one; all lists stay exact, those by destination and owner as they were |
| MeshLinks.MeshLink.SetDest | src/libYARP_OS/src/mesh.cpp:216-237 | the same for the destination |
| MeshLinks.MeshLink.SetOwner | src/libYARP_OS/src/mesh.cpp:249-280 | the link leaves its old mesh and is the last of the new one; the other lists are as they were |
| MeshLinks.MeshLink.RemoveAsSource | src/libYARP_OS/src/mesh.cpp:312-324 | every link that had this one as its source has none, and only those change |
| MeshLinks.MeshLink.RemoveAsDest | src/libYARP_OS/src/mesh.cpp:337-349 | the same for the destination |
| MeshLinks.MeshLink.Destroy | src/libYARP_OS/src/mesh.cpp:165-172 | after the destructor the remaining links form exact lists, keep their ends unless that was the dead link, and lists keep their order without it |
| MeshLinks.NobodyRefersTo | src/libYARP_OS/src/mesh.cpp:165-172 | no pointer of a live link or mesh leads to a link that is not live |
| MeshLinks.SourceListIsChildren | src/libYARP_OS/src/mesh.cpp:184-205 | walking from a link's source root visits exactly the links with that source, each once |
| MeshLinks.DestListIsChildren | src/libYARP_OS/src/mesh.cpp:216-237 | the same for destinations |
| MeshLinks.MeshLink.Mark | src/libYARP_OS/src/mesh.cpp:353-381 | terminates as unmarked links get fewer; marks only grow, never leave a closed set of links, and every newly marked link has all its neighbours marked |
| MeshComponent.ComponentIsLeast | src/libYARP_OS/src/mesh.cpp:353-381 | the connected component lies inside every closed set that contains its start |
| MeshComponent.SpreadIsReached | src/libYARP_OS/src/mesh.cpp:353-381 | marks that spread as Mark spreads them, some being there before, end up on those and exactly on what can be reached without passing through them |
| MeshComponent.AvoidingIff | src/libYARP_OS/src/mesh.cpp:719-746 | marks left over leave what is reached from a link as it is if and only if none of them is on a link connected to it |
| MeshComponent.ReachedIffWalk | src/libYARP_OS/src/mesh.cpp:353-381 | what is reached past marks left over is where a walk along ends leads that touches none of them |
| MeshComponent.SparedIff | src/libYARP_OS/src/mesh.cpp:734-745 | no link of this mesh that is connected is deleted if and only if each of them can be walked to without touching a mark left over |
| MeshComponent.ComponentKeptIff | src/libYARP_OS/src/mesh.cpp:719-746 | the whole component stays, every member with its ends and lists, if and only if every link of this mesh in it can be walked to without touching a mark left over |
| MeshComponent.LeftoverCutsOff | src/libYARP_OS/src/mesh.cpp:353-381 | of three links in a row all are connected, and with the id left over on the middle one only the first is reached |
| MeshRuns.PruneFirst | src/libYARP_OS/src/mesh.cpp:719-746 | the three links made, linked in a row, the middle one in another mesh: pruning from the first keeps all and leaves their ids at 1 |
| MeshRuns.PruneAgain | src/libYARP_OS/src/mesh.cpp:719-746 | the same call in that state deletes the last link, which is still connected |
| MeshRuns.PruneTwice | src/libYARP_OS/src/mesh.cpp:719-746 | the whole program from new meshes and links: after the first call all three are there and connected, after the second the last is gone |
| MeshLinks.Mesh.ResetAndMark | src/libYARP_OS/src/mesh.cpp:725-732 | afterwards the id of a link of this mesh is 0 exactly if the link cannot be reached from the given one without passing through links of other meshes that had the id 1 |
| MeshLinks.Mesh.Prune | src/libYARP_OS/src/mesh.cpp:719-746 | among any meshes, deletes exactly the links of this mesh that are not reached; all others keep their ends unless those are deleted, every list keeps its order without them, other meshes theirs; every id afterwards, with 1 on exactly the links left over and those reached; does nothing for a link of another mesh |
| MeshLinks.Mesh.Clear | src/libYARP_OS/src/mesh.cpp:702-716 | among any meshes, deletes exactly the links of this mesh, or none when clearing is off; all others keep their ends unless those are deleted, every list keeps its order without them, other meshes theirs |
| MeshLinks.Mesh.FindByLabel | src/libYARP_OS/src/mesh.cpp:429-449 | the first link of the mesh with that label, or none if no link has it |
| MeshLinks.Mesh.LabelledLink | src/libYARP_OS/src/mesh.cpp:505-524 | a link of that label, new only if there was none; labels stay unique; the sentinel gives no link |
| MeshLinks.Mesh.AddLink | src/libYARP_OS/src/mesh.cpp:466-492 | the label's link has the named source and destination, missing links are made, and no other label changes |
| MeshLinks.Mesh.Store | src/libYARP_OS/src/mesh.cpp:621-690 | the concise text has a line for every link, the last link first, and ends with the sentinel |
| MeshLinks.Mesh.Load | src/libYARP_OS/src/mesh.cpp:544-603 | adds exactly the rows of a concise text in turn |
| MeshText.RowsComeBack | src/libYARP_OS/src/mesh.cpp:556-600 | the text of rows of whitespace-free labels is read back as the same rows |
| MeshText.TextOfTwo | src/libYARP_OS/src/mesh.cpp:621-690 | a line is label, source and destination, each followed by a tab, and the sentinel ends the text |
| MeshText.RowAdded | src/libYARP_OS/src/mesh.cpp:466-492 | a row gives its label the ends it names, labels only mentioned get a link without ends, and no other label changes |
| MeshText.RowsTabulate | src/libYARP_OS/src/mesh.cpp:466-492 | adding rows with unique labels in turn, forward references included, gives exactly the table of the rows |
| MeshLabels.StoredIsLoaded | src/libYARP_OS/src/mesh.cpp:544-690 | what a mesh is stored as is loaded as the same labels with the same ends |
| MeshLinks.Mesh.StoreAndLoad | src/libYARP_OS/src/mesh.cpp:544-690 | storing a mesh and loading the text into an empty one gives the same labels with the same sources and destinations |
| Ports.Port.Register | src/libYARP_OS/src/YARPPort.cpp:584-597 | installs one, two or three different buffers by service type |
| Ports.Port.LookForSpace | src/libYARP_OS/src/Port.cpp:1279-1300 | the section that finds the incoming buffer or marks the port thread asleep |
| Ports.Port.Publish | src/libYARP_OS/src/Port.cpp:1312-1327 | the filled buffer and the latest one change places and a token is posted unless input was flagged |
| Ports.Port.Relinquish | src/libYARP_OS/src/Port.cpp:1582-1610 | the accessed buffer goes to the incoming place if free, else to the latest if free, and a sleeping port thread is woken |
| Ports.Port.AcquireLatest | src/libYARP_OS/src/Port.cpp:1560-1577 | the latest and the accessed buffer change places, the input flag is cleared, and a sleeping port thread is woken |
| PortInvariants.ShapeKept | src/libYARP_OS/src/Port.cpp:1275-1334 | every step of either thread keeps the places of buffers, flags, tokens and threads consistent |
| PortDelivery.BuffersAreSafe | src/libYARP_OS/src/Port.cpp:1275-1334 | in every reachable state the installed buffers are in the three slots, each in one; the reader's buffer is never the one being filled and keeps its message |
| PortDelivery.NeverBothStuck | src/libYARP_OS/src/Port.cpp:1541-1551 | the two threads are never both blocked without a token; without access and input the incoming slot is filled; a side whose condition has come true has a token |
| PortDelivery.ReadGoesThrough | src/libYARP_OS/src/Port.cpp:1537-1580 | once there is input a blocking read returns the newest message within three steps of its own |
| PortDelivery.FillingStarts | src/libYARP_OS/src/Port.cpp:1284-1300 | once the incoming buffer is free a sleeping port thread starts filling it within two steps of its own |
| PortDelivery.ReadWakes | src/libYARP_OS/src/Port.cpp:1568-1605 | giving back a buffer and taking one each wake a port thread that has gone to sleep, by one token |
| PortDelivery.FreshIffInput | src/libYARP_OS/src/Port.cpp:1563-1568 | a read returns the newest message, later than all before, if and only if input is flagged when it goes through; with reads of one kind it always is |
| PortDelivery.DeliversInOrder | src/libYARP_OS/src/YARPPort.cpp:600-610 | with reads all blocking or all polling the delivered messages are whole and strictly increasing |
| PortDelivery.OneBufferSkipsNothing | src/libYARP_OS/src/YARPPort.cpp:584-610 | at a port registered without further buffers the delivered sequence is the received one, but for at most its last message |
| PortDelivery.MixedReadsCanGoBack | src/libYARP_OS/src/Port.cpp:1544-1557 | with three buffers two blocking reads and a polling one can return messages 1, 2 and 1 |
| SocketThreads.SocketThread.TakeHeader | src/libYARP_OS/src/YARPSocketMulti.cpp:805-862 | a header is taken off the connection, its length kept and the old buffer forgotten |
| SocketThreads.SocketThread.DeclareDataAvailable | src/libYARP_OS/src/YARPSocketMulti.cpp:859-865 | the listener announces the message and posts one token of new data to its owner |
| SocketThreads.SocketThread.SetWaiting | src/libYARP_OS/src/YARPSocketMulti.cpp:867-868 | it is flagged as waiting only after the announcement |
| SocketThreads.SocketThread.TakeWakeup | src/libYARP_OS/src/YARPSocketMulti.cpp:869-869 | a wakeup leads on by what the thread waited for, and to the header again without a buffer |
| SocketThreads.SocketThread.DeclareDataWritten | src/libYARP_OS/src/YARPSocketMulti.cpp:880-892 | once the bytes are there they are taken and the consumer is told |
| SocketThreads.SocketThread.PostReceived | src/libYARP_OS/src/YARPSocketMulti.cpp:897-923 | once the further bytes are there, or a byte is when none are asked for, the consumer is told |
| SocketThreads.SocketThread.ChooseNext | src/libYARP_OS/src/YARPSocketMulti.cpp:897-934 | receive more if asked to, else reply if acknowledgments are required, else go on to the next header |
| SocketThreads.SocketThread.PostReplyMade | src/libYARP_OS/src/YARPSocketMulti.cpp:955-971 | the consumer is told that a part was sent; a first part is followed by a wait for the next |
| SocketThreads.SocketThread.Offer | src/libYARP_OS/src/YARPSocketMulti.cpp:3300-3319 | read hands its buffer and the room in it to a waiting listener, learns the announced length, and wakes it |
| SocketThreads.SocketThread.BeginReplying | src/libYARP_OS/src/YARPSocketMulti.cpp:3388-3409 | the first part of a reply is handed over and waited for only with acknowledgments |
| SocketThreads.SocketThread.Reply | src/libYARP_OS/src/YARPSocketMulti.cpp:3433-3455 | the last part likewise; the listener is woken in any case |
| SocketThreads.SocketThread.AskForMore | src/libYARP_OS/src/YARPSocketMulti.cpp:3480-3485 | a number of further bytes is asked for in the consumer's buffer |
| Rendezvous.ConsistentKept | src/libYARP_OS/src/YARPSocketMulti.cpp:797-973 | every step of any listener or of the consumer keeps the places, flags and tokens of all of them consistent |
| RendezvousTheorems.ReadFindsItsSource | src/libYARP_OS/src/YARPSocketMulti.cpp:3273-3343 | tokens of new data, with the one a running scan has taken, are as many as the announced messages; a scan finds one further on in the list |
| RendezvousTheorems.ScanEnds | src/libYARP_OS/src/YARPSocketMulti.cpp:3296-3333 | a scan reaches a listener to read from within two steps for every place left of the list, counting the step of a listener found announcing |
| RendezvousTheorems.OneSideAtATime | src/libYARP_OS/src/YARPSocketMulti.cpp:869-946 | a listener that uses the consumer's buffer is the one the consumer is blocked on, so only one side ever does |
| RendezvousTheorems.WaitAgreesWithPost | src/libYARP_OS/src/YARPSocketMulti.cpp:925-960 | a reply-made token is there at most once and only for the consumer waiting on that listener; replies are only sent to connections with acknowledgments, while the consumer waits |
| RendezvousTheorems.RendezvousEnds | src/libYARP_OS/src/YARPSocketMulti.cpp:867-973 | when the bytes its listener receives are there a waiting consumer can go on after at most five steps of that listener |
| RendezvousTheorems.WaitsForPeer | src/libYARP_OS/src/YARPSocketMulti.cpp:897-923 | when they are not the consumer stays blocked in every run in which that connection is sent nothing; with no bytes asked for one byte is still needed |
| RendezvousTheorems.WireIsWhatWasGiven | src/libYARP_OS/src/YARPSocketMulti.cpp:3388-3455 | in every run the peer is sent exactly the parts of replies the consumer gives while it serves that connection, in order, but for the last one still to go out, and nothing without acknowledgments |
| RendezvousTheorems.EveryMessageOnce | src/libYARP_OS/src/YARPSocketMulti.cpp:3273-3343 | the messages of each connection are read once each, in order, and at most one is unread |
| SocketPool.SocketList.AddSocket | src/libYARP_OS/src/YARPSocketMulti.cpp:3076-3163 | a connection gets the first free place and its port, or a new place and the next port; it is refused exactly when there is neither |
| SocketPool.SocketList.NewPortFromPool | src/libYARP_OS/src/YARPSocketMulti.cpp:373-383 | the next port of the pool, or 0 past its end |
| SocketPool.SocketList.CloseByName | src/libYARP_OS/src/YARPSocketMulti.cpp:3230-3254 | exactly the live connections of that name end, their places and ports kept for later |
| SocketPool.SocketList.Close | src/libYARP_OS/src/YARPSocketMulti.cpp:3202-3226 | the same for the connections with that identifier |
| SocketPool.SocketList.Leave | src/libYARP_OS/src/YARPSocketMulti.cpp:989-992 | a listener whose connection has broken frees its own place |
| SocketPool.PortsApart | src/libYARP_OS/src/YARPSocketMulti.cpp:3076-3254 | after any connects and disconnects live connections have different ports, all from the pool |
| SocketPool.EndedIffMeant | src/libYARP_OS/src/YARPSocketMulti.cpp:3202-3254 | an event frees the place of a live connection if and only if it closes its name, closes its identifier, or is its own thread leaving, and changes nothing else of it |
| SocketPool.KeepsItsPlace | src/libYARP_OS/src/YARPSocketMulti.cpp:3076-3254 | a live connection keeps place, port and name in every run without those three kinds of events, whoever else comes and goes |
| SocketPool.RefusedIffFull | src/libYARP_OS/src/YARPSocketMulti.cpp:3086-3126 | a connection is refused if and only if there are as many live ones as ports |
| SocketPool.PortsComeBack | src/libYARP_OS/src/YARPSocketMulti.cpp:3076-3254 | no port is ever lost: after any run, of the next attempts exactly as many are accepted as there are ports without a live connection |
| Framing.HeaderRoundTrip | src/libYARP_OS/include/yarp_private/Headers.h:49-114 | the length in a header of 8 bytes is read back |
| FrameLayout.HeaderBytes | src/libYARP_OS/include/yarp_private/Headers.h:49-114 | a header is the letters YA, four bytes of length with the low byte first, and the letters RP |
| FrameLayout.HeaderAccepted | src/libYARP_OS/include/yarp_private/Headers.h:93-109 | other letters make a bad header, and those with the four bytes the length they encode |
| Framing.PreambleTakenOff | src/libYARP_OS/src/YARPSocketSyncComm.cpp:122-145 | header, prefix and table are taken off the stream exactly, whatever follows |
| Framing.ReadsReturnAll | src/libYARP_OS/src/YARPSocketSyncComm.cpp:184-195 | reads whose lengths add up to the data return it in pieces and stop right behind it |
| Framing.BegunIff | src/libYARP_OS/src/YARPSocketSyncComm.cpp:122-145 | a message is begun if and only if it is not empty or more has been sent after it; then exactly its preamble is taken off |
| Framing.MessagesComeBack | src/libYARP_OS/src/YARPSocketSyncComm.cpp:122-195 | any sequence of multipart messages is read back as the concatenations of their blocks, however the bytes are asked for, but for the last if it is empty and nothing follows |
| Framing.OkComesBack | src/libYARP_OS/src/YARPSocketSyncComm.cpp:198-207 | the two parts of an answer are read back and nothing of it stays behind |
| Framing.TakenOffIffNotEmpty | src/libYARP_OS/src/BlockReceiver.cpp:122-134 | reads alone take a message off the stream if and only if they ask for at least one byte |
| ByteRendezvous.GoodKept | src/libYARP_OS/src/YARPSocketMulti.cpp:797-973 | every step of any listener or of the consumer keeps, for each connection, header, pieces and bytes not received yet together the stream that came |
| ByteRendezvous.RunsOfBytes | src/libYARP_OS/src/YARPSocketMulti.cpp:797-973 | every run with bytes is a run of the rendezvous that only counts them |
| ByteRendezvous.ObtainsAsFramed | src/libYARP_OS/src/YARPSocketSyncComm.cpp:122-195 | in every reachable state in which the consumer has begun a message and read on, its pieces and what is left are what the framing of that stream says |
| ByteRendezvous.ReadIffFramed | src/libYARP_OS/src/YARPSocketSyncComm.cpp:122-195 | from a listener found by its read, the consumer begins the message and reads the given lengths without more arriving if and only if the framing says the bytes are there, and gets exactly those, whatever the other listeners do |
| ByteRendezvous.MessageObtained | src/libYARP_OS/src/YARPSocketSyncComm.cpp:122-195 | a message sent is obtained as the concatenation of its blocks if and only if it is not empty or more follows |
| FrameLayout.MessageStarts | src/libYARP_OS/src/YARPSocketSyncComm.cpp:245-250 | the first 18 bytes of a message: its header, the number of blocks, the number of blocks of the reply, and -1 twice |
| FrameLayout.MessageTells | src/libYARP_OS/src/YARPSocketSyncComm.cpp:252-275 | then the length of every block and of every block of the reply, and then the blocks, each at its place |
| FrameLayout.PreambleIff | src/libYARP_OS/src/YARPSocketSyncComm.cpp:122-145 | off which streams a preamble is taken, byte by byte, and what is left |
| FrameLayout.ReplyPartRead | src/libYARP_OS/include/yarp_private/Headers.h:93-109 | a part of an answer is read with a good header once its bytes are there, and no more of it than there is room for |
| FrameLayout.AnswerBytes | src/libYARP_OS/src/YARPSocketSyncComm.cpp:198-207 | the twenty bytes of an answer |
| BlockTransfer.BlockSender.Add | src/libYARP_OS/src/BlockSender.cpp:107-140 | the block is collected after those before it, old entries used again |
| BlockTransfer.BlockSender.Fire | src/libYARP_OS/src/BlockSender.cpp:78-105 | the collected blocks go out as one message, none if there are none, and collecting starts anew |
| BlockTransfer.BlockSender.ReceiveReply | src/libYARP_OS/src/YARPSocketSyncComm.cpp:258-273 | waits for the two parts of the answer and is zeroed instead without acknowledgments; sending has failed exactly if the first part is not zero or a part does not come |
| BlockTransfer.SendMessage | src/libYARP_OS/src/YARPSocketSyncComm.cpp:221-274 | header, prefix, table of lengths and blocks are put on the stream |
| BlockTransfer.ReceivePreamble | src/libYARP_OS/src/YARPSocketSyncComm.cpp:122-145 | takes the preamble off the stream if one more byte is there behind it, and otherwise has to wait |
| BlockTransfer.BlockReceiver.Get | src/libYARP_OS/src/BlockReceiver.cpp:98-120 | waits for the next message unless there is one or reading has failed |
| BlockTransfer.BlockReceiver.GetBytes | src/libYARP_OS/src/BlockReceiver.cpp:122-177 | the next bytes of the message, which is begun first if it has not been and bytes are asked for; or nothing if the call has to wait |
| BlockTransfer.BlockReceiver.End | src/libYARP_OS/src/BlockReceiver.cpp:79-96 | answers a message once, if the connection has acknowledgments |
| BlockTransfer.ReceiveMessage | src/libYARP_OS/src/BlockReceiver.cpp:79-177 | a message begun, read in pieces and ended gives its content and an answer, unless a call has to wait |
| BlockTransfer.SendAndReceive | src/libYARP_OS/src/YARPSocketSyncComm.cpp:122-274 | messages added and fired one after the other are received as the concatenations of their blocks, but for the last if it is empty |
| BlockTransfer.SendAndAnswer | src/libYARP_OS/src/YARPSocketSyncComm.cpp:122-274 | with acknowledgments a message comes back, and its answer to the sender, if and only if it is not empty |
| BlockTransfer.ReadAlone | src/libYARP_OS/src/BlockReceiver.cpp:122-177 | reads without asking for the message first return and leave what the specification says |
| MessageExchange.ExchangeEnds | src/libYARP_OS/src/YARPSocketSyncComm.cpp:122-274 | every run of a sender and a receiver is bounded; who halts has received a prefix of the messages, all of them if and only if they get through, and is otherwise stuck at an empty message |
| MessageExchange.ExchangeIff | src/libYARP_OS/src/YARPSocketSyncComm.cpp:122-274 | some run exchanges all messages if and only if none is empty with acknowledgments, or the last is not without them |
| Images.Image.Free | src/libYARP_sig/src/YARPImage.cpp:639-689 | lets go of pixels, rows and counter; the last user releases its own pixels and drops the rows |
| Images.Image.AllocComplete | src/libYARP_sig/src/YARPImage.cpp:937-944 | new pixels and rows after letting go of the old ones |
| Images.Image.AllocCompleteExtern | src/libYARP_sig/src/YARPImage.cpp:946-955 | foreign pixels with new rows, not owned |
| Images.Image.Resize | src/libYARP_sig/src/YARPImage.cpp:978-1003 | the image then has the width and height asked for: it is left as it is, or has the layout asked for and new pixels and rows |
| Images.Image.Refer | src/libYARP_sig/src/YARPImage.cpp:1005-1055 | becomes another user of the source's pixels, rows and counter |
| Images.Heap.AddReference | src/libYARP_OS/src/YARPRefCount.cpp:84-99 | one reference more; a counter made here starts with the user there was |
| Images.Heap.RemoveReference | src/libYARP_OS/src/YARPRefCount.cpp:124-138 | one reference less, and whether it was the last |
| ImageSharing.FreeKeeps | src/libYARP_sig/src/YARPImage.cpp:639-689 | letting go keeps counts, releases and sharing consistent over all images |
| ImageSharing.ShareKeeps | src/libYARP_sig/src/YARPImage.cpp:1034-1050 | a further user keeps them consistent |
| ImageRuns.ResizeSameIff | src/libYARP_sig/src/YARPImage.cpp:978-1003 | resizing to the size there is changes nothing if and only if the padding the test assumes is the padding of the rows; otherwise the image gets pixels and rows never seen before |
| ImageRuns.ReferKeepsIff | src/libYARP_sig/src/YARPImage.cpp:1005-1055 | Refer keeps the sharing consistent if and only if the source is another image and has pixels |
| ImageRuns.ReferLeaksIff | src/libYARP_sig/src/YARPImage.cpp:1005-1055 | after a call of Refer some run leaves unreleased pixels behind if and only if the source was the same image or had no pixels |
| ImageRuns.ReferCanLeak | src/libYARP_sig/src/YARPImage.cpp:1005-1055 | a run from nothing that refers to a cleared image and ends with no image left and unreleased pixels |
| ImageRuns.SelfReferCanLeak | src/libYARP_sig/src/YARPImage.cpp:1005-1055 | the same for an image that refers to itself |
| ImageEffects.AllocateShows | src/libYARP_sig/src/YARPImage.cpp:937-944 | an allocated image has the layout asked for and pixels and rows never seen before; all others stay as they were |
| ImageEffects.WrapShows | src/libYARP_sig/src/YARPImage.cpp:946-955 | a wrapping image has the layout and the pixels given, new rows, and does not own the pixels |
| ImageEffects.ReferShows | src/libYARP_sig/src/YARPImage.cpp:1005-1055 | afterwards both images are the source as it was, with one counter |
| ImageEffects.ResizeShows | src/libYARP_sig/src/YARPImage.cpp:978-1003 | whatever was there, the image has the width and height asked for; with another size before, or without pixels, the layout asked for and new pixels and rows |
| ImageEffects.ClearShows | src/libYARP_sig/src/YARPImage.cpp:965-970 | the image keeps its layout and has no pixels, rows or counter |
| ImageEffects.TypeMayStay | src/libYARP_sig/src/YARPImage.cpp:983-994 | an image of one four-byte channel and one pixel that is to have one of one byte keeps its type and pixels, one of three channels does not |
| ImageRuns.ApplyKeeps | src/libYARP_sig/src/YARPImage.cpp:937-1055 | every operation on any image keeps the sharing consistent |
| ImageRuns.NothingDangles | src/libYARP_sig/src/YARPImage.cpp:639-689 | after any run no image points at released pixels or dropped rows, and a counter equals the number of images sharing |
| ImageRuns.SharersAgree | src/libYARP_sig/src/YARPImage.cpp:1034-1050 | images with the same pixels of their own share rows and counter |
| ImageRuns.ReleasedOnce | src/libYARP_sig/src/YARPImage.cpp:663-683 | pixels of one's own are released exactly once, when the last user lets go, and foreign ones never |
| ImageRuns.RowsDroppedOnce | src/libYARP_sig/src/YARPImage.cpp:663-683 | every row table is dropped exactly once, when the last user lets go |
| ImageRuns.NothingLeaks | src/libYARP_sig/src/YARPImage.cpp:495-498 | once all images are gone all own pixels and rows have been let go once and no counter is left |
| Convolution.LoopsConvolve | src/libYARP_sig/src/cvbase.cpp:406-418 | the loops with the flipped kernel compute the convolution by its definition |
| Convolution.SeparateIsDirect | src/libYARP_sig/src/cvbase.cpp:507-544 | two passes with x and y give what one pass with their product kernel gives |
| ConvolutionLoops.Convolve2D | src/libYARP_sig/src/cvbase.cpp:346-444 | every inner pixel becomes the convolution of the old source, for different images and for one image; the border is left alone, or taken from the scratch array when in place; two images with the same pixels are worked over pixel by pixel |
| SharedPixels.RightWhenShareable | src/libYARP_sig/src/cvbase.cpp:401-418 | worked over pixel by pixel, an image comes out as its convolution when no weight that the loops come to before the centre of the kernel leads from an inner pixel to one before it |
| SharedPixels.SharedRightIff | src/libYARP_sig/src/cvbase.cpp:401-418 | every image of a size comes out as its convolution if and only if that is so |
| SeparableLoops.ConvolveSep2D | src/libYARP_sig/src/cvbase.cpp:447-545 | every inner pixel becomes the convolution with both kernels, in place or not, and the border is left alone; what happens when a kernel is missing |
| SeparableLoops.ColumnOfRows | src/libYARP_sig/src/cvbase.cpp:526-544 | the second pass over the first one's results is the sum of sums |
| SeparableLoops.SameFilter | src/libYARP_sig/src/cvbase.cpp:346-545 | with the product kernel both functions fill an image in the same way |
| NetpbmText.NumberOfDecimal | src/libYARP_sig/src/YARPImageFile.cpp:103-103 | reading a printed number gives it back |
| NetpbmText.HeaderComesBack | src/libYARP_sig/src/YARPImageFile.cpp:143-202 | a printed header is read as the same size, and the pixels start right behind it |
| HeaderGrammar.ReadIffWritten | src/libYARP_sig/src/YARPImageFile.cpp:143-202 | a file is read with a certain size and pixels if and only if it is written so: P5 or P6, white space, comment lines, anything without digits, three numbers of which the last is 255, one byte, and the pixels |
| HeaderGrammar.CommentIgnored | src/libYARP_sig/src/YARPImageFile.cpp:159-170 | a comment line behind the magic number changes nothing |
| HeaderGrammar.PrintedSo | src/libYARP_sig/src/YARPImageFile.cpp:103-103 | the bytes of a header: P6 or P5, a line with width and height in decimal, and a line with 255 |
| ImageFile.PackedAt | src/libYARP_sig/src/YARPImageFile.cpp:104-108 | byte j of row i in a file is that of the image, where rows are padded |
| ImageFile.SwappedAt | src/libYARP_sig/src/YARPImage.cpp:337-356 | the first and the third byte of every pixel change places |
| ImageFile.Picture.Save | src/libYARP_sig/src/YARPImageFile.cpp:91-140 | header and rows without their padding |
| ImageFile.CopyPixels | src/libYARP_sig/src/YARPImage.cpp:337-356 | every pixel is copied in the other colour order, over padded rows |
| ImageFile.ImageWrite | src/libYARP_sig/src/YARPImageFile.cpp:307-332 | the file of a mono, RGB or BGR image |
| ImageFile.ImageRead | src/libYARP_sig/src/YARPImageFile.cpp:205-305 | an image is read exactly if the header is right and there are bytes for all pixels, and then it has that size and those pixels |
| ImageFile.WriteAndRead | src/libYARP_sig/src/YARPImageFile.cpp:205-332 | an image of any kind and size that was written is read back with the same size and pixels, also when comment lines have been put behind the magic number and more bytes behind the pixels |
| LineReader.Client.Receive | src/libYARP_OS/src/YARPNameClient2.cpp:204-277 | what one call returns and leaves, given how the bytes come: the next line, its carriage returns blanked, only if it has an end and fits the buffer, and always if that end is buffered already; if it is not returned a carriage return in it has been blanked; nothing else of the stream changes |
| LineReader.CallIsProper | src/libYARP_OS/src/YARPNameClient2.cpp:204-277 | the same for every schedule in which bytes can come |
| LineReader.ReturnedIff | src/libYARP_OS/src/YARPNameClient2.cpp:204-277 | a line that has an end and fits is returned if and only if the end comes no later than the receive call that brings its first carriage return |
| LineReader.AlwaysReturnedIff | src/libYARP_OS/src/YARPNameClient2.cpp:204-277 | it is returned in every schedule if and only if its end is buffered or it has no carriage return |
| LineReader.EndComesLate | src/libYARP_OS/src/YARPNameClient2.cpp:204-277 | a, carriage return, and then the line end alone: the first call returns nothing, the next one the line |
| LineReader.Client.ReceiveLine | src/libYARP_OS/src/YARPNameClient2.cpp:204-277 | asked again while it returns nothing, it returns every line that has an end and fits the buffer, however the bytes come |
| LineReader.LinesMakeUp | src/libYARP_OS/src/YARPNameClient2.cpp:204-277 | the lines of a stream, each with a line end behind it, and a rest without any make up the stream |
| LineReader.Client.ReceiveMany | src/libYARP_OS/src/YARPNameClient2.cpp:204-277 | successive calls return the successive lines |

## Left out

- MeshLinks.Mesh.Load: streams that end without the sentinel are read as if a missing word were empty, labels are not cut at the length of the word buffer, and the prose style and user data are not modelled.
- MeshLinks.Mesh.LabelledLink: labels of the mesh are unique and its links have their ends in the same mesh, so links of other meshes and repeated labels, of which the first would be found, are not covered.
- MeshLinks.Mesh.AddLink: the same.
- MeshLinks.Mesh.Store: the concise style of the base class only.
- Framing.MessagesComeBack: headers that announce another length than that of a prefix, which end or shift the stream, are not modelled.
- BlockTransfer.BlockSender.Add: the bytes of a block are those it has when it is added, where the original keeps a pointer to them until the message is fired.
- BlockTransfer.BlockSender.Fire: sending itself does not fail, and ReceiveReply is the rest of Fire after a message.
- BlockTransfer.BlockReceiver.GetBytes: the branches for a connection that is closed inside a message are not modelled; a call that lacks bytes waits.
- BlockTransfer.BlockReceiver.End: an answer that fails to go out is not modelled.
- LineReader.Client.Receive: a receive call that fails is not modelled; one that brings nothing is the end of the connection.
- ByteRendezvous.ReadIffFramed: for listeners that announce a message of blocks, whose header says the length of a prefix, and reads that ask for at least one byte, as ContinuedReceive is called.
- NetpbmText.HeaderComesBack: signs in front of numbers and numbers that exceed 32 bits are not modelled, and a file that ends inside its header is rejected where the original would read on for ever.
- SocketPool.SocketList.AddSocket: the pool has different ports other than 0 and is set before the first connection; the counter that passes the end of the pool on refusals is not wrapped.
- ImageFile.ImageRead: makes a new image where the original resizes the one it is given.
- ImageRuns.ApplyKeeps: wrapped pixels belong to someone outside, so wrapping the pixels another image owns is not covered.
- Listeners: listeners for UDP, multicast and shared memory, polling reads, connections that break or end while a message is handled, a message announced with no bytes (which ends its listener), and requests for more data after a reply has begun.
- Port buffers: shutdown, ignored data, termination flags, and reference counts of the buffers themselves.
- Floating-point rounding, singular value decomposition, padded rows in convolutions.
- Sending ports, name server calls, sockets, multicast, image arithmetic and conversions other than RGB and BGR, kinematics, and user interfaces.
