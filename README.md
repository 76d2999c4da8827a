# A verified model of the DCN dashboard's core

This project models, in Dafny, the logic of a small data-communications
teaching dashboard. The dashboard has a Python backend, which provides
a Playfair cipher, a distance-vector (RIP) routing simulator, a TCP Reno
congestion-control simulator and a Flask API. A React frontend shows a
library of network topologies, the routing tables and a full-simulation
tab. The project proves properties of each part.

The files are:

- `wrappers.dfy`: `Option` and `Result`.
- `playfair.dfy`: module `Playfair`.
  - It builds the key square, finds letter positions and prepares the digraphs.
  - It has the encryption and decryption rules, and the loops of `encrypt` and `decrypt` as methods.
  - It proves that decryption undoes encryption, down to the prepared text.
- `rip_spec.dfy` and `rip_rounds.dfy`: modules `RipSpec` and `RipRounds`.
  - They hold the routing simulator as values: nodes, neighbour tables, routing tables, the relaxation step, one round and the bounded simulation.
  - They also have path extraction and path cost.
  - They prove what each operation keeps and what it changes.
- `rip.dfy`: module `Rip`.
  - It holds the simulator's `Node` and `RIPNetwork` classes. Their dictionaries are map fields that the methods update in place.
  - Each method is proved against the value model.
- `tcp_reno_spec.dfy` and `tcp_reno.dfy`: modules `TcpRenoSpec` and `TcpReno`.
  - They hold the congestion window state machine and the transmission loop as functions of an explicit sequence of random draws.
  - They hold the `TCPRenoSimulator` class, whose methods are proved against those functions.
- `app.dfy`: module `App`.
  - It has the serialiser of the `/api/rip/network` route: node records, routing entries with infinity as -1, and each undirected link once.
  - It has the cost rule of `/api/rip/shortest-path` and the input guards of the two cipher routes.
- `topologies.dfy`: module `Topologies`.
  - It holds the four predefined topologies as data, with lemmas stating that each is consistent.
  - Each entry's `description` text is kept in a separate function, `Description`, beside the records, so that proofs about nodes and links do not carry the text.
- `network_view.dfy`: module `NetworkView`.
  - It has the drawing, badges and statistics of the topology view.
  - Its `NetworkVisualization` class holds the view's state: current topology, data, loading flag and pause flag.
- `rip_tab.dfy`: module `RipTab`.
  - It has the rendering rules of the routing-table cards, the selection toggle, the path-finder guards and the hop count.
  - Its `RIPTab` class holds the tab's state.
- `simulation_tab.dfy`: module `SimulationTab`.
  - It has the drawing, the weight fallback rule of its labels, the step counter and the report summary.
  - Its `SimulationTab` class holds the tab's state and handlers.

Requests to the backend, timers and random numbers are parameters:

- A handler receives the reply it awaited, or `ConnectionError`.
- The simulation tab's counter receives the number of timer ticks that fired.
- The TCP loop receives its uniform draws as a function from the round number to a pair of reals.

## Model

| member | source | states |
|---|---|---|
| Playfair.AlphabetSpelled | playfair_cipher.py:12 | the alphabet is the 25-letter string without J that the source writes out |
| Playfair.AlphabetMembership | playfair_cipher.py:12 | a character is in the alphabet exactly when it is an upper-case letter other than J |
| Playfair.AlphabetDistinct | playfair_cipher.py:12 | the alphabet has no repeated letter |
| Playfair.NormalizeKey | playfair_cipher.py:6-9 | the normalised key has no space and no J and is no longer than the key |
| Playfair.Absorb | playfair_cipher.py:16-23 | appending the new alphabet letters of a string keeps the prefix and keeps it repetition-free; it adds only alphabet letters of the string, and every one of them |
| Playfair.AbsorbOrder | playfair_cipher.py:16-18 | the letters taken from the key keep the order of their first occurrence in it |
| Playfair.SquareLetters | playfair_cipher.py:13-23 | the square's letter list always has 25 letters |
| Playfair.KeySquareIsPermutation | playfair_cipher.py:12-26 | for any key the square is 5 rows of 5 whose letters are a permutation of the alphabet, with no repeated cell |
| Playfair.KeySquareCells | playfair_cipher.py:26 | cell (i, j) of the square is letter 5i + j of the list |
| Playfair.KeySquare | playfair_cipher.py:12-26 | the key square as a value: the 25-letter list split into five rows; always 5 by 5, with its properties in KeySquareIsPermutation and KeyLettersFirst |
| Playfair.KeyLettersFirst | playfair_cipher.py:6-23 | the square lists the key's alphabet letters first, in first-occurrence order, then the unused alphabet letters in alphabet order |
| Playfair.KeyWithoutLetters | playfair_cipher.py:6-23 | a key with no alphabet letter gives the plain alphabet |
| Playfair.PrepareKey | playfair_cipher.py:1-27 | the two append loops and the row split build exactly the key square |
| Playfair.Locate | playfair_cipher.py:29-35 | the position found is (-1, -1) or a cell holding the character |
| Playfair.LocateSpec | playfair_cipher.py:29-35 | (-1, -1) exactly when no cell holds the character; otherwise no earlier cell in row order holds it |
| Playfair.LocateCell | playfair_cipher.py:29-35 | in a square without repeats the search for a cell's letter finds that cell |
| Playfair.FindPosition | playfair_cipher.py:29-35 | the nested loop with early return computes the first position of the character, or (-1, -1) |
| Playfair.CleanText | playfair_cipher.py:40-43 | the cleaned text holds only alphabet letters (J merged into I) and is no longer than the input |
| Playfair.PairsLength | playfair_cipher.py:48-57 | every digraph has two letters, and a digraph of two equal letters can only be XX |
| Playfair.PairsAt | playfair_cipher.py:48-57 | at index i the loop emits the last letter with X, a doubled letter with X and then moves one on, or two different letters and moves two on |
| Playfair.Pairs | playfair_cipher.py:48-57 | prepare_text's loop over the cleaned text as a recursion; its properties are in PairsLength, PairsAt and PairsPadded |
| Playfair.PairsPadded | playfair_cipher.py:49-54 | the joined digraphs are the cleaned text with an X inserted after the first of two equal adjacent letters, and after an odd trailing letter |
| Playfair.DigraphsShape | playfair_cipher.py:40-59 | every prepared digraph is two alphabet letters, the prepared text has no J, and it is the cleaned text padded as above |
| Playfair.Digraphs | playfair_cipher.py:37-59 | the digraphs of a plaintext: the cleaned text split into pairs; its shape is stated by DigraphsShape |
| Playfair.PrepareText | playfair_cipher.py:37-59 | the while loop over index i produces exactly the digraph list |
| Playfair.PyIndex | playfair_cipher.py:69-80 | an index of -1, from a letter not found, is read from the end of the row, as Python's negative index does |
| Playfair.EncryptPair | playfair_cipher.py:68-80 | one digraph encrypted by the three rules, with indexes as Python reads them; two letters out, and its rules are EncryptRules and EncryptPositions |
| Playfair.DecryptPair | playfair_cipher.py:96-108 | one digraph decrypted by the inverse rules; two letters out, and its rules are DecryptRules and DecryptPositions |
| Playfair.EncryptRules | playfair_cipher.py:72-80 | same row: each letter shifts one right mod 5; same column: each shifts one down mod 5; otherwise the two columns are swapped |
| Playfair.EncryptPositions | playfair_cipher.py:72-80 | in a square without repeated letters the cipher letters are found one column right (wrapping) in a shared row, one row down (wrapping) in a shared column, and otherwise at the opposite corners on their own rows |
| Playfair.DecryptRules | playfair_cipher.py:100-108 | same row: one left mod 5; same column: one up mod 5; otherwise the columns are swapped |
| Playfair.DecryptPositions | playfair_cipher.py:100-108 | the plain letters are found one column left, one row up (both wrapping), or at the opposite corners |
| Playfair.Wrap | playfair_cipher.py:102-105 | Python's `% 5` of a shifted index wraps 4 to 0 and 0 to 4, and maps -1 to 3 |
| Playfair.RowRoundTrip | playfair_cipher.py:101-102 | the row rule of decryption undoes the row rule of encryption |
| Playfair.ColumnRoundTrip | playfair_cipher.py:104-105 | the column rule of decryption undoes the column rule of encryption |
| Playfair.RectangleRoundTrip | playfair_cipher.py:107-108 | the rectangle rule is its own inverse |
| Playfair.PairRoundTrip | playfair_cipher.py:67-108 | decrypting an enciphered pair of alphabet letters gives the pair back |
| Playfair.PairsRoundTrip | playfair_cipher.py:61-110 | decrypting the encryption of any list of alphabet digraphs gives their concatenation |
| Playfair.EncryptPairs | playfair_cipher.py:67-82 | encrypt's loop over the digraphs: two ciphertext letters per digraph |
| Playfair.DecryptText | playfair_cipher.py:89-110 | decrypt's loop over the two-character slices; a short final slice is skipped |
| Playfair.DecryptLength | playfair_cipher.py:89-94 | decrypting gives exactly two letters per full slice: the ciphertext length rounded down to even |
| Playfair.Enciphered | playfair_cipher.py:67-82 | the ciphertext is twice as long as the number of prepared digraphs |
| Playfair.Deciphered | playfair_cipher.py:89-110 | the plaintext has exactly the ciphertext's length rounded down to an even number: two letters for each two-character slice |
| Playfair.DecryptIgnoresOddTail | playfair_cipher.py:89-94 | a trailing odd character does not change the decryption |
| Playfair.RoundTrip | playfair_cipher.py:61-110 | for every text and key, decrypt(encrypt(p, k), k) is the concatenation of prepare_text(p) |
| Playfair.EncryptDigraph | playfair_cipher.py:68-80 | one pass of encrypt's loop body gives the encryption of the pair |
| Playfair.Encrypt | playfair_cipher.py:61-82 | the loop over the digraphs computes the ciphertext |
| Playfair.DecryptDigraph | playfair_cipher.py:96-108 | one pass of decrypt's loop body gives the decryption of the pair |
| Playfair.Decrypt | playfair_cipher.py:84-110 | the loop over two-character slices, skipping a short one, computes the plaintext |
| RipSpec.LessOrder | rip_simulator.py:41-47 | comparison of distances with infinity is a strict order |
| RipSpec.VectorOf | rip_simulator.py:25-27 | the distance vector has one entry per routing-table destination |
| RipSpec.Relax | rip_simulator.py:29-51 | update_routing_table as a value: the table after considering every destination of the received vector; its properties are RelaxSpec, RelaxNeverIncreases and RelaxChanged |
| RipSpec.RelaxOn | rip_simulator.py:36-49 | the relaxation restricted to the destinations processed so far, the loop invariant of RelaxOnKeeps |
| RipSpec.RelaxSpec | rip_simulator.py:29-51 | an entry is replaced only by a strictly shorter route via the sender; the node's own entry is never touched; destinations are kept, and only destinations of the vector are added |
| RipSpec.RelaxNeverIncreases | rip_simulator.py:29-51 | no distance increases |
| RipSpec.RelaxChanged | rip_simulator.py:29-51 | the returned flag is true exactly when some entry improved |
| RipSpec.RelaxOnKeeps | rip_simulator.py:36-49 | one iteration of the loop keeps the loop's invariant (the table relaxed by the processed destinations, the flag as "changed") |
| RipSpec.AddNeighbor | rip_simulator.py:11-15 | the direct distance is stored and the route to that neighbour becomes (neighbour, distance) |
| RipSpec.AddNeighborOk | rip_simulator.py:11-15 | adding a neighbour keeps every next hop a neighbour or the node itself |
| RipSpec.AddNode | rip_simulator.py:93-96 | afterwards the id is a node, beside the nodes there were |
| RipSpec.AddNodeOk | rip_simulator.py:93-96 | the node under the id is fresh, the other nodes are untouched, and a new id is appended to the iteration order |
| RipSpec.AddNodeAsymmetric | rip_simulator.py:93-96 | re-adding a node that has neighbours breaks the symmetry of the links |
| RipSpec.AddLink | rip_simulator.py:98-106 | both endpoints become nodes |
| RipSpec.AddLinkSpec | rip_simulator.py:98-106 | each endpoint lists the other with the same distance and a direct route; other nodes are untouched; links stay bidirectional |
| RipSpec.AddLinkKeeps | rip_simulator.py:98-106 | every other neighbour entry is kept |
| RipSpec.AddNodesFresh | rip_simulator.py:182-184 | adding distinct new ids appends them in order as fresh nodes |
| RipSpec.AddLinksOk | rip_simulator.py:98-106 | a sequence of links keeps the network invariant and bidirectionality |
| RipSpec.AddLinksHave | rip_simulator.py:187-194 | links joining distinct pairs are all in place once added |
| RipSpec.SampleNetworkOk | rip_simulator.py:177-196 | the sample network keeps the invariant and its links are bidirectional |
| RipSpec.SampleNetworkLinks | rip_simulator.py:177-196 | the sample network has nodes A to F in order, and each of its eight links is in place |
| RipSpec.InitTableSpec | rip_simulator.py:17-23 | the node itself gets (self, 0); each listed node without an entry gets (None, inf); every other entry, the direct routes included, is untouched |
| RipSpec.InitAllOk | rip_simulator.py:108-112 | initialising all tables keeps the invariant and bidirectionality |
| RipSpec.InitTable | rip_simulator.py:17-23 | initialize_routing_table as a value: self at 0, every other id not yet present at infinity with no next hop; stated by InitTableSpec |
| RipSpec.Sends | rip_simulator.py:132-133 | a node sends its vector to each neighbour in insertion order |
| RipSpec.Updates | rip_simulator.py:126-133 | the updates of one round, each node's vector to each neighbour in order, taken from the tables before the round; stated by Sends and Round |
| RipSpec.Round | rip_simulator.py:125-142 | a round keeps the set of nodes; every vector comes from the tables as they were before the round |
| RipSpec.ApplySpec | rip_simulator.py:136-142 | the apply loop makes no distance worse; a set flag means some table improved, and a clear flag means that every table is as before |
| RipSpec.Apply | rip_simulator.py:136-142 | the updates delivered in order, with the any-update flag; the node set is kept, and ApplySpec states the rest |
| RipSpec.RoundNoWorse | rip_simulator.py:125-142 | a round never makes a distance worse |
| RipSpec.RoundBetter | rip_simulator.py:137-142 | when the round's flag is set, some entry improved |
| RipSpec.RoundFlag | rip_simulator.py:136-142 | the flag `any_updates` is true exactly when some table changed |
| RipSpec.RoundHops | rip_simulator.py:125-142 | a round keeps every next hop among the node's neighbours |
| RipSpec.Simulate | rip_simulator.py:114-154 | the simulation keeps the set of nodes |
| RipRounds.SimulateConverged | rip_simulator.py:121-154 | true is returned only after a round that changed nothing, so the final tables are a fixed point; with no rounds allowed, the result is false |
| RipRounds.SimulateFixedPoint | rip_simulator.py:121-154 | a round that changes nothing ends the simulation with the tables unchanged |
| RipRounds.SimulateNoWorse | rip_simulator.py:121-154 | the whole simulation never makes a distance worse |
| RipRounds.SimulateHops | rip_simulator.py:121-154 | every next hop stays a neighbour throughout |
| RipSpec.PathToSound | rip_simulator.py:59-74 | get_path_to returns [] or a loop-free next-hop chain from the source to the destination |
| RipSpec.PathToComplete | rip_simulator.py:59-74 | when such a chain exists and the source's table has the destination, get_path_to returns exactly that chain |
| RipSpec.ChainLinked | rip_simulator.py:59-74 | a next-hop chain runs along links |
| RipSpec.PathTo | rip_simulator.py:59-74 | get_path_to as a value: [] for an unknown destination, otherwise the next-hop walk; stated by PathToSound and PathToComplete |
| RipSpec.PathCost | rip_simulator.py:164-175 | the sum of the direct distances along a path, 0 for fewer than two nodes; additive by PathCostAppend |
| RipSpec.PathCostAppend | rip_simulator.py:164-175 | path cost is additive when two paths are joined |
| Rip.TablesIn | rip_simulator.py:9 | the routing tables, read from the node objects, have one entry per node |
| Rip.RelaxLoop | rip_simulator.py:31-51 | the loop over the vector's items computes the relaxed table and the changed flag |
| Rip.Node.constructor | rip_simulator.py:6-9 | a node starts with empty neighbour and routing tables |
| Rip.Node.AddNeighbor | rip_simulator.py:11-15 | the node's state becomes AddNeighbor of its old state |
| Rip.Node.InitializeRoutingTable | rip_simulator.py:17-23 | the routing table becomes the initialised table, and the neighbours are untouched |
| Rip.Node.GetDistanceVector | rip_simulator.py:25-27 | the node's vector is the distances of its routing table |
| Rip.Node.UpdateRoutingTable | rip_simulator.py:29-51 | the routing table becomes its relaxation by the sender's vector through the direct distance; the result says whether it changed |
| Rip.Node.GetNextHop | rip_simulator.py:53-57 | the next hop is the table's, and with the invariant it is the node itself or a neighbour |
| Rip.Node.GetPathTo | rip_simulator.py:59-74 | the walk returns [] or the loop-free next-hop chain to the destination; when the table has the destination it is the only such chain |
| Rip.RIPNetwork.constructor | rip_simulator.py:90-91 | a network starts with no nodes |
| Rip.RIPNetwork.AddNode | rip_simulator.py:93-96 | a fresh node object is stored under the id, and the modelled state follows AddNode |
| Rip.RIPNetwork.AddNodeList | rip_simulator.py:182-184 | adding the ids in turn follows AddNodes |
| Rip.RIPNetwork.AddBidirectionalLink | rip_simulator.py:98-106 | the network follows AddLink, and existing endpoints keep their objects |
| Rip.RIPNetwork.AddBidirectionalLinks | rip_simulator.py:187-194 | adding the links in turn follows AddLinks |
| Rip.RIPNetwork.InitializeRoutingTables | rip_simulator.py:108-112 | each node's table is initialised against the list of all ids |
| Rip.RIPNetwork.CollectUpdates | rip_simulator.py:126-133 | the updates are every node's vector paired with each of its neighbours, taken before any is applied |
| Rip.RIPNetwork.Receive | rip_simulator.py:137-139 | delivering an update changes only the receiver's table, by relaxation |
| Rip.RIPNetwork.ApplyUpdates | rip_simulator.py:136-139 | delivering the updates in order gives Apply's tables and flag |
| Rip.RIPNetwork.SimulateRip | rip_simulator.py:114-154 | the tables become those of Simulate with max_iterations rounds, and the result is its converged flag |
| Rip.RIPNetwork.Iterate | rip_simulator.py:121-142 | one pass of the loop body advances Simulate by one round |
| Rip.RIPNetwork.FindShortestPath | rip_simulator.py:156-162 | None exactly for an unknown endpoint; otherwise [] or the loop-free next-hop chain, which runs along links |
| Rip.RIPNetwork.GetPathCost | rip_simulator.py:164-175 | the sum of the direct distances between consecutive nodes (0 for fewer than two); Err where Python would raise KeyError |
| Rip.CreateSampleNetwork | rip_simulator.py:177-196 | the network built is the sample network |
| Rip.Bound | rip_simulator.py:121 | the number of rounds is max_iterations, or none when that is not positive |
| TcpRenoSpec.StateName | tcp_reno_simulator.py:28 | the states are named slow_start, congestion_avoidance and fast_recovery |
| TcpRenoSpec.StateNameInjective | tcp_reno_simulator.py:28 | the names tell the states apart |
| TcpRenoSpec.AtLeast | tcp_reno_simulator.py:20-23 | `max(low, x)` clamps from below |
| TcpRenoSpec.ClampRate | tcp_reno_simulator.py:24 | the loss rate is clamped into [0, 1] and unchanged inside it |
| TcpRenoSpec.ClampCwnd | tcp_reno_simulator.py:21 | the window is at least one segment and unchanged when it already is |
| TcpRenoSpec.Lost | tcp_reno_simulator.py:41-43 | with a draw in [0, 1), rate 0 never loses and rate 1 always loses |
| TcpRenoSpec.Half | tcp_reno_simulator.py:51 | `int(cwnd // 2)` is the floor of half the window |
| TcpRenoSpec.HandlePacketLoss | tcp_reno_simulator.py:45-59 | _handle_packet_loss as a value; stated by HandlePacketLossSpec |
| TcpRenoSpec.HandlePacketLossSpec | tcp_reno_simulator.py:45-59 | one loss event is counted and ssthresh becomes max(floor(cwnd/2), 2); a timeout means cwnd 1, slow_start and no duplicate ACKs, and otherwise cwnd is ssthresh + 3 in fast_recovery |
| TcpRenoSpec.UpdateCwnd | tcp_reno_simulator.py:61-97 | _update_cwnd as a value; stated by NewAckSpec, DupAckSpec and ThirdDupAckRetransmits |
| TcpRenoSpec.NewAckSpec | tcp_reno_simulator.py:77-97 | a new ACK clears the duplicate count and keeps ssthresh and the loss counters; slow start adds one segment up to the cap of 100 and moves to congestion avoidance exactly when cwnd reaches ssthresh; congestion avoidance sets cwnd to min(cwnd + 1/cwnd, 100), which grows it by less than one segment; fast recovery deflates cwnd to ssthresh and enters congestion avoidance |
| TcpRenoSpec.DupAckSpec | tcp_reno_simulator.py:63-75 | a duplicate ACK is counted; the third triggers fast retransmit and a lost packet; beyond three in fast recovery, cwnd grows to min(cwnd + 1, 100); otherwise the window is unchanged |
| TcpRenoSpec.ThirdDupAckRetransmits | tcp_reno_simulator.py:63-69 | from a fresh count, exactly the third duplicate ACK causes a loss event, and it enters fast recovery |
| TcpRenoSpec.TransitionsKeepWindowOk | tcp_reno_simulator.py:45-97 | every transition keeps cwnd at least 1 and ssthresh at least 2 |
| TcpRenoSpec.UpdateCwndPairsLosses | tcp_reno_simulator.py:61-75 | `_update_cwnd` counts a loss event exactly when it counts a lost packet |
| TcpRenoSpec.TransitionsKeepCapped | tcp_reno_simulator.py:45-97 | a window within the cap of 100 stays within it |
| TcpRenoSpec.NewAckCaps | tcp_reno_simulator.py:80-92 | a new ACK outside fast recovery brings any window within the cap |
| TcpRenoSpec.Segments | tcp_reno_simulator.py:134 | the segment count is the ceiling of the remaining bytes over mss |
| TcpRenoSpec.PacketsToSend | tcp_reno_simulator.py:134-135 | 1 <= packets_to_send <= max(1, ceil(remaining/mss)), at most the window's whole segments |
| TcpRenoSpec.AckedPackets | tcp_reno_simulator.py:141-157 | all are acknowledged without loss, none on a timeout, all but one on fast retransmit |
| TcpRenoSpec.Round | tcp_reno_simulator.py:126-164 | each round advances the clock by one |
| TcpRenoSpec.RoundSpec | tcp_reno_simulator.py:126-164 | a round keeps the run invariant and records the state it started from; it sends between 1 and max(1, ceil(remaining/mss)); data never grows and never goes negative; loss events and lost packets stay in step |
| TcpRenoSpec.StartSpec | tcp_reno_simulator.py:109-123 | the reset keeps the window and threshold from earlier runs and starts with max(1, data_size) bytes |
| TcpRenoSpec.Start | tcp_reno_simulator.py:109-123 | the reset at the start of simulate_transmission; stated by StartSpec |
| TcpRenoSpec.TransmitSpec | tcp_reno_simulator.py:126-164 | the loop ends with nothing remaining or after max_time rounds; remaining never increases; at least one packet is sent per round; losses stay paired |
| TcpRenoSpec.Transmit | tcp_reno_simulator.py:126-164 | the transmission loop as a recursion over rounds; stated by TransmitSpec |
| TcpRenoSpec.TransmissionSpec | tcp_reno_simulator.py:99-184 | the four histories have one entry per round, at most max_time; time_history is 0..n-1; transmitted plus remaining is data_size; complete exactly when everything is transmitted |
| TcpRenoSpec.Transmission | tcp_reno_simulator.py:99-184 | simulate_transmission's result as a value; stated by TransmissionSpec |
| TcpRenoSpec.StateNames | tcp_reno_simulator.py:130 | the state history holds the name of each recorded state |
| TcpRenoSpec.Range | tcp_reno_simulator.py:131 | the time history is 0, 1, ..., n - 1 |
| TcpReno.TCPRenoSimulator.constructor | tcp_reno_simulator.py:9-39 | every argument is clamped into range, and the run starts in slow start with empty histories and zero counters |
| TcpReno.TCPRenoSimulator.DetectPacketLoss | tcp_reno_simulator.py:41-43 | a loss exactly when the draw is below the loss rate |
| TcpReno.TCPRenoSimulator.HandlePacketLoss | tcp_reno_simulator.py:45-59 | the window fields follow HandlePacketLoss, and the counters and histories are untouched |
| TcpReno.TCPRenoSimulator.UpdateCwnd | tcp_reno_simulator.py:61-97 | the window fields follow UpdateCwnd, and the rest is untouched |
| TcpReno.TCPRenoSimulator.TransmitRound | tcp_reno_simulator.py:127-164 | one pass of the loop body follows Round |
| TcpReno.TCPRenoSimulator.Reset | tcp_reno_simulator.py:109-123 | the reset follows Start |
| TcpReno.TCPRenoSimulator.TransmitRounds | tcp_reno_simulator.py:126-164 | the while loop follows Transmit |
| TcpReno.TCPRenoSimulator.SimulateTransmission | tcp_reno_simulator.py:99-184 | the result dictionary is Transmission of the old window, the data size and the draws |
| App.EntryRoundTrip | app.py:89-93 | an infinite distance becomes -1, and a finite one and the next hop are copied; an entry reads back as its route unless a finite distance was -1 |
| App.TableRoundTrip | app.py:88-93 | the serialised table has exactly the table's destinations, and reads back as the table when no finite distance is -1 |
| App.TableOf | app.py:88-93 | the serialised routing table: each destination's next hop and distance, infinity as -1; stated by EntryRoundTrip and TableRoundTrip |
| App.SerializeTable | app.py:88-93 | the loop over the routing table's items builds the serialised table |
| App.NodeRecordsSpec | app.py:80-95 | one record per node, ids distinct; each record carries the label "Node id", the neighbour ids in insertion order and an entry for every routing-table destination |
| App.NodeRecords | app.py:80-95 | one record per node in the network's order; stated by NodeRecordsSpec |
| App.SerializeNodes | app.py:80-95 | the first loop builds exactly the node records |
| App.DedupSpec | app.py:98-108 | skipping pairs already processed keeps exactly the first record of each unordered pair; no pair twice and every pair met appears |
| App.Dedup | app.py:98-108 | the first record of each unordered pair, as processed_links filters them; stated by DedupSpec |
| App.CandidatesSound | app.py:99-100 | every candidate is a neighbour entry with its stored distance |
| App.CandidatesComplete | app.py:99-100 | every neighbour entry is a candidate |
| App.LinkRecordsSpec | app.py:98-108 | each link is a neighbour entry with its distance; no unordered pair twice; every pair of neighbours appears |
| App.LinkRecords | app.py:98-108 | the deduplicated neighbour entries in insertion order; stated by LinkRecordsSpec and LinkRecordsFirst |
| App.LinkRecordsFirst | app.py:98-108 | each link is the first orientation of its pair met in insertion order, and every such first orientation is a link |
| App.AppendNodeLinks | app.py:100-108 | the inner loop over a node's neighbours extends the deduplicated list and the processed set |
| App.SerializeLinks | app.py:98-108 | the nested loops with `processed_links` build exactly the link records |
| App.NetworkTopology | app.py:77-108 | the serialiser's output is the node records and the link records of the network |
| App.ShortestPath | app.py:131-132 | the cost is -1 for a missing or empty path, otherwise the path's cost along its links; the path returned is the next-hop chain that get_path_to builds from the source's routing table |
| App.PlayfairEncrypt | app.py:26-42 | the handler's reply is the guarded encryption response |
| App.PlayfairDecrypt | app.py:51-63 | the handler's reply is the guarded decryption response |
| App.EndpointsSpec | app.py:30-31 | the guards fail exactly on an empty text or key; past them the encrypt reply deciphers back to the prepared text |
| Topologies.Lookup | frontend/src/topologies.js:1-78 | the library has an entry exactly for the keys linear, star, mesh and tree |
| Topologies.FindSpec | frontend/src/components/NetworkVisualization.js:76-77 | find returns the first node with the id, and nothing exactly when no node has it |
| Topologies.Ids | frontend/src/components/tabs/SimulationTab.js:98 | the ids of the nodes, in order |
| Topologies.ConnectionsAgree | frontend/src/topologies.js:5-76 | in a consistent topology a node lists c exactly when a link joins them |
| Topologies.ConsistentFrom | frontend/src/topologies.js:5-76 | endpoint positions and a link behind every connection make a topology consistent |
| Topologies.LinearConsistent | frontend/src/topologies.js:2-16 | the linear topology is consistent, with 4 nodes and 3 links |
| Topologies.LinearCosts | frontend/src/topologies.js:11-15 | every linear link costs 1, and the connection lists add up to twice the links |
| Topologies.StarConsistent | frontend/src/topologies.js:17-35 | the star is consistent, with 6 nodes and 5 links |
| Topologies.MeshConsistent | frontend/src/topologies.js:36-56 | the mesh is consistent, with 5 nodes and 8 links |
| Topologies.TreeConsistent | frontend/src/topologies.js:57-77 | the tree is consistent, with 7 nodes and 6 links |
| Topologies.LibrarySpec | frontend/src/topologies.js:1-78 | every library entry is consistent and has at least two nodes: unique ids, links between distinct listed nodes, connection lists that agree with the links, no duplicate link and positive costs |
| NetworkView.Resolve | frontend/src/components/NetworkVisualization.js:76-79 | a link resolves exactly when both endpoints are found by id |
| NetworkView.SegmentOf | frontend/src/components/NetworkVisualization.js:83-111 | the line joins the two nodes, and its cost label sits at the midpoint, the given lift above it |
| NetworkView.Segments | frontend/src/components/NetworkVisualization.js:75-115 | the drawn links in order, one per link that resolves; stated by SegmentsSpec and SegmentsAll |
| NetworkView.SegmentsSpec | frontend/src/components/NetworkVisualization.js:75-115 | a segment is drawn exactly for a resolving link; unresolved links are skipped |
| NetworkView.SegmentsAll | frontend/src/components/NetworkVisualization.js:75-115 | when every link resolves, link k is drawn as segment k |
| NetworkView.MarkOf | frontend/src/components/NetworkVisualization.js:133-162 | the id sits 5 below the node's centre; the badge is at (x + 20, y - 20) and shows the number of connections |
| NetworkView.BadgeTotalSpec | frontend/src/components/NetworkVisualization.js:162 | the badges add up to the sum of the connection-list lengths |
| NetworkView.Render | frontend/src/components/NetworkVisualization.js:58-176 | nothing for an empty node list, otherwise one mark per node and no more segments than links |
| NetworkView.RenderConsistent | frontend/src/components/NetworkVisualization.js:58-176 | for a consistent topology every link is drawn in order, and the badges total twice the link count |
| NetworkView.ShownAvgDegree | frontend/src/components/NetworkVisualization.js:269 | the "Avg Degree" figure as written: the connection-list lengths added up and halved; stated by ShownAvgDegreeIsLinkCount and ShownAvgDegreeLinear |
| NetworkView.ShownAvgDegreeIsLinkCount | frontend/src/components/NetworkVisualization.js:269 | the "Avg Degree" figure as written equals the link count of a consistent topology |
| NetworkView.ShownAvgDegreeLinear | frontend/src/components/NetworkVisualization.js:269 | on the linear topology the figure shown is 3 while the average degree is 1.5 |
| NetworkView.AverageDegree | frontend/src/components/NetworkVisualization.js:269 | the corrected figure: the connection total over the node count, 0 for no nodes; stated by AverageDegreeSpec |
| NetworkView.AverageDegreeSpec | frontend/src/components/NetworkVisualization.js:267-271 | the average degree is the mean of the badge numbers, 2E/N for a consistent topology |
| NetworkView.StatsOf | frontend/src/components/NetworkVisualization.js:258-273 | the panel counts the nodes and the links; its average field is the corrected mean degree (connection total over node count), and the figure as written at line 269 is that total halved, related to it by the third ensures |
| NetworkView.NetworkVisualization.constructor | frontend/src/components/NetworkVisualization.js:9-12 | the view starts on linear with no data, not loading and not paused |
| NetworkView.NetworkVisualization.LoadTopology | frontend/src/components/NetworkVisualization.js:18-40 | the entry's nodes and links become the data verbatim; an unknown key leaves the data as it was; loading ends false |
| NetworkView.NetworkVisualization.SelectTopology | frontend/src/components/NetworkVisualization.js:14-16 | the clicked key becomes current, and it is loaded only when it changed |
| NetworkView.NetworkVisualization.Refresh | frontend/src/components/NetworkVisualization.js:50-52 | the current topology is loaded again |
| NetworkView.NetworkVisualization.TogglePause | frontend/src/components/NetworkVisualization.js:190 | the pause flag flips and nothing else changes; the links animate exactly when the flag is false |
| NetworkView.NetworkVisualization.PauseCaption | frontend/src/components/NetworkVisualization.js:194 | the caption reads Resume exactly while paused |
| NetworkView.NetworkVisualization.CanvasView | frontend/src/components/NetworkVisualization.js:276-290 | the spinner is shown exactly while loading, and the drawing of the data otherwise |
| NetworkView.NetworkVisualization.StatsPanel | frontend/src/components/NetworkVisualization.js:258-273 | the stats panel of the current data, which is StatsOf of it |
| NetworkView.LoadedView | frontend/src/components/NetworkVisualization.js:18-27 | after a library entry loads, every link is drawn, every node is marked, the stats are N, E and the corrected average 2E/N, and the "Avg Degree" figure as written equals E |
| RipTab.HopText | frontend/src/components/tabs/RIPTab.js:271 | a missing or empty next hop shows as '-' |
| RipTab.DistanceClass | frontend/src/components/tabs/RIPTab.js:273 | class self exactly for 0, infinite exactly for -1, normal otherwise |
| RipTab.DistanceShown | frontend/src/components/tabs/RIPTab.js:274 | infinity is shown exactly for -1, and the number otherwise |
| RipTab.RowOf | frontend/src/components/tabs/RIPTab.js:268-277 | the row of the node's own destination, and only it, is the self-row; the hop and distance cells follow the rules above |
| RipTab.RowOfRoute | frontend/src/components/tabs/RIPTab.js:268-277 | for a route serialised by the backend, the row shows infinity exactly for an unreachable destination and self exactly for distance 0 |
| RipTab.Toggle | frontend/src/components/tabs/RIPTab.js:249 | a click clears the selection exactly when that node was selected, and otherwise selects it |
| RipTab.ToggleTwice | frontend/src/components/tabs/RIPTab.js:249 | two clicks on one card restore the selection only if it was that card |
| RipTab.CardOf | frontend/src/components/tabs/RIPTab.js:243-280 | the card shows "Node id", is active exactly when selected and shows neighbors.length, with one row per routing entry |
| RipTab.OneActive | frontend/src/components/tabs/RIPTab.js:245 | with distinct ids at most one card is active, the selected one |
| RipTab.CardOfNode | frontend/src/components/tabs/RIPTab.js:242-280 | the card of a serialised node carries the node's neighbour count and destinations, and marks its own row |
| RipTab.HopCountAsWritten | frontend/src/components/tabs/RIPTab.js:179 | `path ? path.length - 1 : 0` as written, with an empty array truthy |
| RipTab.HopCountAsWrittenEmpty | frontend/src/components/tabs/RIPTab.js:179 | as written, the empty path of an unreachable destination shows -1 hops |
| RipTab.HopCount | frontend/src/components/tabs/RIPTab.js:179 | the hop count is one less than the path's length, 0 without a path, and never negative |
| RipTab.HopCountAgrees | frontend/src/components/tabs/RIPTab.js:179 | the corrected count agrees with the written one on every path except the empty one |
| RipTab.HopsOfShortestPath | frontend/src/components/tabs/RIPTab.js:179-182 | for the backend's reply the hops are the links crossed, and zero hops come with cost -1 or 0 |
| RipTab.Guard | frontend/src/components/tabs/RIPTab.js:38-46 | the request goes ahead exactly when both endpoints are set and differ, and each failing guard sets its own message |
| RipTab.FailureText | frontend/src/components/tabs/RIPTab.js:60 | the backend's error message, or a default when it is empty |
| RipTab.RIPTab.constructor | frontend/src/components/tabs/RIPTab.js:8-14 | the tab starts with no data, A to F, no path, no error and no selection |
| RipTab.RIPTab.FetchNetworkData | frontend/src/components/tabs/RIPTab.js:20-35 | a successful reply replaces the data; a failed reply and a failed connection each set their error; loading ends false |
| RipTab.RIPTab.FindShortestPath | frontend/src/components/tabs/RIPTab.js:37-68 | a failed guard sets its error and makes no request; otherwise the error is cleared and the reply stored, or the failure reported |
| RipTab.RIPTab.SelectCard | frontend/src/components/tabs/RIPTab.js:249 | the selection toggles and nothing else changes |
| RipTab.RIPTab.SetSource | frontend/src/components/tabs/RIPTab.js:116 | the source is set and nothing else changes |
| RipTab.RIPTab.SetDest | frontend/src/components/tabs/RIPTab.js:135 | the destination is set and nothing else changes |
| RipTab.RIPTab.Shown | frontend/src/components/tabs/RIPTab.js:242 | one card per node of the data |
| RipTab.RIPTab.Hops | frontend/src/components/tabs/RIPTab.js:179 | a hop count exactly while a path reply is stored; it is the corrected count, never negative, and equals the count as written except on the empty path |
| SimulationTab.Weight | frontend/src/components/tabs/SimulationTab.js:146 | the label is the cost, else the distance, else 1; only a missing value falls through, so a cost of 0 is kept |
| SimulationTab.DotOf | frontend/src/components/tabs/SimulationTab.js:150-154 | a node is drawn at its position with its id 5 below the centre |
| SimulationTab.Render | frontend/src/components/tabs/SimulationTab.js:133-164 | nothing for an empty node list; otherwise every node is drawn, with no more segments than links |
| SimulationTab.RenderSpec | frontend/src/components/tabs/SimulationTab.js:139-146 | a segment is drawn exactly for a resolving link, and its label is that link's weight |
| SimulationTab.NextStep | frontend/src/components/tabs/SimulationTab.js:40-46 | the updater adds one until the last message and then stays there |
| SimulationTab.StepsSpec | frontend/src/components/tabs/SimulationTab.js:39-47 | after t ticks from step s, the step is min(s + t, last) |
| SimulationTab.ReportSummary | frontend/src/components/tabs/SimulationTab.js:70-81 | no results, no report; encryption is successful exactly for a non-empty text; routing exactly when a path is present, even an empty one; the success flag and cost are copied |
| SimulationTab.Defaulted | frontend/src/components/tabs/SimulationTab.js:114-118 | the source becomes the first node and the destination the last, with the rest of the configuration kept |
| SimulationTab.SimulationTab.constructor | frontend/src/components/tabs/SimulationTab.js:9-23 | the initial configuration, the linear topology, no results and step 0 |
| SimulationTab.SimulationTab.AvailableNodes | frontend/src/components/tabs/SimulationTab.js:98 | the offered nodes are the topology's ids in order |
| SimulationTab.SimulationTab.HandleTopologyChange | frontend/src/components/tabs/SimulationTab.js:106-118 | the key is selected; an unknown key changes nothing else; a library key shows its data and defaults the endpoints |
| SimulationTab.SimulationTab.RunFullSimulation | frontend/src/components/tabs/SimulationTab.js:32-68 | error cleared, counter restarted; success stores the results and sets the step to 4; failure sets the error and leaves the step where the ticks left it; loading ends false |
| SimulationTab.SimulationTab.Summary | frontend/src/components/tabs/SimulationTab.js:70-71 | a summary exists exactly when there are results |
| SimulationTab.TopologyDefaults | frontend/src/components/tabs/SimulationTab.js:108-118 | for each library topology the default source and destination are its first and last ids, and they differ |

## Left out

- Character handling: `str.upper` and `str.isalpha` are modelled for ASCII only. Other Unicode letters are treated as non-letters. The model has no case folding beyond A-Z.
- Playfair `display_matrix` is not modelled, because it only prints.
- `print_routing_table` and the prints of `simulate_rip` are not modelled. `main.py` is not modelled either: it is interactive input and glue.
- Python dictionary iteration order: a node's neighbours are kept as a map plus their insertion order. The network's nodes are a map plus the id order. A routing table is a map, whose order is used only by the RIPTab's `Object.entries` display. The model does not fix that display order.
- Rip.RIPNetwork.SimulateRip requires links to be bidirectional, which every network built by `add_bidirectional_link` from fresh nodes is. Re-adding a node that already has neighbours breaks this, as RipSpec.AddNodeAsymmetric shows. The source then raises KeyError during the updates. That path is not modelled.
- Rip.RIPNetwork.GetPathCost returns Err where the source raises KeyError. The Flask route turns that exception into a 500 reply, and that reply is not modelled.
- Infinity and floats: RIP distances are integers or infinity. An infinite neighbour distance cannot occur, since link distances are integers.
- App.EntryRoundTrip: a finite distance of -1 serialises like infinity. The round trip is stated only for tables without such a distance.
- TCP randomness: each `random.random()` call is an input draw. `cwnd` is a real number, without IEEE rounding, and `float(...)`/`int(...)` conversions of non-integral inputs are not modelled.
- TCP plotting: `plot_results` and the matplotlib code in app.py are not modelled.
- What the frontend shows as text: the `toFixed` percentages, the `tcp_efficiency` ratio of the report and the float formatting are not modelled.
- Timers: only the updater of the simulation tab's `setInterval` is modelled. The number of ticks that fired before the reply is a parameter.
- HTTP: axios requests, Flask's JSON plumbing, the backend posts of `load-topology` and `saveCurrentNetwork`, and the Blob download are not modelled. Each reply is a parameter.
- HTTP routes of app.py other than the serialiser, the shortest-path cost rule and the cipher guards (health, TCP, full simulation, nodes) are not modelled.
- React batching: each state setter is an assignment, in the order the handler makes it. The effect that loads the current topology runs as part of SelectTopology.
- Topologies.Description: the description text is kept by key beside each entry rather than inside the record.
- SimulationTab.SimResults.success is a boolean. The report copies whatever value the backend sent.
- The RIPTab's link list and its plain `select` bindings beyond setting the endpoints are not modelled.
- NetworkView.StatsOf: the panel's average field holds the corrected average degree (connection total over node count), not the halved total that line 269 of NetworkVisualization.js shows. The figure as written is ShownAvgDegree, which StatsOf's contract relates to the field, and the discrepancy is the first row of "## Findings".
- NetworkView.LoadedView: its stats are those of StatsOf, so their average is the corrected one; the lemma states the figure as written (the link count) separately.
- NetworkView.NetworkVisualization.StatsPanel: shows StatsOf of the current data, so the corrected average.
- RipTab.RIPTab.Hops: the tab's hop count is the corrected HopCount, which shows 0 for the empty path where line 179 of RIPTab.js shows -1. The count as written is HopCountAsWritten, which Hops' contract relates to the shown count, and the discrepancy is the second row of "## Findings".
- SimulationTab.Render: the topology links always carry a cost, so each segment is labelled with that cost. The `distance` and default-1 fallbacks that Weight states are not reachable through this data, and the drawing does not apply them.
- Layout, styling and animation: SVG colours, gradients, framer-motion effects and the `svgWidth`/`svgHeight` constants have no stated logic and are not modelled.

## Findings

| source | as written | input that shows it | evidently intended | confidence | as-written member | corrected member |
|---|---|---|---|---|---|---|
| frontend/src/components/NetworkVisualization.js:269 | "Avg Degree" shows the sum of the connection lengths divided by 2, which is the link count | the linear topology: the figure is 3, while its 4 nodes have 1.5 connections on average | the sum divided by the number of nodes, which the model's StatsOf uses | not executed; medium | NetworkView.ShownAvgDegreeLinear | NetworkView.AverageDegreeSpec |
| frontend/src/components/tabs/RIPTab.js:179 | `path ? path.length - 1 : 0` treats an empty array as a path | the reply `{path: [], cost: -1}` for a destination with no route (app.py:131-132) shows -1 hops | 0 hops when the path is empty, which the model's RIPTab class shows | not executed; low: every destination of the sample network is reachable | RipTab.HopCountAsWrittenEmpty | RipTab.HopCount |
