# Cluster node pool and int64 byte codec, in Dafny

This project models two sequential cores of a small Go utility library.

**The cluster node pool** (`netutils/clusternodemanager.go`). A
`ClusterNodeManager` keeps three lists of `host:port` strings:
- every configured entry (`allNodes`);
- the entries currently believed reachable (`availableNodes`);
- the entries currently believed unreachable (`brokenNodes`).

It also keeps a `uint64` round-robin counter `idx`. The model covers these parts:
- Construction validates each entry. It splits the entry on `:`. It skips an entry that does not give exactly two pieces. It aborts on the first port that is not a decimal number in 0..65535.
- `Random` picks round-robin from the available list.
- `All` and `Available` return copies of their lists.
- `setBrokenNodes` and `setAvailableNodes` move one node between the lists.
- The two check passes drive those moves from a liveness probe.
- One tick of the health loop runs the available pass and then the broken pass.

The pool is a Dafny `class` with `seq<string>` fields. `SetBrokenNodes`,
`SetAvailableNodes`, `CheckAvailableNodes`, `CheckBrokenNodes` and `HeartTick`
change the two lists under `modifies` clauses, and the first four do so in loops
with invariants. They are proved against reference functions in module
`NodeLists`:
- `Select` is the stable filter by the probe's answer;
- `RemoveFirst` deletes the first occurrence of a node.

`Random` changes only the counter and is specified with the wrapping increment
`Next` and the position `RobinIndex`. `All` and `Available` change nothing.

The pool's invariant is `ClusterNodeManager.Valid`: the multiset of the available
list plus the broken list equals the multiset of all configured entries.

Two Go standard-library functions are modelled in module `GoText`, because
construction depends on their exact behaviour:
- `strings.Split(s, ":")`;
- `strconv.ParseUint(s, 10, 16)`: left to right, a syntax error on an empty string or a non-digit, and a range error as soon as the running value exceeds 65535.

**The int64 byte codec** (`types/types.go`). `IntToByte` writes an `int64` as 8
big-endian two's-complement bytes. `ByteToInt` reads the first 8 bytes back, and
returns 0 when fewer than 8 are given. Module `Types` models both as functions
over `seq<byte>`, with `int64` as a newtype of the signed 64-bit range.

Modules: `Wrappers` (Option, Result), `Widths` (2^64 and `uint64`), `GoText`, `NodeLists`, `NetUtils` (the pool,
its construction and its lemmas) and `Types`.

## Model

| member | source | states |
|---|---|---|
| NetUtils.NewClusterNodeManager | netutils/clusternodemanager.go:44-93 | What construction returns. An empty list gives ErrInvalidCluster. A bad port gives that port's error. No surviving entry gives no manager and no error. Otherwise it gives a fresh, valid manager: all = the surviving entries; available / broken = those entries the initial available pass finds reachable / unreachable; the interval is stored and the counter is 0 |
| NetUtils.CheckServers | netutils/clusternodemanager.go:56-78 | The validation loop returns exactly ScreenServers of the input: the first fatal port's error, or the kept entries in order |
| NetUtils.ScreenServersSuccess | netutils/clusternodemanager.go:56-78 | Validation succeeds iff no entry is well split with an unparsable port; then the result is exactly the well-split entries in input order, duplicates kept |
| NetUtils.ScreenServersFailure | netutils/clusternodemanager.go:67-76 | Validation fails iff some entry is well split with an unparsable port; the error carries the port text and ParseUint's error of the first such entry, whatever entries come after it |
| NetUtils.Kept | netutils/clusternodemanager.go:57-65 | An entry survives the split check iff it is in the input and splits into exactly two pieces |
| NetUtils.KeptAppend | netutils/clusternodemanager.go:56-78 | Appending an entry to the input appends it to the kept list iff it is well split |
| NetUtils.OutOfRangePortRejectsAll | netutils/clusternodemanager.go:67-76 | ["127.0.0.1:9", "127.0.0.1:65599"] is rejected with a range error on port "65599", although the first entry is good |
| NetUtils.MissingColonIsDropped | netutils/clusternodemanager.go:57-65 | ["localhost", "127.0.0.1:8848"] builds a manager over ["127.0.0.1:8848"] alone |
| NetUtils.NothingSurvivesGivesNoManager | netutils/clusternodemanager.go:80-86 | An entry with two colons is skipped without a port check, and when no entry survives there is no manager and no error |
| NetUtils.HostPortEntry | netutils/clusternodemanager.go:57-67 | host:port with no other colon passes the split check and its port piece is port |
| NetUtils.ClusterNodeManager.constructor | netutils/clusternodemanager.go:49-54 | The struct literal: empty lists, the given interval, counter 0 |
| NetUtils.ClusterNodeManager.Random | netutils/clusternodemanager.go:98-108 | Fails with ErrNoValidNode iff the available list is empty, and then leaves the counter alone. Otherwise the counter advances by one with uint64 wrap, and the entry at the new counter modulo the list length is returned. That entry is always a member of the available list |
| NetUtils.ClusterNodeManager.RandomRound | netutils/clusternodemanager.go:98-108 | As many Random calls as there are available entries: the k-th returns the entry at the counter's position after k + 1 increments, the counter ends len increments on, and when the counter does not wrap during the round every available entry is returned |
| NetUtils.Next | netutils/clusternodemanager.go:103 | The atomic increment: one more than the counter, 0 after 2^64-1 |
| NetUtils.RobinIndex | netutils/clusternodemanager.go:107 | The picked position is always inside the list |
| NetUtils.RoundRobinCoversAll | netutils/clusternodemanager.go:98-108 | len consecutive selections over an unchanged list of len entries pick every position, each exactly once, when the counter does not wrap during them |
| NetUtils.RoundRobinRepeatsAtWrap | netutils/clusternodemanager.go:103-107 | Across the wrap the guarantee lapses: with 3 entries and the counter at 2^64-2, two successive selections both pick position 0 |
| NetUtils.AdvanceNoWrap | netutils/clusternodemanager.go:103 | Without wrap-around, j increments add exactly j |
| NetUtils.PicksAt | netutils/clusternodemanager.go:103-107 | The i-th of n consecutive selections picks the position of counter + i + 1 |
| NetUtils.ClusterNodeManager.All | netutils/clusternodemanager.go:114-120 | Returns a sequence equal to the configured list and changes nothing |
| NetUtils.ClusterNodeManager.Available | netutils/clusternodemanager.go:125-131 | Returns a sequence equal to the available list and changes nothing |
| NetUtils.ClusterNodeManager.SetBrokenNodes | netutils/clusternodemanager.go:195-209 | Only the first occurrence of the node leaves the available list; the others keep their order. The node is appended to the broken list even when it was not available. The pool invariant is kept when the node was available |
| NetUtils.ClusterNodeManager.SetAvailableNodes | netutils/clusternodemanager.go:211-225 | The mirror image: the first occurrence leaves the broken list, and the node is always appended to the available list |
| NetUtils.ClusterNodeManager.CheckAvailableNodes | netutils/clusternodemanager.go:169-180 | Over a snapshot of the available list: the available list becomes its reachable entries in order; its unreachable entries are appended to the broken list in order; the pool invariant is kept |
| NetUtils.ClusterNodeManager.CheckBrokenNodes | netutils/clusternodemanager.go:182-193 | Over a snapshot of the broken list: the broken list becomes its unreachable entries; its reachable entries are appended to the available list; the pool invariant is kept |
| NetUtils.ClusterNodeManager.HeartTick | netutils/clusternodemanager.go:149-150 | One health cycle: the available pass, then the broken pass over the broken list as the first pass left it. Both lists are given in closed form, and the pool invariant is kept, so the multiset of the two lists is unchanged |
| NetUtils.MoveKeepsPartition | netutils/clusternodemanager.go:195-225 | Moving one present node from one list to the other keeps the multiset partition |
| NodeLists.SteadyProbeCycle | netutils/clusternodemanager.go:169-193 | With the same probe answers in both passes: available = (old available filtered by reachable) ++ (old broken filtered by reachable); broken = (old broken filtered by unreachable) ++ (old available filtered by unreachable). Every available entry is then reachable and every broken one is not |
| NodeLists.DemotedEntryReprobed | netutils/clusternodemanager.go:149-150 | An entry demoted by the first pass is probed again by the second, and is available at the end if that probe succeeds |
| NodeLists.SelectMembers | netutils/clusternodemanager.go:175-179 | An entry is kept by the filter iff it is in the list and the probe gives the wanted answer |
| NodeLists.SelectPartition | netutils/clusternodemanager.go:175-192 | The reachable and unreachable parts of a list together hold exactly its entries, as a multiset |
| NodeLists.SelectAppend | netutils/clusternodemanager.go:175-192 | Filtering a concatenation filters each part |
| NodeLists.SelectTwice | netutils/clusternodemanager.go:188-192 | Filtering an already filtered list with the same answer changes nothing; with the opposite answer it leaves nothing |
| NodeLists.RemoveFirstAt | netutils/clusternodemanager.go:198-205 | When i is the first index holding x, removing the first x drops exactly index i |
| NodeLists.RemoveFirstMultiset | netutils/clusternodemanager.go:198-205 | Removing the first occurrence takes exactly one copy of the node out of the multiset and shortens the list by one; an absent node leaves the list unchanged |
| NodeLists.RemoveFirstAfter | netutils/clusternodemanager.go:198-205 | When x is not in a, removing the first x from a ++ b leaves a and removes it from b |
| NodeLists.PassStep | netutils/clusternodemanager.go:175-192 | One iteration of a check pass moves the snapshot's next entry to the list its probe answer selects |
| NodeLists.SelectStep | netutils/clusternodemanager.go:175-192 | Filtering one more snapshot entry appends it to the filtered list iff its answer is the wanted one; otherwise removing its first occurrence from the working list takes exactly it out |
| GoText.Split | netutils/clusternodemanager.go:57 | strings.Split on ":" always gives at least one piece |
| GoText.SplitCount | netutils/clusternodemanager.go:57-58 | The number of pieces is the number of colons plus one |
| GoText.SplitPiecesHaveNoColon | netutils/clusternodemanager.go:57 | No piece contains a colon |
| GoText.JoinSplit | netutils/clusternodemanager.go:57 | Joining the pieces with colons rebuilds the entry |
| GoText.SplitNoColon | netutils/clusternodemanager.go:57 | A string without a colon is one piece |
| GoText.SplitAtFirstColon | netutils/clusternodemanager.go:57 | The first colon ends the first piece, and the rest is split on its own |
| GoText.HostPortShape | netutils/clusternodemanager.go:57-67 | An entry gives two pieces iff it has exactly one colon, and then it is host ":" port with no colon in either |
| GoText.ParseUint16 | netutils/clusternodemanager.go:68 | ParseUint(s, 10, 16): the empty string is a syntax error, and an accepted value never exceeds 65535 |
| GoText.ScanDigits | netutils/clusternodemanager.go:68 | ParseUint's scan from a running value in range: an accepted value is at least that running value and at most 65535 |
| GoText.ParseUint16Accepts | netutils/clusternodemanager.go:68 | ParseUint(s, 10, 16) succeeds iff s is a non-empty digit string whose value is at most 65535, and then it returns that value |
| GoText.ParseUint16OutOfRange | netutils/clusternodemanager.go:68-69 | A digit string above 65535 is a range error, not a syntax error |
| GoText.ScanDigitsValue | netutils/clusternodemanager.go:68 | Over all-digit input, resumed at a prefix whose value is within range, the scan returns the string's decimal value when it is at most 65535 and a range error otherwise |
| GoText.ScanDigitsOnlyDigits | netutils/clusternodemanager.go:68 | A scan that succeeds has read only digits |
| GoText.DecimalValuePrefix | netutils/clusternodemanager.go:68 | A prefix of a digit string never has a larger value than the whole string |
| Types.IntToByte | types/types.go:16-21 | The encoding of every int64 is exactly 8 bytes long |
| Types.ByteToInt | types/types.go:8-14 | Fewer than 8 bytes decode to 0; otherwise the decoded int64's two's-complement pattern is the big-endian value of the first 8 bytes |
| Types.IntToByteLayout | types/types.go:16-21 | Exactly 8 bytes. Byte i is the base-256 digit of weight 256^(7-i) of the two's-complement pattern, so byte 0 is the most significant. A negative input, and only a negative one, has the top bit of byte 0 set |
| Types.ByteToIntIntToByte | types/types.go:8-21 | Decoding an encoding gives back every int64 |
| Types.IntToByteByteToInt | types/types.go:8-21 | Re-encoding a decoded value gives back the first 8 bytes of the input |
| Types.ByteToIntIgnoresTrailing | types/types.go:9-13 | Bytes after the first 8 never change the decoded value |
| Types.ShortInputDecodesToZero | types/types.go:11-13 | Fewer than 8 bytes decode to 0 |
| Types.EncodingExamples | types/types.go:16-21 | -1 encodes as eight 0xFF bytes; 1 as seven zero bytes then 1 |
| Types.FromTwosComplement | types/types.go:11-13 | Reading a 64-bit pattern as int64 inverts the two's-complement mapping |
| Types.TwosComplement | types/types.go:17-19 | The two's-complement pattern of an int64 is below 2^64; it is the value itself for a non-negative value and the value plus 2^64 for a negative one |
| Types.DecodeEncode | types/types.go:12-19 | Reading w big-endian bytes of u < 256^w gives u back |
| Types.EncodeDecode | types/types.go:12-19 | Writing the value of w bytes as w big-endian bytes gives the bytes back |
| Types.BigEndianAt | types/types.go:19 | Byte i of a w-byte big-endian number is its digit of weight 256^(w-1-i) |
| Types.UnsignedBound | types/types.go:12 | The unsigned value of w bytes is below 256^w |

## Left out

- checkSocket (netutils/clusternodemanager.go:227-248): DNS resolution and a TCP dial are network I/O. Each check pass, the health tick and construction take the probe's answers as a parameter `probe: string -> bool`. The probe is therefore a fixed function during a pass: an entry listed twice gets the same answer both times.
- heart and Close (netutils/clusternodemanager.go:136-164): a goroutine, a ticker and a channel. `HeartTick` models one tick (lines 149-150). The loop, its timing and the stop signal are not modelled. In particular, the `break` at line 161 leaves only the `select`, so the loop never ends.
- The three RWMutex locks and `atomic.AddUint64`: the model is sequential, so every field update is a plain assignment. The unlocked length read at line 99 races only under concurrency.
- Every `logger.Log` call: diagnostic output with no effect on state. The `logger` parameter and field, and the `stopCh` field, are not modelled.
- Go slices are modelled as values (`seq<string>`). The aliasing between `append(l, r...)` and the old backing array in setBrokenNodes and setAvailableNodes is not modelled. The checks take a copy first, so that aliasing has no visible effect in the sequential code.
- The `*strconv.NumError` of a bad port is `PortError(port, ErrSyntax | ErrRange)`: the function name field and the error text are not modelled.
- NetUtils.ClusterNodeManager.RandomRound: that every available entry is returned is promised only when the counter does not wrap during the round, for the same reason.
- NetUtils.RoundRobinCoversAll: the fairness of K consecutive selections is proved only when the counter does not wrap within those selections; RoundRobinRepeatsAtWrap shows it fails across the wrap.
- NetUtils.ClusterNodeManager.SetBrokenNodes: the pool invariant is promised only when the node was in the available list. Otherwise the node is appended to the broken list anyway, so the invariant does not hold afterwards. The same goes for NetUtils.ClusterNodeManager.SetAvailableNodes. Both check passes only move entries taken from the list they remove from.
- The pool invariant is stated as a multiset partition, not as disjoint lists. The code keeps duplicate entries, so an entry listed twice can sit once in each list.
- NetUtils.NewClusterNodeManager returns a nil manager with a nil error when no entry survives, as the code does (line 85). It is not an error.
- Construction runs only the available pass before returning (line 90). Entries it finds unreachable start out in the broken list.
- Types: Go's `int` is taken to be 64 bits wide, so the `int64(num)` and `int(data)` conversions are identities on the int64 range. The `bytes.Buffer` is replaced by sequence expressions. The discarded error of `binary.Read` is modelled by its effect: the result stays 0.
- netutils/urlendecode.go (reflection and JSON), netutils/longpolling.go (an HTTP polling loop), osutils/fs.go (file system calls) and log/logging.go (printing) are not part of this model.
