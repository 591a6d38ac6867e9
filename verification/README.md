# Slurm: Hilbert transform, PMI-2 client, PMI-1 keyval space

A Dafny model of five pieces of Slurm that carry real algorithms or protocols, with proofs
of what they are for.

**The Hilbert transform** (`contribs/skilling.c`: `Bits`, `HilbertCurve`, `HilbertWords`,
`Skilling`). John Skilling's two in-place routines turn the coordinates of a node in an
n-dimensional cube into the bits of its position on a Hilbert curve and back. The routines
are methods on an array. `HilbertCurve` defines the curve independently of them, by
recursion on whole sub-cubes, and proves it to be a bijection whose neighbours are
neighbours. The methods are then proved to compute that curve, so the round trip, the
adjacency of consecutive indices, the locality bound and the agreement of coarse and fine
grids hold of the code, for every dimension and every number of bits.

**The PMI-2 wire format and client** (`contribs/pmi2`: `Pmi2Format`, `Pmi2Api`, `Pmi2Spawn`,
`Pmi2Util`). A command is a six-byte length, `cmd=name;` and escaped `key=value;` pairs.
`Pmi2Format` gives the format as functions; `Pmi2Api` has the code, which writes into a
fixed buffer, un-escapes in place, counts semicolons before it parses, and reads and writes
a channel that may move any number of bytes at a time. `Pmi2Spawn` is the flattening of a
spawn request into pairs, and of the receiver that takes them apart
(`src/plugins/mpi/pmi2/client.c`); `Pmi2Util` is the buffered line reader.

**The PMI-1 keyval space** (`contribs/pmi/pmi.c`, `src/api/pmi_server.c`: `PmiStore`,
`PmiClient`, `PmiServer`, `PmiSystem`, `PmiCounts`). A rank puts pairs into its own table, commits them to
srun, and after a barrier sees the pairs of all ranks. `PmiStore` is one table as a value,
`PmiClient` the library's parallel arrays and methods, `PmiServer` the merging and the
barrier in srun. `PmiSystem` lets n ranks and the server take these steps in any
interleaving and proves, over every run, exactly when a pair is visible where; `PmiCounts`
proves how often.

**Will-run sorting** (`src/api/allocate.c`: `WillRun`) picks the cluster of a federation on
which a job would start first. **The hostfile reader** (same file: `Hostfile`) expands lines
of names with repeat counts.

`CText` holds decimal text, `atoi` and C strings. A `char` stands for a byte and a `nat` below
2^b for a word of b bits; the routines of `skilling.c` shift signed ints, so their b is at most 30.

## Properties that do not hold

Where the code falls short of what its comments or callers suggest, the model keeps the code,
shows a concrete input, and gives the exact condition. What C leaves undefined has a result of
its own in the model (`Undefined`, `Overrun`), so that these cases are part of the contracts.

- A command whose name holds `;`, or with a key that holds `=` or NUL, begins with `;` or holds
  a `;` that is not doubled, does not survive the wire. A single `;` in a key makes the reader
  count a slot that it never fills and then looks at:
  `Pmi2Format.EqualsInKeyLost`, `Pmi2Format.SemicolonKeyUndefined`,
  `Pmi2Format.ReadWrittenFrameIff`.
- The writer does not look at the room left while it writes a value:
  `Pmi2Api.ValuesOverrun`, `Pmi2Api.OverrunIff`.
- A spawn request without commands loses whether it had info pairs, and the receiver refuses
  it unless at least two pairs are put beforehand: `Pmi2Spawn.InfoFlagLost`,
  `Pmi2Spawn.SpawnPairsDistinguish`, `Pmi2Spawn.ParseSpawnIff`.
- `PMI_KVS_Iter_first` compares the index of the record, not of the key, with the number of
  keys. It misses records, and reads past one whose pairs are all hidden:
  `PmiClient.IterFirstMissesSecond`, `PmiClient.IterFirstLosesPair`,
  `PmiClient.HiddenTableOverruns`, `PmiClient.IterFirstIff`.
- `PMI_KVS_Get` compares the length of the buffer as an unsigned number:
  `PmiClient.EmptyBufferAccepted`, `PmiClient.ShortBufferRefusedIff`.
- A commit reorders a table, which changes what `PMI_KVS_Get` finds when one key was put with
  two values: `PmiStore.CompactCanChangeGet`, `PmiStore.CompactCanTurnGet`,
  `PmiStore.CompactKeepsGetIff`. The note at `contribs/pmi/pmi.c:1113-1119` forbids that use.
- A rank's own copies are hidden to keep duplicated keys out of the iteration
  (`contribs/pmi/pmi.c:1984-1988`), but its next commit sends them again:
  `PmiCounts.SecondCommitDuplicates`, `PmiCounts.NoDuplicateIff`.
- With duplicate checking, a process is never shown a key of its own again after the next
  barrier, although the barrier delivers it: `PmiStore.DupModeHidesOwn`,
  `PmiStore.DupModeShownIff`.
- The stored index of an iteration has 16 bits, and the caller's loop has no end when a pair at
  index 65535 or beyond is visible: `PmiClient.LargeTableLoops`, `PmiClient.IterationEndsIff`.
- A request with a rank that is too large is refused, but can leave an open barrier behind:
  `PmiServer.RefusedOpens`, `PmiServer.RefusedKeepsIff`.
- A request with the port 0, which marks a rank that has not arrived, upsets the count:
  `PmiServer.ZeroPortCompletes`, `PmiServer.ArriveCountsIff`.
- The will-run comparator is not antisymmetric on two tied responses of the local cluster:
  `WillRun.LocalTie`, `WillRun.CompareIff`. Responses of distinct clusters are never both local.
- With a limit of 0, which `--nodefile` passes, a hostfile's repeated hosts are dropped, and
  each takes bytes off the size of the result until the whole file is lost:
  `Hostfile.ZeroLimitDropsRepeats`, `Hostfile.ZeroLimitLosesFile`, `Hostfile.ZeroLimitIff`,
  `Hostfile.ZeroLimitPlainIff`.

## Model

| member | source | states |
|---|---|---|
| `Skilling.TransposeToAxes` | contribs/skilling.c:37-61 | in place, an array holding the bits of an index becomes the coordinates of that index on the recursively defined curve, for every dimension and number of bits |
| `Skilling.AxesToTranspose` | contribs/skilling.c:62-89 | in place, coordinates become words whose interleaved bits are the position of the point on the recursively defined curve, and they stay within b bits |
| `Skilling.AxesRoundTrip` | contribs/skilling.c:37-89 | coordinates to index and back gives every point of the cube again |
| `Skilling.TransposeRoundTrip` | contribs/skilling.c:37-89 | index to coordinates and back gives every index again |
| `Skilling.HilbertBijection` | contribs/skilling.c:37-89 | position and point are inverse to each other, both ways, between 0..2^(nb)-1 and the whole cube |
| `Skilling.HilbertAdjacency` | contribs/README:59-69 | points of consecutive indices differ by exactly one in exactly one coordinate |
| `Skilling.HilbertLocality` | contribs/README:63-64 | points are at most as far apart, summed over the axes, as their indices |
| `Skilling.HilbertEnds` | contribs/skilling.c:37-61 | the curve starts at the origin and ends at the far corner of axis 0 |
| `Skilling.HilbertCoarse` | contribs/skilling.c:62-89 | dropping the low m bits of every coordinate drops the low nm bits of the index, and the transpose words lose their low m bits |
| `Skilling.HilbertBlock` | contribs/README:59-69 | the points of one cell of a coarser grid are exactly those with one contiguous range of indices |
| `Skilling.AxesMeaning` | contribs/skilling.c:45-60 | the word operations of the decode and of all stages together give the point of the recursive curve |
| `Skilling.TransposeMeaning` | contribs/skilling.c:70-88 | words that undo the stages and the Gray code interleave to the index of the recursive curve |
| `Skilling.GrayDecodeInPlace` | contribs/skilling.c:45-49 | the backward loop that overwrites its own input computes the decode of the old words |
| `Skilling.StageDown` | contribs/skilling.c:51-60 | one stage of conditional complement and exchange, from the last axis to the first |
| `Skilling.StageUp` | contribs/skilling.c:70-78 | the same stage from the first axis to the last |
| `Skilling.GrayEncodeInPlace` | contribs/skilling.c:80-88 | the forward loop and the correction word compute the encode of the old words |
| `Skilling.CollectShifts` | contribs/skilling.c:84-85 | the doubling loop gives the exclusive or of all b shifts, and that is the inverse of x ^ (x >> 1) |
| `HilbertWords.XorOfShiftsDouble` | contribs/skilling.c:84-85 | one round of doubling turns s shifts into 2s shifts |
| `HilbertWords.XorOfShiftsWide` | contribs/skilling.c:84-85 | overshooting b changes nothing |
| `HilbertWords.GrayWordInverse` | contribs/skilling.c:84-88 | the collected shifts and x ^ (x >> 1) undo each other, both ways |
| `HilbertWords.GrayDecodeEncode` | contribs/skilling.c:45-49 | decode undoes encode on every point |
| `HilbertWords.GrayEncodeDecode` | contribs/skilling.c:80-88 | encode undoes decode on every point |
| `HilbertWords.GrayDecodeIsIntegerGray` | contribs/skilling.c:45-49 | on the interleaved index the word decode is H ^ (H >> 1) |
| `HilbertWords.GrayEncodeIsIntegerInverse` | contribs/skilling.c:80-88 | on the interleaved index the word encode is the exclusive or of all shifts |
| `HilbertWords.WordStepParts` | contribs/skilling.c:56-59 | a step on words complements or exchanges the low bits exactly as the geometric step does, and keeps all bits from Q up |
| `HilbertWords.WordStepInvolution` | contribs/skilling.c:73-77 | a step undoes itself |
| `HilbertWords.WordsDownUp` | contribs/skilling.c:51-78 | the two orders of one stage undo each other |
| `HilbertWords.RedoIsRebuild` | contribs/skilling.c:51-60 | running the stages from low to high bits equals building the point from its sub-cube upward |
| `HilbertWords.RebuildIsCurve` | contribs/skilling.c:45-60 | building from the decoded words gives the recursive curve at the interleaved index |
| `HilbertWords.SamplePacking` | contribs/skilling.c:109-113 | the example's 15-bit packing of three 5-bit words is the interleaving |
| `HilbertWords.DeinterleaveInterleave` | contribs/skilling.c:109-113 | unpacking undoes packing |
| `HilbertWords.InterleaveDeinterleave` | contribs/skilling.c:109-113 | packing undoes unpacking |
| `HilbertCurve.IndexOfPoint` | contribs/skilling.c:62-89 | the recursive index of the recursive point is the index |
| `HilbertCurve.PointOfIndex` | contribs/skilling.c:37-61 | the recursive point of the recursive index is the point |
| `HilbertCurve.CurveAdjacent` | contribs/README:59-69 | the recursive curve moves one step along one axis at a time, within sub-cubes and between them |
| `HilbertCurve.CurveEnds` | contribs/skilling.c:37-61 | where the curve enters and leaves a sub-cube, in either orientation |
| `CText.AtoiIs` | contribs/pmi2/pmi2_api.c:1410 | atoi of white space, a sign and digits is that number, whatever follows the digits |
| `Pmi2Format.ScanEscape` | contribs/pmi2/pmi2_api.c:1286-1307 | un-escaping an escaped value gives the value and stops at its semicolon |
| `Pmi2Format.ScanIsEscape` | contribs/pmi2/pmi2_api.c:1286-1307 | whatever text is scanned, it is the escape of the value found followed by the rest |
| `Pmi2Format.SampleFrame` | contribs/pmi2/pmi2_api.c:1591-1642 | the bytes of one command with an escaped value, written out |
| `Pmi2Format.KeyvalIff` | contribs/pmi2/pmi2_api.c:1264-1314 | a pair is taken from a text if and only if the text is that pair, written, and a rest not beginning with `;`, and the pair is within the limits |
| `Pmi2Format.ParsePairsIff` | contribs/pmi2/pmi2_api.c:1469-1483 | a text without NUL parses to pairs if and only if it is those pairs, written, with keys and lengths the format can carry |
| `Pmi2Format.ParseBodyIff` | contribs/pmi2/pmi2_api.c:1453-1483 | a body without NUL is a command if and only if it is the pair cmd and the command's pairs, written |
| `Pmi2Format.ParseEncodedPairs` | contribs/pmi2/pmi2_api.c:1453-1483 | parsing encoded pairs gives the pairs, in order |
| `Pmi2Format.ParseWrittenBodyIff` | contribs/pmi2/pmi2_api.c:1453-1483 | the parsing pass alone gives a command that fits back if and only if its name has no `;` and no key has `=` or NUL or begins with `;` |
| `Pmi2Format.EqualsInKeyLost` | contribs/pmi2/pmi2_api.c:1273-1284 | a command that fits, with an `=` in a key, is not parsed back to itself |
| `Pmi2Format.CountBoundsPairs` | contribs/pmi2/pmi2_api.c:1433-1451 | for every body, well formed or not, the counting pass allots at least as many slots as the parsing pass fills |
| `Pmi2Format.CountLaws` | contribs/pmi2/pmi2_api.c:1433-1451 | for any text: a single `;` ends a pair, a double one does not, and a text without any is one pair unless it is empty |
| `Pmi2Format.EvenRunsEscaped` | contribs/pmi2/pmi2_api.c:1441-1450 | texts in which every `;` is doubled are exactly the escaped texts |
| `Pmi2Format.CountKeyval` | contribs/pmi2/pmi2_api.c:1433-1451 | a pair adds one to the count if and only if every `;` of its key is doubled, and otherwise more |
| `Pmi2Format.CountWrittenBody` | contribs/pmi2/pmi2_api.c:1433-1451 | for a written body the count is the command plus its pairs if and only if every `;` in a key is doubled |
| `Pmi2Format.ReadWrittenFrameIff` | contribs/pmi2/pmi2_api.c:1354-1508 | a written frame at the head of any stream is received unchanged, leaving exactly the rest, if and only if the name and keys meet the stated condition, the slot count included, and no key is the routing key |
| `Pmi2Format.SemicolonKeyUndefined` | contribs/pmi2/pmi2_api.c:1433-1487 | a key `a;b` fits and parses, and the reader still ends up in a slot it never filled |
| `Pmi2Format.ReadWrittenFramesIff` | contribs/pmi2/pmi2_api.c:1354-1508 | any list of written commands is read back one by one, with nothing of what follows, if and only if each survives by itself |
| `Pmi2Format.SessionWritten` | contribs/pmi2/pmi2_api.c:1393-1508 | a reader hands every command written for another request to that request, whole and in order, and stops right behind its own |
| `Pmi2Format.ReadFrameLength` | contribs/pmi2/pmi2_api.c:1410-1429 | what the number in the header decides: undefined below 0, failure at 0 or beyond the bytes there are, else the length of the body |
| `Pmi2Format.TruncatedFrameFails` | contribs/pmi2/pmi2_api.c:1396-1429 | no proper beginning of a written frame is read as a command |
| `Pmi2Format.SameKeyIff` | contribs/pmi2/pmi2_api.c:1167 | two keys match if and only if they have the same bytes up to their end or the limit |
| `Pmi2Format.HasKeyIff` | contribs/pmi2/pmi2_api.c:1162-1173 | for a key below the limit, as all that are looked up are, a match is equality |
| `Pmi2Api.Channel.Read` | contribs/pmi2/pmi2_api.c:1396-1429 | a read takes some non-empty prefix of what is pending, at most what was asked |
| `Pmi2Api.Channel.Write` | contribs/pmi2/pmi2_api.c:1665-1674 | a write appends some non-empty prefix of what it is given |
| `Pmi2Api.ReadExactly` | contribs/pmi2/pmi2_api.c:1396-1429 | the loop over short reads takes exactly the bytes asked for, and fails only when there are not enough, none are asked for, or a read fails |
| `Pmi2Api.CountPass` | contribs/pmi2/pmi2_api.c:1433-1451 | the pointer loop, which looks one byte ahead, counts the undoubled semicolons |
| `Pmi2Api.FindKeyEnd` | contribs/pmi2/pmi2_api.c:1273-1284 | the first `=` within the body, or its end |
| `Pmi2Api.UnescapeInPlace` | contribs/pmi2/pmi2_api.c:1286-1307 | the two-pointer loop over one buffer leaves the un-escaped value where the value was and touches nothing before it or after the scan |
| `Pmi2Api.ParseKeyvalInPlace` | contribs/pmi2/pmi2_api.c:1264-1314 | key, value and remaining text as the format's parser gives them, with the errors for a missing `=`, a missing end and overlong texts |
| `Pmi2Api.ParsePass` | contribs/pmi2/pmi2_api.c:1453-1483 | parsing the whole buffer in place agrees with the format's parser; the slots hold its pairs in front and none is written beyond those counted |
| `Pmi2Api.GetVal` | contribs/pmi2/pmi2_api.c:1162-1173 | the value of the first pair whose key matches, which for a key below the limit is the first with that very key; missing exactly when every slot holds another key; undefined exactly when the search comes to a slot never filled |
| `Pmi2Api.TakeBody` | contribs/pmi2/pmi2_api.c:1433-1487 | the two passes and the search for the routing key give what the format says of the body |
| `Pmi2Api.ReadOne` | contribs/pmi2/pmi2_api.c:1396-1487 | over any chunking of any stream, one turn reads what the format says of the first frame and leaves exactly the rest, or a read fails |
| `Pmi2Api.ReadCommand` | contribs/pmi2/pmi2_api.c:1354-1508 | frames are handed to the requests they name until the reader's own is complete, exactly as the format says of the stream, leaving exactly the rest; a failed read ends this early with nothing wrong handed out |
| `Pmi2Api.SentIffFits` | contribs/pmi2/pmi2_api.c:1591-1642 | the writer's incremental checks pass, inside the buffer, if and only if the whole command fits |
| `Pmi2Api.OverrunIff` | contribs/pmi2/pmi2_api.c:1602-1644 | the writer leaves its buffer if and only if some leading pairs pass every check and are together longer than the room, counting the final NUL |
| `Pmi2Api.OutcomeAt` | contribs/pmi2/pmi2_api.c:1602-1616 | which error a refused command gets: at the first pair that does not pass, the key's length, then the room for it, then the value's length |
| `Pmi2Api.ValuesOverrun` | contribs/pmi2/pmi2_api.c:1617-1626 | 32 values of 1024 semicolons pass every check and leave the buffer |
| `Pmi2Api.PutEscaped` | contribs/pmi2/pmi2_api.c:1617-1626 | the value loop writes the escape at the cursor and nothing else |
| `Pmi2Api.PutBody` | contribs/pmi2/pmi2_api.c:1591-1632 | name and pairs into the buffer behind the header, or the error of the first check that fails, or that the buffer would be left |
| `Pmi2Api.BuildFrame` | contribs/pmi2/pmi2_api.c:1591-1642 | the finished buffer is the frame of the command |
| `Pmi2Api.WriteSimpleCommand` | contribs/pmi2/pmi2_api.c:1560-1674 | over any chunking, success appends exactly the frame, a check that fails appends nothing, and a failed write leaves a proper beginning of the frame |
| `Pmi2Api.SendAndReceive` | contribs/pmi2/pmi2_api.c:1354-1674 | any list of commands that fit and survive the wire by the exact condition is received unchanged and in order at the other end |
| `Pmi2Spawn.TotalIsExact` | contribs/pmi2/pmi2_api.c:446-455 | the slots computed in advance are exactly the pairs that are filled in |
| `Pmi2Spawn.BuildSpawnPairs` | contribs/pmi2/pmi2_api.c:446-495 | the nested loops fill the array to its last slot with the request's pairs |
| `Pmi2Spawn.PutSubcmd` | contribs/pmi2/pmi2_api.c:475-492 | the pairs of one command follow those already there |
| `Pmi2Spawn.PutKeyvals` | contribs/pmi2/pmi2_api.c:468-471 | two pairs per preput or info item, numbered from 0 |
| `Pmi2Spawn.PutArgs` | contribs/pmi2/pmi2_api.c:481-483 | one pair per argument, numbered from 0 |
| `Pmi2Spawn.PutInfo` | contribs/pmi2/pmi2_api.c:485-491 | the info count and pairs, only when the caller gave info arrays |
| `Pmi2Spawn.SampleSpawn` | contribs/pmi2/pmi2_api.c:465-492 | the eleven pairs of one request, written out |
| `Pmi2Spawn.DecodeSpawnPairs` | src/plugins/mpi/pmi2/client.c:255-425 | a decoder that checks every key and every number, as the receiver does, gets the request back |
| `Pmi2Spawn.ParseSpawnIff` | src/plugins/mpi/pmi2/client.c:265-269 | the receiver gets the request back if and only if it has a command or at least two pairs to put beforehand, and refuses all others |
| `Pmi2Spawn.SpawnPairsDistinguish` | contribs/pmi2/pmi2_api.c:465-492 | two requests give the same pairs if and only if they agree on everything but an info flag no command shows |
| `Pmi2Spawn.InfoFlagLost` | contribs/pmi2/pmi2_api.c:485-491 | two different requests without commands give the same pairs |
| `Pmi2Spawn.SpawnOverTheWire` | contribs/pmi2/pmi2_api.c:446-495 | a spawn request that fits is framed, read from any stream and decoded to itself, and with a command the receiver accepts it |
| `Pmi2Util.LineIsShortest` | contribs/pmi2/pmi2_util.c:53-105 | a line is a prefix without an inner newline that stops only at a newline, the limit or the end |
| `Pmi2Util.LinesMakeStream` | contribs/pmi2/pmi2_util.c:53-105 | the lines put together are the stream: no byte is lost or doubled |
| `Pmi2Util.LineReader.Fill` | contribs/pmi2/pmi2_util.c:65-84 | refilling the static buffer keeps the pending bytes and tells the end of the stream and a failed read apart |
| `Pmi2Util.LineReader.NextByte` | contribs/pmi2/pmi2_util.c:64-89 | takes exactly one pending byte, or none |
| `Pmi2Util.LineReader.ReadLine` | contribs/pmi2/pmi2_util.c:53-105 | gives the next line, terminates it, and leaves exactly the rest pending, whatever the chunking; a failed read gives -1 before the first byte and the line so far after it, and loses nothing |
| `Pmi2Util.LineReader.ReadAllLines` | contribs/pmi2/pmi2_util.c:53-105 | repeated calls give all lines, which make up the stream |
| `PmiStore.CompactSpec` | contribs/pmi/pmi.c:1268-1307 | the swap loop permutes the table so that the pairs to send come first, in their old order, and only global ones follow |
| `PmiStore.CompactHolds` | contribs/pmi/pmi.c:1268-1307 | a commit neither loses nor invents a pair |
| `PmiStore.CommittedCarries` | contribs/pmi/pmi.c:1268-1307 | a commit sends exactly the pairs the rank put itself |
| `PmiStore.PutHolds` | contribs/pmi/pmi.c:1137-1213 | a put of a key without another value adds exactly that pair, in both duplicate modes |
| `PmiStore.PutGet` | contribs/pmi/pmi.c:1137-1213 | with the search for duplicates, a get after a put gives the new value for that key and is unchanged for all others |
| `PmiStore.DeliverHolds` | contribs/pmi/pmi.c:666-708 | a barrier adds exactly the delivered pairs and makes the rank own no more |
| `PmiStore.GetFindsHeld` | contribs/pmi/pmi.c:1366-1407 | a get gives only values held, and the value when it is the only one |
| `PmiStore.CompactKeepsGet` | contribs/pmi/pmi.c:1268-1307 | a commit changes no get of a key that has one value, whatever the other keys have |
| `PmiStore.CompactIs` | contribs/pmi/pmi.c:1268-1307 | the table after a commit: the pairs to send in their old order, then the global ones, turned by one for each pair moved past them |
| `PmiStore.CompactKeepsGetIff` | contribs/pmi/pmi.c:1268-1307 | a commit leaves a get alone if and only if the first copy to send has the value of the first copy or, when there is none to send, the first of the turned global copies does |
| `PmiStore.CompactCanChangeGet` | contribs/pmi/pmi.c:1113-1119 | a key delivered and then put with another value changes its get in a commit |
| `PmiStore.CompactCanTurnGet` | contribs/pmi/pmi.c:1268-1307 | a key delivered with two values changes its get in a commit that sends some other key |
| `PmiStore.DupModeRefinesMap` | contribs/pmi/pmi.c:1137-1213 | under every sequence of puts, commits and barriers the table with duplicate search behaves as a map |
| `PmiStore.DupModeState` | contribs/pmi/pmi.c:1149-1174 | under every sequence of puts, commits and barriers with duplicate search, a key is local, disabled, global or absent exactly by whether it was put since the last barrier, ever put, or only delivered |
| `PmiStore.DupModeShownIff` | contribs/pmi/pmi.c:1157-1159 | iteration then shows a key if and only if it was put since the last barrier, or delivered and never put by this process |
| `PmiStore.DupModeHidesOwn` | contribs/pmi/pmi.c:1157-1159 | put, commit and the barrier that delivers the key: it is not shown |
| `PmiStore.FreshBarrierVisible` | contribs/pmi/pmi.c:1982-2000 | after any puts and commits, the first barrier makes the iterator see exactly the delivered pairs, in order |
| `PmiStore.PairsForHas` | contribs/pmi/pmi.c:692-703 | the pairs a message holds for a space are exactly those of its parts with that name |
| `PmiClient.PutInRecord` | contribs/pmi/pmi.c:1144-1207 | the search and the growing of the three parallel arrays, as a put on the table |
| `PmiClient.SwapInRecord` | contribs/pmi/pmi.c:1325-1341 | the three arrays swap together |
| `PmiClient.CompactRecord` | contribs/pmi/pmi.c:1271-1279 | the inner loop of a commit reorders as specified and counts the pairs to send |
| `PmiClient.CommitMessageHas` | contribs/pmi/pmi.c:1268-1307 | a commit sends a part for every live space with pairs of its own, and no other |
| `PmiClient.FindInRecord` | contribs/pmi/pmi.c:1388-1401 | the first pair with the key, or the error for a missing key; what is copied for every length |
| `PmiClient.ShortBufferRefusedIff` | contribs/pmi/pmi.c:1391-1397 | a buffer too short for the value is refused if and only if its length is at least 1 and the value is terminated; the value is copied if and only if it fits and is terminated |
| `PmiClient.EmptyBufferAccepted` | contribs/pmi/pmi.c:1391-1397 | a length of 0 succeeds and copies nothing |
| `PmiClient.IterFirstIff` | contribs/pmi/pmi.c:1438-1488 | whatever records there are, of one name or several: which record decides, and if and only if which condition the iteration starts at a pair, overruns a table, or reports an unknown space |
| `PmiClient.IterFirstMissesSecond` | contribs/pmi/pmi.c:1472-1474 | a second space with one pair cannot be iterated although get finds the pair |
| `PmiClient.IterFirstLosesPair` | contribs/pmi/pmi.c:894-896 | a name asked for twice has two records, and a pair of the first is lost to the iteration though get finds it |
| `PmiClient.HiddenTableOverruns` | contribs/pmi/pmi.c:1472-1485 | a put, a barrier that brings nothing, and an iteration: it reads past the table |
| `PmiClient.IterNextIff` | contribs/pmi/pmi.c:1519-1567 | how a further call ends for any stored index, and what it stores |
| `PmiClient.IterationEndsIff` | contribs/pmi/pmi.c:1519-1567 | an iteration that starts comes to an empty key after some number of calls if and only if no pair at index 65535 or beyond is visible |
| `PmiClient.LargeTableLoops` | contribs/pmi/pmi.c:1543-1561 | a table of 65536 visible pairs never gives an empty key |
| `PmiClient.BarrierOnSpace` | contribs/pmi/pmi.c:666-708 | a barrier over several spaces acts on each one as a delivery of the pairs addressed to it |
| `PmiClient.Process.InitKvs` | contribs/pmi/pmi.c:900-920 | a new empty space after the others |
| `PmiClient.Process.KvsPut` | contribs/pmi/pmi.c:1137-1213 | puts into the first space of that name and no other, or reports an unknown space |
| `PmiClient.Process.PutPair` | contribs/pmi/pmi.c:1121-1135 | the length checks in order, then a local put |
| `PmiClient.Process.Commit` | contribs/pmi/pmi.c:1231-1323 | sends one message part per live space with local pairs and reorders every live table, with each early return |
| `PmiClient.Process.DisableLocalKeys` | contribs/pmi/pmi.c:1982-2000 | every local pair of every space is hidden from the iterator and nothing else changes |
| `PmiClient.Process.Barrier` | contribs/pmi/pmi.c:666-708 | hides local pairs, puts all delivered ones, and reports an unknown space, with each early return |
| `PmiClient.Process.GetPair` | contribs/pmi/pmi.c:1366-1407 | the value in the first live space of that name, with every error code and every buffer length |
| `PmiClient.Process.IterateNext` | contribs/pmi/pmi.c:1519-1567 | the next visible pair after the stored 16-bit index, cut to the buffers, or an empty key at the end |
| `PmiClient.Process.IterateFirst` | contribs/pmi/pmi.c:1438-1488 | the first pair as the code finds it, cut to the buffers, and the stored index |
| `PmiClient.Process.IterateAll` | contribs/pmi/pmi.c:1438-1567 | on every table on which it ends, first and next together give every visible pair once, in order, whenever the iteration starts; when it starts, when it overruns |
| `PmiClient.Process.FirstRound` | contribs/pmi/pmi.c:666-1567 | a fresh space, next to any others, after any puts, commits and its first barrier: an iteration that starts gives exactly the reply's pairs for that space, in order; the exact result from the numbers of spaces, puts and pairs |
| `PmiServer.MergeNamed` | src/api/pmi_server.c:353-390 | the nested loops replace the values of known keys, mark them unsent, and append the others |
| `PmiServer.MergeLookup` | src/api/pmi_server.c:353-390 | with the search for duplicates, a merge is a map update in which the last value of a key wins and is to be sent, and every other key is as before |
| `PmiServer.MasterIsMap` | src/api/pmi_server.c:423-449 | under any commits and barriers the master copy then has every key once, with the value last committed, to be sent exactly when committed since the last barrier |
| `PmiServer.MergeHas` | src/api/pmi_server.c:353-390 | in both modes, a merge of keys without other values adds exactly the pairs received, and none of them becomes sent by it |
| `PmiServer.MoveHas` | src/api/pmi_server.c:392-398 | a new space holds exactly the pairs received, all unsent |
| `PmiServer.DupSpace` | src/api/pmi_server.c:324-335 | copies the pairs not yet sent, in order, and marks all as sent |
| `PmiServer.UnsentHas` | src/api/pmi_server.c:305-338 | every pair held was sent before or is in the copy, and the copy holds no other |
| `PmiServer.UnsentConcat` | src/api/pmi_server.c:324-335 | the copy keeps the order of the master copy |
| `PmiServer.ArrivedAll` | src/api/pmi_server.c:500-516 | the count of arrivals is complete exactly when every rank has arrived |
| `PmiServer.Server.KvsPut` | src/api/pmi_server.c:416-462 | each part of a message is merged into the space of its name or becomes a new one |
| `PmiServer.TakeCommsAt` | src/api/pmi_server.c:439-450 | a message of several parts merges into each space all the pairs it holds for it |
| `PmiServer.Server.KvsGet` | src/api/pmi_server.c:464-527 | the whole new state and outcome for every request; refuses exactly the inconsistent ones |
| `PmiServer.RefusedKeepsIff` | src/api/pmi_server.c:480-503 | a refused request leaves the server as it was if and only if it does not come to an idle server with a rank not below its size |
| `PmiServer.RefusedOpens` | src/api/pmi_server.c:488-505 | a refused request with too large a rank opens a barrier on an idle server, and then every request of another size is refused |
| `PmiServer.ArriveCountsIff` | src/api/pmi_server.c:504-516 | a request that is taken keeps the count equal to the ranks present if and only if its port is not 0; then the barrier completes exactly when all are there, and repeated requests count once |
| `PmiServer.ZeroPortCompletes` | src/api/pmi_server.c:504-516 | a rank with port 0 that asks twice completes a barrier of two alone |
| `PmiServer.Server.CommDup` | src/api/pmi_server.c:305-338 | the reply over all spaces |
| `PmiServer.Agent` | src/api/pmi_server.c:185-260 | every rank whose port is known is reached exactly once, directly or forwarded; no message forwards to more than the fan-out, and only within a host unless allowed; a further message goes to a host only when the earlier ones are full |
| `PmiServer.TakeForwards` | src/api/pmi_server.c:218-237 | the inner loop takes each rank it forwards to out of the list |
| `PmiSystem.PutKeepsInv` | contribs/pmi/pmi.c:1121-1213 | a put by any rank keeps the invariant that ties every table, every message in transit and the master copy to the history |
| `PmiSystem.CommitKeepsInv` | contribs/pmi/pmi.c:1231-1323 | a commit keeps it |
| `PmiSystem.EnterKeepsInv` | src/api/pmi_server.c:464-513 | reaching the barrier before others keeps it |
| `PmiSystem.ReleaseKeepsInv` | src/api/pmi_server.c:514-527 | completing the barrier keeps it, although only pairs not sent before are sent |
| `PmiSystem.DeliverKeepsInv` | contribs/pmi/pmi.c:690-706 | taking the reply keeps it |
| `PmiSystem.RunKeepsInv` | contribs/pmi/pmi.c:666-1323 | it holds after every run of any number of ranks |
| `PmiSystem.VisibleExactly` | contribs/pmi/pmi.c:1366-1407 | after any run, a rank's get gives a value if and only if the rank put it or the pair was committed before a barrier completed whose reply the rank has taken |
| `PmiSystem.OrderDelivers` | contribs/pmi/pmi.c:666-708 | put, commit, barrier completed, reply taken, in that order, suffice for delivery |
| `PmiSystem.DeliveredInOrder` | contribs/pmi/pmi.c:666-708 | every delivery has those four steps before it, in that order |
| `PmiSystem.NotBeforeCommit` | contribs/pmi/pmi.c:1231-1323 | another rank's pair is never visible before its commit and a later barrier |
| `PmiSystem.SameForAll` | contribs/pmi/pmi.c:666-708 | once all ranks are back from the barrier, all get the same value |
| `PmiSystem.CommitIsTheCode` | src/api/pmi_server.c:416-462 | the system's commit is the client's message taken by the server |
| `PmiSystem.BarrierIsTheCode` | src/api/pmi_server.c:305-338 | the system's release and delivery are the server's reply taken by the client |
| `PmiSystem.EnterIsTheCode` | src/api/pmi_server.c:464-527 | reaching the barrier is the server's step: never refused, complete exactly when all ranks wait, and every rank is then sent the server's reply |
| `PmiSystem.StepMirrors` | src/api/pmi_server.c:416-527 | every action keeps the server's spaces, count and ports in step with the ranks |
| `PmiSystem.RunMirrors` | src/api/pmi_server.c:416-527 | in every run, with any reply ports, the system's state is what the messages make of the server's own state |
| `PmiCounts.RunCounts` | contribs/pmi/pmi.c:666-1323 | over every run in the default mode, the copies of a pair in every table, on the way to every rank and unsent at the server are those the commits and barriers of the history account for |
| `PmiCounts.ShownExactly` | contribs/pmi/pmi.c:1982-2000 | after any run the iterator of a rank shows a pair once for its own put until its next barrier, and once for each commit of the pair's rank since the put and before the last barrier returned from |
| `PmiCounts.NoDuplicateIff` | contribs/pmi/pmi.c:1984-1988 | no duplicate is shown if and only if there was at most one such commit; the pair is shown once if and only if the own put is in view or there was one |
| `PmiCounts.SecondCommitDuplicates` | contribs/pmi/pmi.c:1984-1988 | put, then twice commit and barrier: the pair is shown twice |
| `PmiCounts.OneCommitNoDuplicate` | contribs/pmi/pmi.c:1984-1988 | a rank that commits once after its put causes no duplicate in any run |
| `WillRun.CompareIff` | src/api/allocate.c:350-373 | the comparator is antisymmetric and negative exactly for the better response, if and only if the two are not tied and both local |
| `WillRun.LocalTie` | src/api/allocate.c:367-370 | a response of the local cluster comes before itself |
| `WillRun.StrictWeakOrder` | src/api/allocate.c:350-373 | on responses of distinct clusters it is a strict weak order, as qsort demands |
| `WillRun.SortResponses` | src/common/list.c:709-754 | a sorted permutation of the responses |
| `WillRun.LastErrorIs` | src/api/allocate.c:331-348 | the error kept is that of a thread that failed, after which every thread had an answer; without a failure it is 0 |
| `WillRun.FedJobWillRun` | src/api/allocate.c:375-443 | an answer no other is better than, or exactly when no cluster answered the error of the last thread |
| `WillRun.AnyCompletionOrder` | src/api/allocate.c:331-348 | in whatever order the threads finish, the choice is the same up to ties |
| `Hostfile.TokensSplit` | src/api/allocate.c:1335-1355 | tokens do not cross a comma: any text split at a comma has the tokens of both sides, and one without a comma is a token unless empty |
| `Hostfile.ExpandTokenIs` | src/api/allocate.c:1337-1352 | `name*n` stands for n copies of the name for n > 0 and none for n < 0; with 0, no number or no asterisk it is the token itself |
| `Hostfile.ExpandLinesConcat` | src/api/allocate.c:1262-1375 | the hosts of a file are those of its lines in order, up to a bad line |
| `Hostfile.PushToken` | src/api/allocate.c:1336-1353 | the copies of one name, cut to the room left, and the bytes counted for them |
| `Hostfile.ReadLine` | src/api/allocate.c:1334-1362 | the hosts of one line on top of those read, stopping at the limit, and their bytes |
| `Hostfile.ReadHostfile` | src/api/allocate.c:1262-1396 | without a limit every host of the file; with n > 0 the first n, or nothing exactly when there are fewer; with any other n but NO_VAL only the unrepeated ones; and nothing when the text does not fit the size counted in a 32-bit int |
| `Hostfile.SizeGrows` | src/api/allocate.c:1346-1386 | without negative counts and with a limit that is none or positive, the size is at least 1024 until the int overflows |
| `Hostfile.ZeroLimitDropsRepeats` | src/common/slurm_opt.c:5809-5813 | with a limit of 0 the line `a,b*2` gives one host instead of three |
| `Hostfile.ZeroLimitLosesFile` | src/api/allocate.c:1341-1389 | 148 plain hosts and one repeated name of eight bytes give nothing with a limit of 0, even where the count is negative and no limit gives all of them |
| `Hostfile.ZeroLimitIff` | src/common/slurm_opt.c:5809-5813 | for every file, a limit of 0 gives the same as no limit if and only if a line is bad, or both or neither pass the checks on hosts and size and then no count is positive |
| `Hostfile.ZeroLimitPlainIff` | src/common/slurm_opt.c:5809-5813 | a file without negative counts that is read without a limit is read alike with a limit of 0 if and only if it has no counts |

## Left out

- Skilling.TransposeToAxes: coordinates are naturals below 2^b; the C code's signed shifts limit b to 30, a bound the proof does not need.
- Pmi2Api.ReadCommand: the request that the text of a pair `thrid` names is a parameter; the loop that waits for another reader is not modelled.
- Pmi2Api.WriteSimpleCommand: after `Overrun` nothing is said about the channel.
- Pmi2Util.LineReader.ReadAllLines: for a stream whose reads do not fail.
- PmiClient.Process.PutPair: a key or value of exactly the limit length is stored without its terminator; for values this shows in `CopyOut`, for the pairs a commit or an iteration hands on it does not.
- PmiClient.Process.IterateAll: the space is the only live one of its name, and keys are not empty and fit the buffers.
- PmiServer.MasterIsMap: no message has a key twice, which a client with duplicate checking never sends (`PmiStore.DupModeRefinesMap`); the first message of a space is taken over unsearched.
- Pmi2Spawn.ParseSpawnIff: the receiver's further checks of the number of pairs refuse only what runs out of pairs later; counts below 0 are not modelled.
- PmiServer.Agent: threads, sockets and retries are not modelled.
- PmiSystem.VisibleExactly: one keyval space, and each key is put once in a run, as the library demands of its users; the path of the reply through forwarding ranks is `PmiServer.Agent`.
- PmiCounts.ShownExactly: the default mode, in which the tables are not searched for duplicates; with the search `PmiStore.DupModeRefinesMap` has every key once.
- WillRun.SortResponses: an insertion sort stands for qsort; only its contract is used.
- WillRun.FedJobWillRun: which clusters are asked, and the threads that ask them, are parameters.
- Hostfile.ReadHostfile: the length of the ranged text is a parameter; every name is one that the host list takes; comments after `#`, `\#` and lines longer than the buffer are not modelled.
- Names and keys are compared in full, not up to the library's limits, which they are checked against on entry.
- In PMI-1, put ignores whether a space is defunct and get does not; the model keeps this, but destroying a space is not modelled.
- The PMI-2 job, info, name and node-attribute calls, spawn error codes, and the queue of commands read for other threads: they reuse the wire format without new algorithms.
- `PMI_Parse_option` and the remaining PMI-1 queries: argument checks only.
- The rest of `src/api` (RPC wrappers), `contribs/pam`, NSS and the daemons.
- Memory exhaustion, locking and TLS.
