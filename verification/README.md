# Models of the network tools

This project models the parts of the repository whose correctness is not visible from one function
body, and proves what they promise:

- `Khash.dfy` (with `Words`, `KhashRound`, `KhashProbe`, `KhashFlags`, `KhashLayout`): the khash
  open-addressing table embedded in ConfCli.c, with its packed 2-bit flags, triangular probing,
  tombstones and in-place kick-out rehash, as a class over arrays.
- `LogSession.dfy`, `LogProtocol.dfy`, `LogRuns.dfy`, `LogHazards.dfy`: the double-buffer log writer of
  logCollectSrv.c (logServer.c holds the same protocol). `LogSession.Session` carries out each lock
  section in place on the memory block; `LogProtocol` interleaves the two threads as a transition
  system; `LogRuns` holds the theorems about whole runs.
- `Toeplitz.dfy`: the Toeplitz hash of toeplitz_hash.c.
- `DnsName.dfy`: the DNS name encoder and decoder of dnsq.c (sections 3.1 and 4.1.4 of RFC 1035).
- `Checksum.dfy`: the Internet checksum of batchping.c, liveping.c and sbping.c (sections 1 and 2(B)
  of RFC 1071).
- `JobRunner.dfy`, `IpBitmap.dfy`, `LineReader.dfy`, `DevIdIter.dfy`: the bounded-parallel job runner, the
  IPv4 bitmap, line reassembly in ConfCli.c and the descriptor iterator of disklist.c.

`dafny verify dfyconfig.toml` checks everything.

## Assumptions

**Table.** The hash is an arbitrary function of the key, key equality is equality, allocation succeeds.
Bucket counts and probe arithmetic are 32-bit and wrap as in C. The bound `n * 0.77 + 0.5` is
`(77 n + 50) / 100`, the same for the powers of two it is applied to. `kh_put` has one precondition,
`CanGrow`: it does not have to double a table of 2^31 buckets, for which the request `n + 1` rounds to 0.
`hide` statements in method bodies only keep definitions from the solver.

**Log writer.** A step is one lock section, one unlocked test of shared fields, or one append (an append
together with the test that lets it go ahead). `write(2)` takes the whole buffer: the loop at
logCollectSrv.c:1026-1037 does not advance `buf`. The session has a slot, and its average rate stays
below 256 KiB/s, so that the read size stays 4 KiB and enlarging stops at 128 KiB. The two clock
comparisons and the outcome of `calloc` are arbitrary at every step. Closing is one step too, although the
code tests `membuf_offset` before it takes the lock and sets `in_delete_stage` after releasing it
(logCollectSrv.c:499 and 543): what the disk thread might do in between is not modelled. Three places in the code act on
something seen earlier without looking again; the model keeps all three as the code has them and calls a
run *guarded* when what they take for granted holds:

1. the lock section of `pass2write` takes the buffer, found full before the lock, to be non-empty;
2. after the spin on a write in progress it takes the disk buffer to be free;
3. closing takes the disk thread not to be past the claim of a buffer in its current visit, if there is
   unwritten data.

`GuardsAreExact` shows that each guard is exactly what keeps the invariant, `CloseDrainsIff` that the
third decides whether a closed session's data all reaches its file, and `LogHazards` gives concrete runs
in which each of them fails.

**Where the code does not do what one would expect of it.** Beside those three: if a newline-free run of
1023 bytes and one byte more are followed anywhere by a newline, the lines handed to the parser depend on
how the reads cut the stream, and only then (`SameLinesIff`); a byte of 192 or more inside a label is
decoded as a pointer, and a name of more than 255 bytes, spelled out or put together by pointers, is stored
past the 256 bytes allocated for it (`ReadsBackIff`, `Collect`, `LongNameOverflows`); pointers that lead back
to a position already scanned are followed for ever (`ScanEndsIff`); blocks of 2 and 4 addresses are set
wrongly, because `pos & 0x07 + k` groups as `pos & (0x07 + k)` (`SmallBlockIff`); an address with a prefix
length is filled from the address's own byte and not from the start of the prefix, so that 10.0.0.9/24 sets
10.0.0.8 to 10.0.1.7 (`PrefixIff`, `PrefixMissed`); the iterator reports an empty page as an abnormal end,
unless it is started below -3 (`Iterate`).

## Model

| member | source | states |
|---|---|---|
| KhashRound.RoundUpSpec | ConfCli.c:203 | the or-and-shift macro yields the least power of two that is at least x for x from 1 to 2^31, and 0 for 0 and above 2^31 |
| KhashProbe.ProbeNext | ConfCli.c:264 | one 32-bit masked increment is the next triangular probe, even where the addition wraps |
| KhashProbe.ProbeEqual | ConfCli.c:260-267 | the a-th and b-th probes coincide exactly when 2n divides b - a or a + b + 1 |
| KhashProbe.ProbesDistinct | ConfCli.c:78-80 | the first n probes hit pairwise different buckets |
| KhashProbe.ProbesCover | ConfCli.c:78-80 | the first n probes reach every bucket, as the release note claims |
| KhashProbe.FirstReturn | ConfCli.c:263-266 | the probe is first back at its start at step 2n - 1 and not before |
| KhashProbe.WrapMeansAllExamined | ConfCli.c:265 | the `i == last` exit can be taken only after every bucket has been examined |
| KhashFlags.FlagArray.SetDeleted | ConfCli.c:198 | the packed update changes the two bits of one bucket and of no other |
| KhashFlags.FlagArray.Occupy | ConfCli.c:196 | the same for clearing the empty bit |
| KhashFlags.FlagArray.SetLive | ConfCli.c:197 | the same for clearing both bits |
| KhashFlags.FlagArray.Clear | ConfCli.c:253 | the memset makes every bucket empty |
| KhashFlags.FlagArray.IsEmpty | ConfCli.c:192 | the packed test answers whether the bucket is empty |
| KhashFlags.FlagArray.IsEither | ConfCli.c:194 | the packed test answers whether the bucket holds no entry |
| KhashLayout.ScanMisses | ConfCli.c:263-268 | a scan that meets an empty bucket without meeting the key proves the key absent, tombstones notwithstanding |
| KhashLayout.EmptyAhead | ConfCli.c:308 | with fewer occupied buckets than buckets every probe sequence meets an empty one within n steps |
| KhashLayout.SplitTake | ConfCli.c:296-303 | picking up an old live entry keeps: original map = old live + newly placed + the one in hand |
| KhashLayout.SplitKick | ConfCli.c:309-313 | exchanging the entry in hand with the old one in its target bucket keeps that equation, overwrites no live cell and leaves one old entry fewer |
| KhashLayout.SplitPlace | ConfCli.c:314-318 | writing the entry in hand to a bucket with no old entry keeps it too |
| KhashLayout.SplitHasRoom | ConfCli.c:308 | while an entry is in hand the unguarded inner probe has an empty new bucket ahead of it |
| KhashLayout.SplitDone | ConfCli.c:295-329 | once no old bucket is live the placed entries are the original map, and size counts exactly the occupied new buckets |
| KhashLayout.LiveAtMostOccupied | ConfCli.c:226-227 | keys are at most occupied buckets, strictly fewer when there is a tombstone |
| KhashLayout.UpperIsNearest | ConfCli.c:219 | the bound is 0.77 times the number of buckets, to the nearest integer |
| Khash.RoundedSpec | ConfCli.c:276-277 | a request becomes the least power of two that is at least 4 and at least the request; 0 and requests above 2^31 become 4 |
| Khash.RequestsFit | ConfCli.c:337-345 | the two requests of kh_put round to the same and to the double size, and neither can be refused as too small |
| Khash.Table.Counts | ConfCli.c:225-226 | size is the number of keys, and size <= n_occupied <= upper_bound < n_buckets in every non-empty table, upper_bound being 0.77 n_buckets to the nearest integer |
| Khash.Table.Get | ConfCli.c:257-270 | returns a bucket exactly when the key is in the map, and that bucket holds the key and its value |
| Khash.Table.ProbeEmpty | ConfCli.c:306-308 | the inner probe ends at an empty bucket reachable from the key's hash |
| Khash.Table.KickOnce | ConfCli.c:304-319 | one round of the kick-out keeps the rehash equation and lowers the number of old live entries |
| Khash.Table.KickOut | ConfCli.c:304-320 | the kick-out process ends with nothing in hand and the equation kept |
| Khash.Table.Rehash | ConfCli.c:295-322 | the loop over the old buckets ends with the whole map placed under the new flags |
| Khash.Table.ResizeInto | ConfCli.c:280-326 | growing, keeping or shrinking the arrays around the in-place rehash leaves the map as it was |
| Khash.Table.Resize | ConfCli.c:271-333 | the map is unchanged; the request is refused exactly if 100 size + 50 > 77 times its rounded value, and otherwise becomes the size, with the new bound and no tombstones |
| Khash.Table.MakeRoom | ConfCli.c:337-345 | the rehash at the head of kh_put keeps or doubles the size by the code's rule, always succeeds, and leaves n_occupied below the bound |
| Khash.Table.FindSlot | ConfCli.c:346-363 | the key's own bucket if present, otherwise the last tombstone before the first empty bucket on its probe path, or that empty bucket if there is none |
| Khash.Table.Put | ConfCli.c:334-375 | the returned bucket holds the key; the map gains the key exactly if it was absent; `ret` is 1, 2 or 0 for a bucket that was empty, a tombstone or the key's own; n_occupied grows just for 1, and n_buckets by the rule of the rehash |
| Khash.Table.SetValue | ConfCli.c:895 | storing through the returned bucket updates that key and no other |
| Khash.Table.Del | ConfCli.c:376-382 | removes exactly the key of a live bucket and nothing otherwise |
| Khash.Table.Clear | ConfCli.c:250-256 | leaves the empty map and both counters zero |
| Khash.Replay | ConfCli.c:250-382 | any sequence, however long, of stores, deletions, clears and resizes makes of the table what it makes of a finite map, while that map stays below 2^30 keys |
| LogSession.Session.CopyIn | logCollectSrv.c:1722-1724 | the copy to the current half, in place on the block |
| LogSession.Session.SwapBuffers | logCollectSrv.c:1686-1695 | the pointer exchange and the two lengths |
| LogSession.Session.EnlargeSessionBuf | logCollectSrv.c:1377-1466 | 1 for a young session, 2 beyond 128 KiB, -1 without memory, otherwise 0 and the least size that is larger by whole steps of 8 KiB and takes the data and one more read; the enlarged block holds both halves' bytes |
| LogSession.Session.FreeSessionStep2 | logCollectSrv.c:496-544 | what closing sets up, field by field, with and without data and with and without a pending buffer |
| LogSession.Session.Pass2Write | logCollectSrv.c:1610-1733 | an undisturbed pass2write, in place: append, enlarge and append, mark stuck and append, swap and append, or wait |
| LogSession.PassAppends | logCollectSrv.c:1624 | with room for the data and one more read the data is appended and nothing else changes |
| LogSession.PassEnlarges | logCollectSrv.c:1633-1650 | with a buffer waiting a full session is enlarged if it is old enough, memory allows and 128 KiB suffice, and otherwise keeps its block and becomes stuck |
| LogSession.PassHandsOver | logCollectSrv.c:1651-1711 | with none waiting the current half is handed over whole and the data starts the other one, unless a write is in progress |
| LogSession.Session.TimeoutFlush | logCollectSrv.c:1181-1201 | the lock section of the timeout flush: swap unless a buffer is pending or being written |
| LogSession.Session.Write2Disk | logCollectSrv.c:972-1054 | an undisturbed write, both lock sections and the write between them, appends exactly the pending bytes to the file and frees the buffer, or fails with nothing changed |
| LogSession.Session.DiskVisit | logCollectSrv.c:1138-1356 | an undisturbed visit of the disk thread: free, flush, raise the flag, write, queue the rest of the current half for a second pass, or free |
| LogSession.VisitOfClosed | logCollectSrv.c:1151-1159 | a closed session with nothing left is freed at once |
| LogSession.VisitWrites | logCollectSrv.c:1259-1356 | a waiting buffer is appended to the file; then the rest of the current half is queued or the session freed, if it was closed with data |
| LogSession.VisitFlushes | logCollectSrv.c:1180-1247 | a raised flag brings the current half to the file; without it the flag goes up exactly if there is data and the interval has expired |
| LogSession.VisitSkips | logCollectSrv.c:1259-1281 | a waiting buffer of length 0 is left where it is |
| LogRuns.VisitIsSteps | logCollectSrv.c:1138-1356 | the undisturbed visit is the run of the disk thread's own steps |
| LogRuns.PassIsSteps | logCollectSrv.c:1610-1733 | the undisturbed pass2write is the run of the network thread's own steps |
| LogProtocol.StepPreserves | logCollectSrv.c:1106-1373 | every guarded step of either thread keeps the invariant and stores within the buffer |
| LogProtocol.LockPreserves | logCollectSrv.c:1626-1717 | the lock section of pass2write, in all its branches, keeps the invariant |
| LogProtocol.SpinEndsTheWrite | logCollectSrv.c:1652-1661 | the spin is left only after the write it waited for |
| LogProtocol.DiskPreserves | logCollectSrv.c:1138-1356 | every step of the disk thread's visit keeps the invariant, with appends falling anywhere between them |
| LogRuns.ReachableStates | logCollectSrv.c:1610-1733 | in every state of every guarded run: file ++ claimed ++ pending ++ current ++ in hand is what was received; nothing was stored past the buffer; a pending buffer is never empty and never coexists with a write; the current half is the third one |
| LogRuns.FreedMeansWritten | logCollectSrv.c:1151-1159 | a session is freed only with everything received in its file, in order |
| LogRuns.EnlargeIsSafe | logCollectSrv.c:1377-1466 | enlarging never happens under a write, keeps both halves' bytes, and makes the append fit |
| LogRuns.StuckStep | logCollectSrv.c:1760-1768 | a stuck session reads nothing, and each disk-thread step brings its release nearer |
| LogRuns.BackPressureClears | logCollectSrv.c:1047-1049 | a stuck session is released within twelve steps of the disk thread, whatever the clock says |
| LogRuns.QuietSessionIsWritten | logCollectSrv.c:1180-1247 | if nothing more arrives, a run of visits brings everything received to the file if and only if the interval expires where it is needed: nowhere for a buffer already waiting or a flush already due, at a visit before the last for data in the current half, and after the first visit if there are both |
| LogRuns.ExpiryInTheMiddle | logCollectSrv.c:1228-1247 | so any run of visits in which one that is neither the first nor the last finds the interval expired brings everything to the file |
| LogRuns.ExpiryHelps | logCollectSrv.c:1138-1356 | no step of either thread on an open session puts off the write of bytes already stored, and every expiry found brings it nearer |
| LogRuns.StoredGetsWritten | logCollectSrv.c:1138-1356 | in every guarded run without a close, everything stored at its start is in the file, in order, once the disk thread has found the interval expired three times and ended its visit, whatever is appended, swapped and enlarged in between |
| LogRuns.TeardownEnds | logCollectSrv.c:1331-1356 | the disk thread alone frees every closed session within a bound, in one pass or two |
| LogRuns.CloseDrainsIff | logCollectSrv.c:496-544 | the file of a closed session ends as exactly what was received if and only if its current half was empty or the disk thread was not past a claim |
| LogRuns.GuardsAreExact | logCollectSrv.c:1652-1661 | a step from an invariant state keeps the invariant if and only if its guard holds |
| LogRuns.WedgedForever | logCollectSrv.c:1267-1281 | once an empty buffer has been handed over, no run without a close writes anything again, nor stores past the buffer |
| LogRuns.ClosedWhileWedged | logCollectSrv.c:496-544 | closing such a session between visits frees it if and only if its current half is empty; otherwise it is never freed and its data never written |
| LogRuns.BlindResumeBreaks | logCollectSrv.c:1652-1695 | swapping after the spin without its guard drops the pending bytes, reuses the half being written, or leaves an empty buffer that wedges the session: at once if there was nothing to hand over, with the bytes handed over lost if a write was just ending |
| LogHazards.StaleLockReachable | logCollectSrv.c:1624-1626 | a run in which the fullness test goes stale and an empty buffer is handed over |
| LogHazards.BlindResumeReachable | logCollectSrv.c:1652-1661 | a run in which a buffer is handed over between the spin and the lock |
| LogHazards.CloseInsideWriteLoses | logCollectSrv.c:500-512 | a run in which a close during a write loses the last byte |
| Toeplitz.ToeplitzHash | toeplitz_hash.c:132-150 | the bit-serial loop returns the xor, over the set data bits p, of the zero-padded key window at bit p |
| Toeplitz.FirstWindowIsWindow | toeplitz_hash.c:139 | the four shifted key bytes are the window at bit 0 |
| Toeplitz.SlideWindow | toeplitz_hash.c:144-146 | one shift with the next key bit slides the window by one |
| Toeplitz.HashBit | toeplitz_hash.c:140-148 | hash bit j is the parity of the p with data bit p and key bit p + j set |
| Toeplitz.HashIsLinear | toeplitz_hash.c:132-150 | the hash of the xor of two inputs is the xor of their hashes |
| Toeplitz.OneBitHash | toeplitz_hash.c:132-150 | with a key of the single bit m, hash bit j is data bit m - j |
| Toeplitz.DportHash | toeplitz_hash.c:40-50 | with rss_hack_dport, 12 bytes hash to the last byte with its bits reversed |
| Toeplitz.DportExample | toeplitz_hash.c:40-50 | the port byte 0x1A hashes to 0x58 |
| Toeplitz.Sip16Hash | toeplitz_hash.c:65-75 | with rss_hack_sip_16 the low four hash bits are the low half of the first byte reversed |
| Toeplitz.HalvesEqual | toeplitz_hash.c:27-37 | with a key of period 16 the two halves of the hash are equal |
| Toeplitz.HashIsSymmetric | toeplitz_hash.c:27-37 | with such a key, permuting the 16-bit words of an even-length input that stays on the key leaves the hash unchanged |
| Toeplitz.FirstBitSum | toeplitz_hash.c:132-150 | data of the first bit alone hashes to the first 32 bits of the key |
| Toeplitz.SymKeyHashes | toeplitz_hash.c:27-37 | with rss_sym_key that is 0x6D5A6D5A |
| Toeplitz.FlowSymmetry | toeplitz_hash.c:202-223 | with rss_sym_key, exchanging addresses and ports leaves the hash unchanged |
| DnsName.ChangetoDnsNameFormat | dnsq.c:399-417 | writes the wire form of the labels of the host name, and appends a dot to the host name |
| DnsName.SplitJoin | dnsq.c:395-398 | cutting a joined name at its dots gives back its labels |
| DnsName.FormsAre | dnsq.c:395-417 | the dotted form puts the byte 46 between labels, the wire form each label's length before it and a zero at the end |
| DnsName.WireExample | dnsq.c:395-398 | the bytes 119 119 119 46 97 98 are encoded as 3 119 119 119 2 97 98 0 |
| DnsName.Collect | dnsq.c:309-346 | with strictly backward pointers the scan ends; it stays within the buffer if and only if the expanded name is shorter, and then collects it and counts the bytes at the original place |
| DnsName.ScanEndsIff | dnsq.c:322-343 | for any pointers, the scan ends, within as many rounds as the message has bytes, if and only if it never comes back to a position |
| DnsName.BackwardEnds | dnsq.c:322-343 | strictly backward pointers lead it to a zero byte of the message |
| DnsName.SelfPointerLoops | dnsq.c:325-330 | a pointer to itself is followed for ever |
| DnsName.Convert | dnsq.c:348-360 | the in-place shift turns the length-prefixed labels into the dotted name |
| DnsName.ReadName | dnsq.c:309-361 | stays within its 256 bytes if and only if the labels take at most 255, and then returns the dotted name of the expanded labels, and the bytes the name occupies |
| DnsName.WireReadsBack | dnsq.c:309-361 | an encoded name within the limits expands to its labels wherever it stands and occupies its whole length |
| DnsName.PointerExpands | dnsq.c:325-330 | labels and a pointer to an earlier name expand to both, and occupy the labels and two bytes |
| DnsName.RoundTrip | dnsq.c:309-417 | encoding a host name and decoding the result gives the host name back |
| DnsName.ReadsBackIff | dnsq.c:315-333 | a name of legal labels, anywhere in any message, reads back as itself and within the buffer if and only if no label byte is 192 or more and its wire form has at most 256 bytes |
| DnsName.LongNameOverflows | dnsq.c:315-333 | five labels of 63 bytes are read as 320 bytes into the buffer of 256 |
| DnsName.HighByteMisread | dnsq.c:325-330 | a name behind the header whose label bytes form a valid backward pointer, and what is read instead |
| Checksum.CalcCsum | batchping.c:175-197 | the complement of the sum of the words as a ones'-complement value; 0xFFFF for no bytes, and the values for two bytes in either order |
| Checksum.SumConcat | batchping.c:177-187 | the sum of two stretches is the sum of their sums |
| Checksum.SumOne | batchping.c:177-187 | the sum of one word is the word |
| Checksum.FoldCarries | batchping.c:189-191 | the closing loop brings any sum to its ones'-complement value |
| Checksum.StampedIsValid | batchping.c:214-222 | storing the checksum in the zeroed field makes the receiver's checksum zero |
| Checksum.AlterationSeen | batchping.c:302-312 | changing one word of a valid packet goes unnoticed if and only if it exchanges 0x0000 and 0xFFFF and the packet is not all zero after it |
| Checksum.CsumSwaps | batchping.c:219-221 | byte-swapping every word byte-swaps the checksum |
| Checksum.SameBytesOnEitherMachine | batchping.c:219-222 | machines of either byte order store the same two bytes |
| Checksum.Stamp | batchping.c:214-222 | the stamped packet passes the test on receivers of either byte order, and nothing else in it changed |
| Checksum.Accept | batchping.c:302-312 | a packet is taken exactly when its words sum to a positive multiple of 65535 |
| JobRunner.Runner.StupidMapAdd | ParallelExecRemote.c:68-87 | fills the first free slot, and fails only if there is none |
| JobRunner.Runner.StupidMapRemove | ParallelExecRemote.c:91-111 | frees the first slot with the key and returns its value, and fails only if no slot has the key |
| JobRunner.RunningCount | ParallelExecRemote.c:323-330 | as many children run as slots are taken, so there is a free slot below the limit |
| JobRunner.Runner.Start | ParallelExecRemote.c:444-452 | the initial fill starts min(parallel_num, total) children, each in its own slot |
| JobRunner.Runner.Launch | ParallelExecRemote.c:326-329 | a new child always finds a slot and gets the next address |
| JobRunner.Runner.Reap | ParallelExecRemote.c:227-252 | an exited child is always found, and its address is reported |
| JobRunner.Runner.Refill | ParallelExecRemote.c:323-330 | afterwards alive = min(parallel_num, total - exited) |
| JobRunner.Runner.CoreProcess | ParallelExecRemote.c:187-333 | whichever children exit and in whatever order, the run ends with every address reported exactly once |
| IpBitmap.BitmapOps | IPParserWithBitMap:67-88 | a set or clear changes the bit of one address and no other; a query is non-zero exactly for a member |
| IpBitmap.MemberIsBit | IPParserWithBitMap:71-85 | address a is bit a mod 8, from the least significant one, of byte a / 8 |
| IpBitmap.BitmapOpsBatch | IPParserWithBitMap:96-157 | what each exponent from 0 to 30 updates, including what the branches for 2 and 4 addresses really touch |
| IpBitmap.SmallBlockIff | IPParserWithBitMap:120-150 | an aligned block of 2 or 4 comes out right if and only if its other addresses, and the byte's first one when it is touched, already had the value |
| IpBitmap.PairOnClearedMap | IPParserWithBitMap:120-131 | any aligned pair added to a cleared map comes out without its second address |
| IpBitmap.UpdateIsUnique | IPParserWithBitMap:152-156 | filling bytes and looping over single bits give the same bytes |
| IpBitmap.FillByBits | IPParserWithBitMap:67-88 | the loop of single-bit operations updates exactly the block |
| IpBitmap.Replay | IPParserWithBitMap:96-157 | after any sequence of updates with exponents 0 to 30 an address is set exactly when the last update covering it set it |
| IpBitmap.RegularCovers | IPParserWithBitMap:90-95 | an aligned update, but for blocks of 2 and 4, covers exactly its 2^bits addresses |
| IpBitmap.HitIpSet | IPParserWithBitMap:169-201 | answers whether the address is in the set |
| IpBitmap.AddPrefix | IPParserWithBitMap:205-236 | what each prefix length from 2 to 32 adds; exactly the prefix, for every address from which the code reaches it |
| IpBitmap.PrefixIff | IPParserWithBitMap:205-236 | which those are: an update covers just the prefix if and only if the address lies in the prefix's first byte; for pairs and fours, if it is 1 or 3 modulo 16 |
| IpBitmap.PrefixMissed | IPParserWithBitMap:226-228 | 10.0.0.9/24 covers 10.0.0.8 to 10.0.1.7 |
| IpBitmap.AddAddress | IPParserWithBitMap:238-246 | an address without a prefix length is added, and no other |
| IpBitmap.ShiftValues | IPParserWithBitMap:124-144 | what the shift counts come to as C groups them: pos & 8, pos & 9 and pos & 10 in place of the next three bits |
| LineReader.Reader.ProcessContent | ConfCli.c:921-946 | one call on the buffer, in place, including the early exit that leaves the buffer uncleared |
| LineReader.CStringIsPrefix | ConfCli.c:929 | the parser reads the buffer up to its first zero byte |
| LineReader.TextArrives | ConfCli.c:921-946 | the lines of a text of zero-free lines below 1023 bytes reach the parser as they stand, with their newlines, in order, however the text is cut |
| LineReader.ProcessMeans | ConfCli.c:921-946 | a chunk is taken whole exactly when no line in it reaches 1023 bytes, and then the state holds the parse of the longer stream |
| LineReader.Reader.ProcessChunks | ConfCli.c:1023-1034 | the reads of worker_thread, whatever they return: whether some call fails, and if none does the lines handed over, depend on the stream and not on its chunks |
| LineReader.FitsMeansShortLines | ConfCli.c:923 | a stream is taken without error exactly when no newline-free run of 1023 bytes has a byte after it |
| LineReader.SameLinesIff | ConfCli.c:921-946 | the lines handed over are the same for all ways of cutting a stream into reads of up to 1024 bytes, errors ignored as worker_thread does, if and only if no newline follows a newline-free run of 1023 bytes and one byte more |
| LineReader.LinesBeforeCut | ConfCli.c:921-946 | and then, for reads of any size, they are the lines before the place where a line got too long |
| LineReader.LongLineDependsOnChunks | ConfCli.c:937-945 | the smallest case: one way of reading 1025 bytes hands over nothing, another one string, which the stale buffer makes 1023 bytes of an empty line |
| DevIdIter.Iter | disklist.c:1866-1890 | one call returns the first matching descriptor after the position, whose fields are those wanted, or the right end code |
| DevIdIter.MatchesMeans | disklist.c:1877-1885 | which bits are meant: the low half of byte 0 is the code set, bits 4 and 5 of byte 1 the association and its low half the designator type |
| DevIdIter.Iterate | disklist.c:1855-1890 | repeated calls from any negative start return exactly the matching descriptors in order, and end with -1 exactly when the descriptors tile the page and the page is not empty or the start below -3 |
| DevIdIter.MatchingIsFilter | disklist.c:1874-1886 | the matching list is the descriptor chain filtered by the three fields, given by their bits |
| DevIdIter.MatchingInOrder | disklist.c:1871 | the positions returned strictly increase |
| DevIdIter.ChainEndIsTotal | disklist.c:1872 | the chain ends where the descriptors' lengths add up to |

## Left out

- LogSession.Session.EnlargeSessionBuf: the growth of the read size and the limits above 128 KiB for sessions
  averaging 256 KiB/s or more (logCollectSrv.c:1396-1421), by the rate assumption.
- IpBitmap.BitmapOpsBatch: exponents 31 and above, whose shift of a plain int is not defined by C.
- IpBitmap.AddPrefix: parsing of the address text, and prefix lengths below 2 or above 32, for the same reason.
- DnsName.ReadName: the root name, for which the C code writes in front of its buffer; what a store past the
  buffer does, for names of more than 255 bytes; names whose length bytes do not match their labels, on which
  the conversion reads bytes never written; and what is collected over pointers that end but do not lead
  strictly backward.
- Khash.Table.SetValue: `parse_single_line` around the table (ConfCli.c:860-917); its update branch assigns only a local.
- JobRunner.Runner.CoreProcess: fork, exec, pipes and epoll; which child exits next is arbitrary.
- The FIX_LOG_FILE variant of `pass2write`, which discards data by design, and the forced disconnect at
  logCollectSrv.c:1144-1148, which the source itself calls unsafe.
- File naming, rotation and size limits of the log files: the file is a growing byte sequence.
- Data races inside one step of the log writer, such as a flush between an append's test and its copy.
- Allocation failure in khash, and the string and integer hash functions.
- `softrss`, the printing copy of the Toeplitz hash, and its duplicate in IPParserWithBitMap.
- Echo packet layout, timing and sockets in the ping tools; the division of records among workers.
- Resource-record parsing and printing in dnsq.c.
- The servers, UDP forwarders, Java client, disk tools and benchmarks of the repository.
