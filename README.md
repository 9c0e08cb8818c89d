# catpc: a verified model of the core

catpc is a prototype cache-partitioning controller built on Intel RDT (pqos). A
*slave* daemon runs on each node. It monitors applications named by their
command lines and answers the *master* daemon's requests for their monitoring
values. The master collects those values into its own application table. An
allocator estimates each application's required last-level-cache size from the
application's miss-rate curve.

This project models three parts of that code and proves properties of each:

- **Estimator** (`estimator.dfy`): `get_required_llc`. It copies the curve into
  `x`/`y`, then runs least-squares fits, dropping the first point each time,
  until the slope test passes or one point is left. Occupancies and miss ratios
  are exact reals. The OLS slope is the closed form: co-deviation over spread.
  `llc_size` wraps modulo 2^32, as the source's `unsigned` does.
- **Process utilities** (`catpc_utils.dfy`):
  - `filter_pids` and `get_num_pids`, as functions.
  - `tree_to_list`, as methods writing a `pids` array in place.
  - the matching kernel of `get_pids_by_cmdline`, as a method. It strips NULs
    into a 1024-character buffer, then collects the matching pids into an array.
  - Trees and the `ps` listing with each process's cmdline file are given as
    data.
- **Wire and daemons**:
  - `wire.dfy`: the opcodes and the monitoring-values frame. Its encoder is the
    slave's sends; its decoder is the master's receives. It holds the round
    trips in both directions and what a truncated frame decodes to.
  - `tables.dfy`: the `unordered_map` application tables and storing records
    into them.
  - `slave.dfy`: class `Daemon`, the slave's opcode dispatch loop over its
    table and its two socket streams.
  - `master.dfy`: class `Session`, the master's `connection_handler`. It sends
    the ADD request, then repeats the GET request and stores each answer's
    records.

Both sockets are reliable byte streams, holding everything the peer will ever
send. A receive of `n` bytes succeeds when `n` bytes remain. Otherwise the peer
has closed: the receive fails and nothing more arrives. Fields travel as the raw
bytes of their C objects, little-endian. The widths are:

| field | bytes |
|---|---|
| `enum catpc_message` | 4 |
| `size_t` | 8 |
| `monitoring_values` | 32, never interpreted |
| `ushort` | 2 |

The opcodes are 0 to 4, as `enum catpc_message` defines them. The slave's
dispatch has no case for REMOVE_APP_TO_MONITOR (4): it falls through to
`default`, which only logs, like any unknown opcode. GET_ALLOCATION_CONF and
PERFORM_ALLOCATION are empty cases. Neither daemon queues events: each runs one
fixed message loop.

Paths below are relative to the repository root.

## Model

| member | source | states |
|---|---|---|
| Bytes.LE | examples/c/CMT_MBM/catpc/master_daemon.cpp:147-150 | an integer's send is exactly `width` bytes, least significant first (also examples/c/CMT_MBM/catpc/slave_daemon.cpp:112-118) |
| Bytes.FromLE | examples/c/CMT_MBM/catpc/master_daemon.cpp:158-162 | an integer's receive reads `width` host-order bytes into a value below 256^width (also examples/c/CMT_MBM/catpc/slave_daemon.cpp, lines 98 and 126) |
| Bytes.FromLEOfLE | examples/c/CMT_MBM/catpc/master_daemon.cpp:158 | an integer below 256^width that was sent is read back as that integer |
| Bytes.LEOfFromLE | examples/c/CMT_MBM/catpc/master_daemon.cpp:158 | the bytes of any received integer are the bytes its send would produce, so no width-byte pattern is lost |
| Wire.EncodeOpcode | examples/c/CMT_MBM/catpc/master_daemon.cpp:156 | an opcode's send is 4 bytes from which the peer reads the same opcode back (the ADD opcode's send at line 147 alike) |
| Wire.EncodeRecords | examples/c/CMT_MBM/catpc/slave_daemon.cpp:113-119 | the per-entry sends of the table; each record adds at least its 42 fixed-width bytes, so the stream grows with every entry sent (its inverse is Wire.DecodeEncodeRecords) |
| Estimator.LlcSize | examples/c/CMT_MBM/catpc/catpc_allocator.cpp:69 | the cache size is the number of caches times the first cache's way count and way size, reduced modulo 2^32; it is exactly that product whenever the product fits 32 bits |
| Estimator.CopyCurve | examples/c/CMT_MBM/catpc/catpc_allocator.cpp:71-74 | `x` and `y` are the curve's occupancies and miss ratios, paired, in ascending key order |
| Estimator.SpreadPositive | examples/c/CMT_MBM/catpc/catpc_allocator.cpp:77 | two or more distinct ascending occupancies give a positive sum of squared deviations, so the least-squares slope never divides by zero |
| Estimator.OlsSlope | examples/c/CMT_MBM/catpc/catpc_allocator.cpp:77 | the fitted slope is positive exactly when the points' co-deviation is positive, and negative exactly when it is negative: the sign of the regression is the sign of the covariance |
| Estimator.ElbowIndex | examples/c/CMT_MBM/catpc/catpc_allocator.cpp:76-86 | the stop index is the first suffix start whose fit passes the test, or the last index when none passes; a one-point curve stops at 0; every dropped occupancy is strictly below the chosen one, which is the least of those left |
| Estimator.ElbowUnique | examples/c/CMT_MBM/catpc/catpc_allocator.cpp:76-86 | only one index meets the stopping condition, so the result is determined by the curve and the cache size |
| Estimator.GetRequiredLlc | examples/c/CMT_MBM/catpc/catpc_allocator.cpp:64-87 | on a non-empty curve and cache list, the result is one of the curve's occupancies: the one at the elbow index. Fewer points are dropped than the curve has. Every dropped suffix failed the test |
| CatpcUtils.ScanDigits | examples/c/CMT_MBM/catpc/catpc_utils.cpp:28-33 | the scan returns 1 exactly when every character from the start position is a decimal digit, and 0 otherwise |
| CatpcUtils.FilterPids | examples/c/CMT_MBM/catpc/catpc_utils.cpp:21-34 | for the characters of a directory entry's name before its terminator: a name starting with '.' is rejected; otherwise a name is kept (1) exactly when all its characters are digits, so the empty name is kept |
| CatpcUtils.NumPids | examples/c/CMT_MBM/catpc/catpc_utils.cpp:117-130 | the count is at least 1, and exactly 1 for a node without children; the C copies at examples/c/CMT_MBM/catpc/catpc_utils.c:51-61 and examples/c/CMT_MBM/utils.c:48-58 are the same function |
| CatpcUtils.SumNumPids | examples/c/CMT_MBM/catpc/catpc_utils.cpp:122-129 | the children's counts add up to at least the number of children, since every subtree counts its own root |
| CatpcUtils.PreorderLength | examples/c/CMT_MBM/catpc/catpc_utils.cpp:117-143 | the count `get_num_pids` returns is the length of the preorder listing: one per node of the tree |
| CatpcUtils.PreorderMembers | examples/c/CMT_MBM/catpc/catpc_utils.cpp:132-143 | a pid is in the listing exactly when it is the pid of some node of the tree |
| CatpcUtils.TreeToList | examples/c/CMT_MBM/catpc/catpc_utils.cpp:132-143 | the root pid goes at `index`, then each child's subtree follows the previous one; the result is `index + get_num_pids(tree)`, positions `[index, result)` hold the preorder listing and every other position keeps its old value; the C copies at examples/c/CMT_MBM/catpc/catpc_utils.c:63-74 and examples/c/CMT_MBM/utils.c:60-71 are the same method |
| CatpcUtils.ChildrenToList | examples/c/CMT_MBM/catpc/catpc_utils.cpp:138-140 | the children's subtrees are written left to right, each from the index the previous one returned, filling exactly their total count and nothing else |
| CatpcUtils.FlattenTree | examples/c/CMT_MBM/test_utils.c:17-20 | an array of `get_num_pids(tree)` entries filled from 0 is written exactly to its end with the preorder listing |
| CatpcUtils.StripNul | examples/c/CMT_MBM/catpc/catpc_utils.cpp:169-174 | the kept characters are exactly the non-NUL characters of the file, none longer than the file |
| CatpcUtils.StripNulIdempotent | examples/c/CMT_MBM/catpc/catpc_utils.cpp:169-174 | stripping the stripped contents changes nothing |
| CatpcUtils.ReadProcCmdline | examples/c/CMT_MBM/catpc/catpc_utils.cpp:168-175 | the buffer holds the file's contents with every NUL removed, followed by a terminator, and the count is their length |
| CatpcUtils.Check | examples/c/CMT_MBM/catpc/catpc_utils.cpp:162-177 | a process matches exactly when its cmdline file opens and its contents without NULs equal the target |
| CatpcUtils.MatchingPids | examples/c/CMT_MBM/catpc/catpc_utils.cpp:160-180 | the pids collected from the `ps` listing are at most one per listed process |
| CatpcUtils.MatchingPidsMembers | examples/c/CMT_MBM/catpc/catpc_utils.cpp:160-180 | a pid is collected exactly when some listed process with that pid matches |
| CatpcUtils.MatchingPidsNone | examples/c/CMT_MBM/catpc/catpc_utils.cpp:164-179 | when no process matches, nothing is collected |
| CatpcUtils.GetPidsByCmdline | examples/c/CMT_MBM/catpc/catpc_utils.cpp:146-183 | the count returned is the number of matching processes, the array's first entries are their pids in listing order, and the rest of the array is untouched |
| Wire.EncodeRecord | examples/c/CMT_MBM/catpc/slave_daemon.cpp:114-118 | a record is the length, the cmdline bytes, the 32 value bytes and the CLOS id, of total length 8 + len + 32 + 2 |
| Wire.EncodeFrame | examples/c/CMT_MBM/catpc/slave_daemon.cpp:111-119 | the frame starts with the number of records as a `size_t`; the records follow |
| Wire.Read | examples/c/CMT_MBM/catpc/master_daemon.cpp:158-170 | a receive of `n` bytes succeeds exactly when `n` bytes remain, and yields them; a failed receive leaves nothing to read |
| Wire.ReadNumber | examples/c/CMT_MBM/catpc/master_daemon.cpp:158 | a receive of a `width`-byte integer succeeds exactly when `width` bytes remain, and yields a value below 256^width |
| Wire.ReadCmdline | examples/c/CMT_MBM/catpc/master_daemon.cpp:162-163 | a length-prefixed cmdline is received exactly when the length fits the 512-byte buffer and that many bytes follow |
| Wire.DecodeRecord | examples/c/CMT_MBM/catpc/master_daemon.cpp:162-170 | a record is received exactly when the length field fits the 512-byte buffer and the length, the cmdline, the 32 value bytes and the 2-byte CLOS id all remain; it then takes exactly that many bytes off the stream, and a failed receive leaves nothing to read |
| Wire.DecodeRecords | examples/c/CMT_MBM/catpc/master_daemon.cpp:160-170 | at most `count` records are received; the decode is complete exactly when all `count` arrived, and an incomplete one leaves nothing to read |
| Wire.DecodeFrame | examples/c/CMT_MBM/catpc/master_daemon.cpp:158-170 | a frame is complete only when the count was received and exactly that many records followed; never more records than the count announces; an incomplete frame leaves nothing to read |
| Wire.DecodeEncodeCmdline | examples/c/CMT_MBM/catpc/slave_daemon.cpp:126-127 | a cmdline sent as its length and bytes is received back whole, and reading goes on right after it |
| Wire.DecodeEncodeRecord | examples/c/CMT_MBM/catpc/master_daemon.cpp:162-170 | the master's four receives read back exactly the record the slave's four sends wrote |
| Wire.EncodeDecodeRecord | examples/c/CMT_MBM/catpc/master_daemon.cpp:162-170 | a record that is received whole was the encoding of the record decoded |
| Wire.DecodeEncodeRecords | examples/c/CMT_MBM/catpc/master_daemon.cpp:160-177 | encoded records followed by anything decode to those records, then to what the rest decodes to |
| Wire.DecodeEncodeFrame | examples/c/CMT_MBM/catpc/master_daemon.cpp:158-170 | the frame round trip: the master decodes exactly the records the slave encoded, completely, and the stream goes on after the frame |
| Wire.EncodeDecodeFrame | examples/c/CMT_MBM/catpc/master_daemon.cpp:158-177 | a frame decoded completely is the encoding of the records decoded, followed by the rest |
| Wire.TruncatedFrame | examples/c/CMT_MBM/catpc/master_daemon.cpp:160 | a frame cut inside record `k` decodes to exactly the `k` whole records before the cut, marked incomplete (what the source stores for the cut record is under Left out) |
| Wire.PartialRecord | examples/c/CMT_MBM/catpc/master_daemon.cpp:162-170 | a strict prefix of an encoded record does not decode |
| Wire.EncodeRecordsSnoc | examples/c/CMT_MBM/catpc/slave_daemon.cpp:113-119 | sending one more record appends its encoding to those sent before |
| Wire.Receive | examples/c/CMT_MBM/catpc/master_daemon.cpp:163 | receiving into the buffer overwrites its first `len` bytes and keeps the rest |
| Wire.CString | examples/c/CMT_MBM/catpc/master_daemon.cpp:164 | `assign(buf)` keeps the longest NUL-free prefix of the buffer, ending at its first NUL |
| Wire.AssignAsWritten | examples/c/CMT_MBM/catpc/master_daemon.cpp:163-164 | the cmdline stored after `recv` into the buffer holds no NUL and fits the buffer; when the received bytes hold no NUL, they are a prefix of it, followed by whatever the buffer held after them up to its first NUL; examples/c/CMT_MBM/catpc/slave_daemon.cpp:127-128 does the same |
| Wire.AssignAsWrittenExact | examples/c/CMT_MBM/catpc/slave_daemon.cpp:127-128 | the stored cmdline is the received one exactly when the received bytes hold no NUL and the buffer already held a NUL right after them |
| Wire.StaleTail | examples/c/CMT_MBM/catpc/master_daemon.cpp:163-164 | after a 4-byte cmdline, a 2-byte one received into the same buffer is stored with the old cmdline's last two bytes |
| Tables.StoreAll | examples/c/CMT_MBM/catpc/master_daemon.cpp:173 | storing records keeps every old key, files every record's cmdline, and leaves the last record stored under its cmdline |
| Tables.StoreSnoc | examples/c/CMT_MBM/catpc/master_daemon.cpp:173 | storing one more record updates its cmdline's entry over what the earlier records left |
| Tables.StoreKeys | examples/c/CMT_MBM/catpc/master_daemon.cpp:173 | after storing records, the table's keys are its old keys plus the records' cmdlines |
| Tables.StoreUntouched | examples/c/CMT_MBM/catpc/master_daemon.cpp:173 | an entry no stored record names keeps its old value |
| Tables.StoreLastWins | examples/c/CMT_MBM/catpc/master_daemon.cpp:173 | of several records with one cmdline, the last one stored is the one kept |
| Tables.EnumerationExists | examples/c/CMT_MBM/catpc/slave_daemon.cpp:113 | every table has an iteration order, listing every key once |
| Tables.RecordsOf | examples/c/CMT_MBM/catpc/slave_daemon.cpp:113-119 | walking a table in an order yields one entry per key walked, in that order |
| Tables.StoreTable | examples/c/CMT_MBM/catpc/master_daemon.cpp:173 | storing every entry of a keyed table, in any of its iteration orders, copies the table over the old entries |
| Slave.Refresh | examples/c/CMT_MBM/catpc/catpc_monitor.cpp:70-90 | polling keeps the keys, cmdlines and CLOS ids, replaces the values of every entry with a reading and keeps the others; a keyed table stays keyed |
| Slave.Fresh | examples/c/CMT_MBM/catpc/slave_daemon.cpp:131 | a newly added application has the received cmdline, all-zero values and CLOS id 0 |
| Slave.Daemon.SendRecord | examples/c/CMT_MBM/catpc/slave_daemon.cpp:114-118 | the four sends for one entry append that entry's record encoding |
| Slave.Daemon.SendFrame | examples/c/CMT_MBM/catpc/slave_daemon.cpp:111-119 | the GET answer appends the frame of the table's entries in the walked order, the count first |
| Slave.Daemon.ReceiveCmdline | examples/c/CMT_MBM/catpc/slave_daemon.cpp:126-128 | the two receives of the ADD branch take exactly the length-prefixed cmdline the stream holds, or fail and empty the stream |
| Slave.Daemon.AnswerGet | examples/c/CMT_MBM/catpc/slave_daemon.cpp:100-121 | a failed poll halts the loop with nothing sent and the table unchanged; otherwise the table is refreshed and sent whole in one of its iteration orders |
| Slave.Daemon.AddApp | examples/c/CMT_MBM/catpc/slave_daemon.cpp:122-141 | a received cmdline is entered (inserted or overwritten) with zero values and CLOS 0, every other entry intact; monitoring is started whether or not the receives succeeded, and the loop halts when it cannot start; a failed receive enters nothing |
| Slave.Daemon.Step | examples/c/CMT_MBM/catpc/slave_daemon.cpp:98-160 | one pass: no opcode halts as closed; GET and ADD act as above; GET_ALLOCATION_CONF, PERFORM_ALLOCATION and every other opcode consume only the opcode and change nothing; a pass that continues consumes input |
| Slave.Daemon.Run | examples/c/CMT_MBM/catpc/slave_daemon.cpp:98-165 | the loop terminates, keeps every entry under its own cmdline, and when it stops because the master closed, the stream is used up |
| Master.TestBytes | examples/c/CMT_MBM/catpc/master_daemon.cpp:148-149 | the fixed cmdline, as the bytes `c_str()` sends, fits the slave's 512-byte buffer |
| Master.AddRequestDecodes | examples/c/CMT_MBM/catpc/master_daemon.cpp:146-152 | the slave reads the master's first message back as the ADD opcode followed by exactly the fixed cmdline |
| Master.AddRequest | examples/c/CMT_MBM/catpc/master_daemon.cpp:146-152 | the ADD request is the 4-byte opcode, the 8-byte size and the fixed cmdline's bytes, in that total length |
| Master.Granted | examples/c/CMT_MBM/catpc/master_daemon.cpp:156 | the number of successful GET sends is the length of the script's leading run of positive send results |
| Master.Exchange | examples/c/CMT_MBM/catpc/master_daemon.cpp:158-177 | one GET round never removes an entry from the master's table |
| Master.Rounds | examples/c/CMT_MBM/catpc/master_daemon.cpp:156-177 | however many GET rounds run, no entry of the master's table is removed |
| Master.ReceivesSlaveTable | examples/c/CMT_MBM/catpc/master_daemon.cpp:158-173 | a frame of a keyed slave table, in any iteration order, decodes completely and leaves the master's table updated by exactly the slave's table |
| Master.Session.Open | examples/c/CMT_MBM/catpc/master_daemon.cpp:146-152 | the length and the bytes of the fixed cmdline go out only when the send of the ADD opcode succeeds |
| Master.Session.ReceiveRecord | examples/c/CMT_MBM/catpc/master_daemon.cpp:162-170 | the four receives of a record decode the record the stream holds, stopping at the first short read |
| Master.Session.ReceiveFrame | examples/c/CMT_MBM/catpc/master_daemon.cpp:158-177 | one GET answer: the records decoded from the stream are stored in order under their cmdlines, and the stream goes on after them |
| Master.Session.Request | examples/c/CMT_MBM/catpc/master_daemon.cpp:156-177 | one GET round appends the opcode and performs one more exchange of decoding and storing |
| Master.Session.Requests | examples/c/CMT_MBM/catpc/master_daemon.cpp:156-183 | the loop performs exactly as many rounds as the script has leading successful sends, and sends one GET opcode per round |
| Master.Session.Handle | examples/c/CMT_MBM/catpc/master_daemon.cpp:146-190 | the whole connection: the ADD request goes out first when its opcode send succeeds, then one GET opcode per successful send with one exchange each, and the session ends for the reason the first failed send gives |
| Master.Session.Run | examples/c/CMT_MBM/catpc/master_daemon.cpp:154-190 | the session ends as a disconnect exactly when the first unsuccessful send returned 0, as a send error exactly when it returned less, and runs out only with the script |

## Left out

- Daemonisation, signals, sockets and threads: per-connection threads and the unlocked shared table are concurrency. Bind, listen and accept are I/O.
- pqos: `start_monitoring` is a boolean outcome per pass. `poll_monitoring_data` is either a failure or a map of fresh readings.
- Slave.Refresh: a poll that fails part-way, after refreshing some entries, is modelled as a failure with the table unchanged. The loop goes to `exit` either way.
- Slave.Refresh: the `sel_process_num` inner loop copies the same readings repeatedly. It is modelled as one copy.
- Building process trees from `/proc`: `kill`, `scandir`, children files. Also `popen("ps")` and opening cmdline files. Trees, the pid listing and each cmdline file's contents (or its absence) are inputs.
- CatpcUtils.NumPids: a null child is dereferenced by the source. Trees here have no null children.
- CatpcUtils.GetPidsByCmdline: requires the stripped contents to fit the 1024-character buffer and the matches to fit `pids`. The source does not check either, and overruns. A failed `popen` returning 0 is not modelled.
- CatpcUtils.GetPidsByCmdline: the source never closes the cmdline files it opens (examples/c/CMT_MBM/catpc/catpc_utils.cpp:162) nor the `ps` pipe (line 153). Once the process runs out of descriptors, `fopen` fails for every later process, and those processes silently stop matching. The model takes each file's contents, or its absence, as input, so it does not capture this leak.
- CatpcUtils.GetPidsByCmdline: signed `int` overflow of the index and count is not modelled (indices are unbounded naturals).
- Estimator.GetRequiredLlc: `double` arithmetic and boost's regression are not modelled. The slope is the exact real covariance over variance of the remaining points.
- Estimator.GetRequiredLlc: occupancies pass through `double` and back exactly here. In the source, those above 2^53 would be rounded.
- Short TCP reads: each receive of `n` bytes gets `n` bytes or the stream has ended. The model stops the slave's loop when fewer than 4 opcode bytes remain. The source tests only `recv(...) > 0` (examples/c/CMT_MBM/catpc/slave_daemon.cpp:98), so it accepts 1 to 3 bytes and switches on an opcode whose low bytes are new and whose high bytes are left from the previous opcode, or uninitialised on the first pass.
- Short TCP sends: every `send` is assumed to go out whole. Neither daemon checks for a short send; the master tests only that the opcode sends returned a positive count.
- Master.Session.ReceiveFrame: the store at examples/c/CMT_MBM/catpc/master_daemon.cpp:173 runs in every pass of the record loop, and only the loop head tests `bytes_read`. So a frame cut inside a record makes the source store one extra entry, built from stale fields: the cut record's fields where they arrived, the previous record's fields (or the buffer's old bytes) where they did not. In a 2-record frame cut inside the second record's CLOS id, the source stores the second cmdline with the second record's values and the first record's CLOS id. The model stores only the whole records before the cut.
- Wire.TruncatedFrame: states what the decoder yields, the whole records before the cut. The extra stale entry the source then stores is the one described under Master.Session.ReceiveFrame.
- Master.Session.ReceiveRecord: on a truncated record, the source still stores an `application` built from stale fields (it tests only the last receive). The model stores nothing for that record and stops, as the loop does next.
- Slave.Daemon.AddApp: when the length or cmdline receive fails, the source still enters whatever the buffer held and starts monitoring it. The model enters nothing, but it still starts monitoring as the source does: if that fails, the daemon halts with StartFailed, as the source exits at examples/c/CMT_MBM/catpc/slave_daemon.cpp:137. If it succeeds, the model's next pass finds the stream empty and stops as Closed.
- Wire.CString and Wire.AssignAsWritten: the buffer is a finite sequence, and when it holds no NUL the result is the whole buffer. The source's `assign(buf)` then reads past the end of `buf` (examples/c/CMT_MBM/catpc/master_daemon.cpp:164, examples/c/CMT_MBM/catpc/slave_daemon.cpp:128), which is undefined behaviour and is not modelled.
- Wire.ReadCmdline: a length above 512 overruns `buf` in both daemons (undefined behaviour). It is treated as a malformed message that ends the stream.
- The stored cmdline is exactly the `len` bytes received (Wire.ReadCmdline), not the NUL-terminated read of `assign(buf)`. The discrepancy is under Findings.
- Send results in the slave are only logged, so every slave send appends to its output. In the master, only the results of the opcode sends matter, and they are a script of integers.
- Slave.Daemon.Run: the ensures says the loop terminates and keeps the table keyed, not the whole sequence of passes. Each pass is specified exactly by Slave.Daemon.Step.
- Log output, `usleep`, and the floating-point miss ratio the master logs are not modelled.
- Bytes are naturals below 256 rather than `bv8`, which keeps the little-endian arithmetic linear.
- `get_allocation_config`, `perform_allocation`, and the C variants of the daemons are not part of this model.

## Findings

| source | as written | input that shows it | evidently intended | confidence | as-written member | corrected member |
|---|---|---|---|---|---|---|
| examples/c/CMT_MBM/catpc/master_daemon.cpp:163-164 | `recv(buf, len)` then `cmdline.assign(buf)` | receive the cmdline "abcd", then "xy", into the same buffer; the second is stored as "xycd", because no NUL is ever sent | the stored cmdline is exactly the `len` bytes received | not executed | Wire.StaleTail | Wire.DecodeEncodeCmdline |
| examples/c/CMT_MBM/catpc/slave_daemon.cpp:127-128 | the same pattern in the ADD branch | as above, for two ADD messages in one session | as above | not executed | Wire.AssignAsWrittenExact | Wire.DecodeEncodeCmdline |
