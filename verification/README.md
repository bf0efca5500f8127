# Verified models of the emulator core and the browser kernel

This project models, in Dafny, the parts of the system whose correctness is
hardest to see by reading them, and proves what they are there for:

- `FlagLiveness.dfy`: the analysis that lets the JIT drop flag writes, as a
  noninterference theorem over whole runs of every guest program;
- `PipeRing.dfy`, `TrapHandshake.dfy`: the two shared-memory protocols between
  workers, as state machines in which every `Atomics` operation and every access
  to shared data is one step, with invariants over all interleavings;
- `Dubble.dfy`, `Alu.dfy`, `BigInteger.dfy`, `Rotate.dfy`, `Crc32c.dfy`,
  `Bmi2.dfy`, `Clmul.dfy`: the arithmetic of the instruction handlers, against
  the definitions of the Intel SDM (volume 2A chapter 3 and volume 2B chapter 4)
  and of section 12.1 of RFC 3720;
- `RingList.dfy`, `CloseFds.dfy`: the intrusive circular list and the loops that
  delete from it while they walk it;
- `InitialStack.dfy`: the initial process stack, read back as section 3.4.1 of
  the System V AMD64 ABI prescribes;
- `Getdents.dfy`, `Paths.dfy`, `Symlinks.dfy`, `DirectoryListing.dfy`: paged
  directory listings, path normalisation, symbolic links, and a directory read from
  the file system to the program.

`Bits.dfy`, `Words.dfy`, `LittleEndian.dfy`, `Wrappers.dfy`, `DirEntries.dfy` and
`Machine.dfy` hold what these share. Unsigned C words are natural numbers with the
reduction modulo 2^k written out; `<<`, `>>`, `|`, `&` and `^` on them are the functions
of `Bits`. `dafny verify dfyconfig.toml` checks everything.

## What the code does not do

Where the code falls short of what is expected of it, the model keeps the code as
it is, a lemma exhibits a failing input, and the exact condition is proved.

- **Trap handshake.** The kernel stores 0 into the flag and notifies in a second
  step, and the worker waits once, not in a loop. A worker that sees the 0 can
  return, trap again and fall asleep before that notify, which then wakes it: it
  returns the previous result (`TrapHandshake.StaleResult`). All promises hold,
  for every number of workers and every schedule, exactly when no worker waits on
  a new trap between the store and the notify of its previous one
  (`TrapHandshake.HandshakeExact`). Outside that window every open trap of every worker
  can be completed with its own result (`TrapHandshake.RunsCanComplete`).
- **End of file on a pipe.** The closed flag is loaded after the write position,
  so a read can report end of file although bytes were published and the pipe
  closed in between (`PipeRing.EofCanMissBytes`). A read that is about to report
  end of file has drained the pipe exactly when nothing was published after it
  loaded the write position (`PipeRing.EofDrainedIff`); a close before that load
  is enough (`PipeRing.EofMeansDrained`).
- **Flag tables.** A shift with a zero count leaves the flags alone but is listed
  as overwriting them, and the optimised code can then take the other branch
  (`FlagLiveness.ZeroCountShiftMisleads`). For every program and every run, whatever
  the tables say: the optimised code stays in step with the original, for every
  leftover in the dropped flags, exactly when no instruction of the original run
  depends on a flag whose write was dropped and that nothing has written since
  (`FlagLiveness.InStepIff`). Where the tables are right at the states visited, a
  licensed drop is never read (`FlagLiveness.LicensedNeverStale`); the row of a
  shift is right exactly when its count is not zero modulo 32
  (`FlagLiveness.ShiftRightIff`), and on a program with one that is the exact
  condition for every operand, count and start flags (`FlagLiveness.ShiftProgramIff`).
- **Counts of RCL and RCR.** Counts add modulo k + 1 (`Rotate.RclCountsAdd`,
  `Rotate.RcrCountsAdd`), but the instructions first cut a count to five or six
  bits, so that at 8 bits either instruction by 16 twice is not the one by 32
  (`Rotate.CountsCarry`). A rotation by y and then by y' is the one by y + y' exactly
  when the cut counts do not carry (`Rotate.CountsCompose`,
  `Rotate.RcrCountsCompose`).
- **`d_reclen`.** The 16-bit field holds the length of a record only for names of
  at most 65508 bytes; a name of 65509 is stored with length 0
  (`Getdents.LongNameStops`). The walk over the records of a call yields its entries
  exactly when all names fit (`Getdents.WalkExact`).
- **Directory offset.** When the answer does not fit guest memory the copy throws
  and the call returns -1, but the directory offset has already moved: the entries
  of that answer never come again (`Getdents.AnswerLost`). Over any sequence of
  calls the program reads every entry passed exactly when all names fit and every
  answer fits guest memory (`Getdents.PagingExact`).
- **Room for the next record.** A buffer too small for the next record is answered
  with 0, like the end of the directory (`Getdents.EmptyPage`). A program that stops
  at the first empty answer has read everything exactly when all names fit and every
  call up to the end had room for its next record and memory for its answer
  (`Getdents.StopsAtEmpty`, `Getdents.ReachesEndIff`).
- **Link limit.** After 41 expansions `resolvePath` returns what it has, which can
  still be a link (`Symlinks.RingResolves`). For every set of links and every path
  the result is free of links exactly when looking up the path, one component at a
  time, follows at most 41 links (`Symlinks.LinkFreeIff`). When no target leads
  through a link, 41 components are always few enough (`Symlinks.FlatResolves`), and
  42 may not be (`Symlinks.CopiesResolve`).
- **Resolving again.** Resolving a result again can give another path
  (`Symlinks.TwoCycle`). It changes nothing exactly when expansion leaves the result
  alone, or comes back to it after 41 steps and not before
  (`Symlinks.ResolveAgainIff`); and expansion leaves a path alone exactly when it has
  no link or its first link is a link to itself (`Symlinks.ExpandStays`), so that
  every result without links is stable (`Symlinks.ResolveAgain`).
- **Relative links.** A relative target is looked up from the root, not from the
  directory of the link (`Symlinks.RelativeMisled`). Every expansion of every path is
  a step of the usual lookup exactly when no link that can be reached without
  following another has a target that depends on its directory
  (`Symlinks.StepsUsualIff`); for a target without `..` that means the root directory
  (`Symlinks.PlainTarget`).

## Model

| member | source | states |
|---|---|---|
| FlagLiveness.CrawlFlags | native/blink/blink/deps.c:36-72 | the loop with recursion at conditional jumps computes the recursive path analysis `Crawl`, with the same look-ahead budget and the same "unknown" answers |
| FlagLiveness.GetNeededFlags | native/blink/blink/deps.c:75-79 | an answer holds exactly the tracked flags that may be read first, and there is one exactly when no path is blocked within 32 instructions |
| FlagLiveness.AnswerIsExact | native/blink/blink/deps.c:43-71 | an answer holds precisely the tracked flags that some path of the control-flow graph, of any length, reads before rewriting them |
| FlagLiveness.AnswersIff | native/blink/blink/deps.c:43-71 | the analysis answers, rather than say "unknown", exactly when on every path all tracked flags are rewritten before the limit, an abnormal instruction or undecodable code |
| FlagLiveness.StepKeeps | native/blink/blink/deps.c:43-71 | one guest step from two states that agree outside the dead flags keeps them so, and the analysis of the next address is a part of the first one |
| FlagLiveness.Converge | native/blink/blink/deps.c:36-79 | if the analysis answers N for F and the tables are right where two runs come that differ only in flags of F outside N, they take the same branches and are in identical states exactly when every flag of F has been overwritten, within the look-ahead |
| FlagLiveness.DeadStays | native/blink/blink/deps.c:50-57 | a flag the analysis does not need is not read by the next instruction and stays dead until it is overwritten |
| FlagLiveness.OptStepKeeps | native/blink/blink/alu2.c:175-217 | one step of optimised code at which the tables are right, whatever is left in the dropped flags, stays in lockstep with the original |
| FlagLiveness.OptimisedRunsMatch | native/blink/blink/alu2.c:175-217 | with any set of flag writes dropped on the analysis's word, every run of every program on which the tables are right at the states visited has the same addresses, registers and memory as the original at each step, and differs only in dead flags |
| FlagLiveness.RightRunsMatch | native/blink/blink/alu2.c:175-217 | the same from a condition on the original run alone, for every leftover in the dropped flags |
| FlagLiveness.InStepIff | native/blink/blink/alu2.c:175-217 | for every program, any dropped flag writes, right tables or not, and every run: optimised and original code stay in step for every leftover if and only if no instruction of the original run depends on a flag that is stale there |
| FlagLiveness.StaleReadShows | native/blink/blink/alu2.c:175-217 | a stale flag that an instruction depends on can be left with a value that makes the runs differ |
| FlagLiveness.LicensedNeverStale | native/blink/blink/deps.c:36-79 | where the tables are right at the states visited, a drop that the analysis licensed leaves no flag that is read |
| FlagLiveness.TablesCanHold | native/blink/blink/deps.c:82-95 | the strongest hypothesis about the tables is met by a concrete program and execution |
| FlagLiveness.ShiftHonest | native/blink/blink/alu.c:357-366 | the exact condition applies to runs with a variable-count shift, which writes no flag when its count is zero |
| FlagLiveness.ShiftRightIff | native/blink/blink/alu.c:357-366 | the table row of a variable-count shift is right at a state exactly when its count is not zero modulo 32 |
| FlagLiveness.ShiftProgramIff | native/blink/blink/alu.c:357-366 | on a program with such a shift, for every operand, count and start flags, the licensed drop keeps the outcome, whatever is left in the flag, if and only if the count is not zero modulo 32 |
| FlagLiveness.ZeroCountShiftMisleads | native/blink/blink/alu.c:357-366 | with a zero count there is always a leftover flag that changes the branch taken, although the drop is licensed |
| PipeRing.StepHolds | src/browser/execution-worker.js:89-191 | every step of reader, writer, timeout and close keeps the ring invariant: positions are the history counters modulo the capacity, unread bytes are intact, one slot stays free, no wake-up is lost |
| PipeRing.StoreHolds | src/browser/execution-worker.js:122-129 | a store into the ring never overwrites an unread byte |
| PipeRing.RunHolds | src/browser/execution-worker.js:89-191 | the invariant holds after every interleaving of one reader and one writer |
| PipeRing.Fifo | src/browser/execution-worker.js:89-132 | bytes taken followed by bytes in the ring are the bytes published, at most cap - 1 are in flight, what was delivered is a prefix of what was written |
| PipeRing.ReadDelivers | src/browser/execution-worker.js:97-111 | a finished read or readv returns the number of bytes it delivered, which are the next unread ones, laid out in its buffers in turn; it has filled all of them or its last look found the ring empty; a reader asleep while no write is in progress has nothing to read |
| PipeRing.WritePublishes | src/browser/execution-worker.js:122-131 | a finished write or writev returns how many of its bytes it published: its first ones, in order, after all earlier ones; it has published all of them or its last look found the ring full |
| PipeRing.CallsAsk | src/browser/execution-worker.js:93-177 | a read asks for the smaller of count and capacity in one buffer, a readv for all its buffers, a write or writev offers all its bytes |
| PipeRing.SumIs | src/browser/execution-worker.js:141-163 | room adds up over the buffers of a call |
| PipeRing.ChunkPlace | src/browser/execution-worker.js:174-188 | each buffer of a writev stands right after all earlier ones |
| PipeRing.WriteAlone | src/browser/execution-worker.js:113-133 | from every reachable state a write or writev that runs alone publishes the first of its bytes, as many as there are free slots or all, and leaves no reader asleep |
| PipeRing.ReadAlone | src/browser/execution-worker.js:89-111 | from every reachable state a read or readv that runs alone returns the next unread bytes, as many as there are or fit; it sleeps only with room, an empty ring and the pipe open |
| PipeRing.TimedOutReads | src/browser/execution-worker.js:97-106 | a sleeping reader whose wait times out takes what has come meanwhile |
| PipeRing.EofMeansDrained | src/browser/execution-worker.js:98-102 | a read that finds the ring empty returns next and has drained the pipe if the close came before its load of the write position |
| PipeRing.EofDrainedIff | src/browser/execution-worker.js:98-102 | a read about to report end of file has drained the pipe exactly when nothing was published since it loaded the write position |
| PipeRing.EofCanMissBytes | src/browser/execution-worker.js:98-102 | an interleaving in which end of file is reported with an unread byte in the ring |
| TrapHandshake.StepHolds | src/browser/kernel-worker.js:1452-1480 | every step but a wait inside the store-notify window keeps the invariant that ties each worker's state to the kernel's |
| TrapHandshake.AvoidingIsCorrect | src/browser/execution-worker.js:195-209 | outside that window, on every run: each trap is handled once with its own arguments, each result returned is its own, no argument is written while the kernel may read it, no sleeper is forgotten |
| TrapHandshake.NotAvoidingGoesWrong | src/browser/kernel-worker.js:1478-1479 | a wait inside the window breaks a promise on every continuation, at the latest by the kernel's next step |
| TrapHandshake.HandshakeExact | src/browser/kernel-worker.js:1452-1493 | the promises hold throughout a run, through the kernel's next step, if and only if the run avoids the window |
| TrapHandshake.StaleResult | src/browser/execution-worker.js:205-208 | for any two calls, a schedule of one worker in which the second trap returns the first result before it was handled |
| TrapHandshake.Serves | src/browser/kernel-worker.js:1456-1479 | a scanning kernel can turn to any worker whose flag is up and answer its call with any value; no other worker moves |
| TrapHandshake.OpenTrapCompletes | src/browser/execution-worker.js:195-209 | from every state with the invariant each open trap of each worker can be completed: kernel steps answer it with its own arguments and any value, then worker steps return that value |
| TrapHandshake.TrapCompletes | src/browser/execution-worker.js:195-209 | a whole system call of a running worker, wherever the kernel stands, ends with its own result |
| TrapHandshake.RunsCanComplete | src/browser/kernel-worker.js:1452-1480 | for every number of workers and every schedule outside the window, whatever trap is open at the end can be completed from there |
| TrapHandshake.AnsweredIff | src/browser/kernel-worker.js:1418-1430 | the calls in scope are all but SYS_PROC_WAIT behind any number of HOST_SYSCALL |
| Dubble.NegVal | native/blink/blink/divmul.c:35-40 | DubbleNeg is negation modulo 2^128 |
| Dubble.Shl1Val | native/blink/blink/divmul.c:42-47 | DubbleShl doubles modulo 2^128 |
| Dubble.Shr1Val | native/blink/blink/divmul.c:49-54 | DubbleShr halves |
| Dubble.LteVal | native/blink/blink/divmul.c:56-58 | DubbleLte compares the 128-bit numbers |
| Dubble.SubtractVal | native/blink/blink/divmul.c:102-103 | the two-limb subtraction borrows exactly when the dividend is smaller, and is exact otherwise |
| Dubble.Mul | native/blink/blink/divmul.c:60-78 | the exact 128-bit product from four 32-bit partial products |
| Dubble.Imul | native/blink/blink/divmul.c:80-87 | the exact signed 128-bit product |
| Dubble.ScaleDivisor | native/blink/blink/divmul.c:93-97 | the first loop: the divisor shifted until it exceeds the dividend, or bits lost, which only happens when the quotient needs more than 64 bits |
| Dubble.LongDivide | native/blink/blink/divmul.c:98-109 | the second loop: quotient and rest when no bit was lost, and a quotient of at least 2^64 when one was |
| Dubble.Div | native/blink/blink/divmul.c:89-112 | the high half of the result is zero exactly when the true quotient is below 2^64, and then quotient and remainder are exact |
| Dubble.Idiv | native/blink/blink/divmul.c:114-123 | quotient truncated toward zero and remainder with the sign of the dividend |
| Dubble.TruncUnique | native/blink/blink/divmul.c:114-123 | these are the only q and r with a = q * b + r, r smaller than b in size and of the sign of a |
| Dubble.OpDivUnsigned64 | native/blink/blink/divmul.c:237-261 | DIV raises exactly when the divisor is 0 or RDX is at least the divisor; otherwise RDX:RAX before is RAX times the divisor plus RDX, with RDX below the divisor |
| Dubble.QuotientFits | native/blink/blink/divmul.c:256-257 | a quotient is below 2^64 exactly when the high half of the dividend is below the divisor |
| Dubble.OpDivSigned64 | native/blink/blink/divmul.c:152-181 | IDIV leaves the quotient and remainder that solve the division equation, the remainder smaller than the divisor and of the sign of the dividend, and raises only when the divisor is 0 or no words for RAX and RDX solve it |
| Dubble.OutcomeMeans | native/blink/blink/divmul.c:171-177 | a quotient and remainder in range solve the division equation exactly when they are the outcome of IDIV |
| Dubble.SignedIs | native/blink/blink/divmul.c:80-87 | the signed readings of 64 and 128 bits are in range and agree with the unsigned ones modulo 2^64 and 2^128 |
| Dubble.OpMulUnsigned64 | native/blink/blink/divmul.c:354-368 | MUL leaves the exact product, CF = OF exactly when the high half is needed, other flags alone |
| Dubble.OpMulSigned64 | native/blink/blink/divmul.c:309-323 | IMUL likewise for signed operands |
| Dubble.MulThenDiv | native/blink/blink/divmul.c:237-368 | MUL and then DIV by the same nonzero operand on the machine: no divide error, RAX is back, RDX is 0 |
| Dubble.MulThenDivOther | native/blink/blink/divmul.c:237-368 | MUL and then DIV by the old RAX gives the other factor, RDX 0 |
| Dubble.ImulThenIdiv | native/blink/blink/divmul.c:152-323 | the same for IMUL and IDIV by the same nonzero operand |
| Dubble.ImulThenIdivOther | native/blink/blink/divmul.c:152-323 | and by the old RAX |
| Alu.AluFlagsRead | native/blink/blink/alu.c:52-57 | each flag reads back as stored, bits 24 to 31 are the low byte of the result, every other bit is kept |
| Alu.Add | native/blink/blink/alu.c:87-97 | at 8, 16, 32 and 64 bits: the sum modulo 2^k with carry, half carry, signed overflow, sign and zero as the architecture defines them |
| Alu.Adc | native/blink/blink/alu.c:175-210 | the same with the carry flag left by the previous operation added in |
| Alu.Sub | native/blink/blink/alu.c:75-85 | the difference modulo 2^k with borrow, half borrow and signed overflow |
| Alu.Sbb | native/blink/blink/alu.c:212-247 | the same with the incoming carry subtracted |
| Alu.AddFlags | native/blink/blink/alu.c:165-210 | why the comparisons and xor formulas of the code give the arithmetic carry, half carry and overflow |
| Alu.SubFlags | native/blink/blink/alu.c:155-163 | the same for borrow, half borrow and overflow |
| BigInteger.AddChainValue | native/blink/blink/alu.c:165-210 | along limb arrays of any length the chain gives the exact sum modulo 2^(64n), and the last CF is the carry out of the whole number |
| BigInteger.AddChainOverflow | native/blink/blink/alu.c:165-210 | the last OF is the signed overflow of the whole number |
| BigInteger.SubChainValue | native/blink/blink/alu.c:155-163 | the exact difference, with the last CF the borrow of the whole number |
| BigInteger.SubChainOverflow | native/blink/blink/alu.c:238-247 | the last OF is the signed overflow of the difference |
| BigInteger.AddLimbs | native/blink/blink/alu.c:165-210 | Add64 and then Adc64 on the machine, limb by limb: exact sum, carry and signed overflow of the whole number in the flags it leaves |
| BigInteger.SubLimbs | native/blink/blink/alu.c:155-163 | Sub64 and then Sbb64 likewise |
| BigInteger.SubUndoesAdd | native/blink/blink/alu.c:238-247 | subtracting what was added gives back the limbs, with the same final CF |
| Rotate.RotLSwaps | native/blink/blink/alu.c:545-561 | rotating an n-bit word left by y single places swaps its top y bits with the rest |
| Rotate.Rcl | native/blink/blink/alu.c:545-561 | the shift-and-or expressions turn the (k+1)-bit word of CF and operand left by y places; OF is CF against the top bit, other flags kept; a zero count changes nothing |
| Rotate.Rcr | native/blink/blink/alu.c:511-527 | the same to the right, with OF from the two top bits |
| Rotate.RotateCarryLeft | native/blink/blink/alu.c:563-577 | RCL at the four widths, with the count cut and reduced as each does |
| Rotate.RotateCarryRight | native/blink/blink/alu.c:529-543 | RCR at the four widths |
| Rotate.RcrUndoesRcl | native/blink/blink/alu.c:511-577 | RCL then RCR by the same count gives back the operand and CF, at every width |
| Rotate.RclUndoesRcr | native/blink/blink/alu.c:511-577 | and in the other order |
| Rotate.RclCountsAdd | native/blink/blink/alu.c:545-561 | two rotations are one by the sum of the counts modulo k + 1 |
| Rotate.RcrCountsAdd | native/blink/blink/alu.c:511-527 | the same for two rotations to the right |
| Rotate.CountsCompose | native/blink/blink/alu.c:563-577 | two RCL instructions are one by the sum of their counts, on all words, if and only if the cut counts do not carry |
| Rotate.RcrCountsCompose | native/blink/blink/alu.c:529-543 | two RCR instructions are one by the sum of their counts, on all words, under the same exact condition |
| Rotate.CountsCarry | native/blink/blink/alu.c:529-565 | at 8 bits RCL and RCR by 16 twice move a bit that a count of 32 leaves in place |
| Crc32c.ReverseBits32Twice | native/blink/blink/crc32.c:39-45 | reversing the bits twice gives the word back |
| Crc32c.ReverseBits32Exchanges | native/blink/blink/crc32.c:39-45 | bit i of the result is bit 31 - i of the word |
| Crc32c.PolynomialIsReversed | native/blink/blink/crc32.c:51 | the polynomial of RFC 3720 reversed is the constant the table is built from |
| Crc32c.PolynomialIs | native/blink/blink/crc32.c:51 | the polynomial used is the reversed Castagnoli polynomial |
| Crc32c.InitializeCrc32 | native/blink/blink/crc32.c:28-37 | entry d is eight single-bit steps from d, for any polynomial |
| Crc32c.GroupOfSteps | native/blink/blink/crc32.c:55 | n single-bit steps at once: the low bits choose what is added to the rest |
| Crc32c.Table.Castagnoli | native/blink/blink/crc32.c:47-59 | for every h, w and n the table-driven loop equals 8n single-bit steps; the table is built once |
| Crc32c.BytesCompose | native/blink/blink/crc32.c:54-57 | n1 + n2 bytes at once are n1 bytes and then n2 |
| Bmi2.Pdep | native/blink/blink/bmi2.c:39-48 | the loop computes the deposit of x under the mask |
| Bmi2.Pext | native/blink/blink/bmi2.c:50-59 | the loop computes the extract of x under the mask |
| Bmi2.DepositBit | native/blink/blink/bmi2.c:39-48 | bit i of the deposit is set where the mask has a bit and x has the bit of that rank |
| Bmi2.ExtractBit | native/blink/blink/bmi2.c:50-59 | each selected bit of x is found at its rank |
| Bmi2.ExtractFits | native/blink/blink/bmi2.c:50-59 | and nothing is above the last one |
| Bmi2.ExtractUndoesDeposit | native/blink/blink/bmi2.c:39-59 | PEXT after PDEP is x cut to its low popcount(mask) bits |
| Bmi2.DepositUndoesExtract | native/blink/blink/bmi2.c:39-59 | PDEP after PEXT is x and mask |
| Clmul.Multiply | native/blink/blink/clmul.c:29-39 | the two halves are the 128-bit carry-less product, the operand swap included |
| Clmul.ProductBit | native/blink/blink/clmul.c:29-39 | coefficient k of the product is the xor of b_j and a_(k-j), the product of polynomials over GF(2) |
| Clmul.ProductXor | native/blink/blink/clmul.c:34 | the product distributes over xor |
| Clmul.ProductCommutes | native/blink/blink/clmul.c:32 | swapping the operands makes no difference |
| RingList.Dll.constructor | native/blink/blink/dll.h:12-15 | an initialised element is a ring by itself |
| RingList.NextPrevInverse | native/blink/blink/dll.h:31-41 | on a ring next and prev stay inside and undo each other |
| RingList.RotateRing | native/blink/blink/dll.c:83-88 | a ring can be read off from any element |
| RingList.SpliceAfter | native/blink/blink/dll.c:26-34 | splicing joins the two rings into the ring of the concatenation |
| RingList.List.First | native/blink/blink/dll.h:25-29 | the first element, or null when empty |
| RingList.List.Next | native/blink/blink/dll.h:31-35 | the next element of the sequence, null after the last |
| RingList.List.Prev | native/blink/blink/dll.h:37-41 | the previous element, null before the first |
| RingList.List.Remove | native/blink/blink/dll.c:41-53 | deletes the element from the sequence, leaves it a ring of its own, touches nothing else |
| RingList.List.MakeFirst | native/blink/blink/dll.c:64-72 | prepends the ring that starts at the element |
| RingList.List.MakeLast | native/blink/blink/dll.c:83-88 | appends the ring that ends at the element |
| CloseFds.CloseAll | native/blink/blink/close.c:48-57 | closes every descriptor once, in order, empties the list, and returns -1 exactly when a close failed |
| CloseFds.CloseRcIs | native/blink/blink/close.c:54 | the accumulated return code is -1 if some close failed and 0 otherwise |
| CloseFds.Partition | native/blink/blink/close.c:106-113 | what a loop keeps and what it collects are exactly the non-matching and the matching elements, each once |
| CloseFds.PartsInOrder | native/blink/blink/close.c:106-113 | both parts keep the order of the list |
| CloseFds.ClosedOnce | native/blink/blink/close.c:48-57 | every element having its own descriptor, those closed are the ones of the matching elements, none twice, and none of an element that is kept |
| CloseFds.RoundSplits | native/blink/blink/close.c:106-113 | how one round, deletion included, advances the split of the list |
| CloseFds.SysCloseExec | native/blink/blink/close.c:102-116 | keeps the other descriptors in their order and closes the close-on-exec ones once each, in order |
| CloseFds.SysCloseRange | native/blink/blink/close.c:138-165 | without the flag an element stays exactly when its number is below the first or above the last, and its descriptor is among those newly closed exactly otherwise; with the flag a descriptor is newly marked exactly when its number is in the range, bounds included; EINVAL changes nothing |
| CloseFds.SysCloseRangeCloexec | native/blink/blink/close.c:120-136 | marks exactly the descriptors whose numbers lie between the bounds, both included |
| CloseFds.MarkedIn | native/blink/blink/close.c:120-136 | marking a range adds exactly its elements to those that an exec closes |
| CloseFds.CloexecThenExec | native/blink/blink/close.c:102-165 | running close_range with the cloexec flag and then an exec closes, once each and in order, what was marked before or has a number in the range, and keeps exactly the rest |
| LittleEndian.LeRoundTrip | native/blink/blink/argv.c:119-121 | decoding little-endian bytes gives the low n bytes of what was written |
| LittleEndian.LeBytesAt | src/browser/kernel-worker.js:923-925 | byte i of the encoding counts multiples of 256 to the power i |
| InitialStack.PushBuffer | native/blink/blink/argv.c:46-51 | puts the bytes just below RSP and disturbs nothing above |
| InitialStack.PushString | native/blink/blink/argv.c:53-59 | puts the string with its NUL, or answers 0 for a missing one |
| InitialStack.PushStrings | native/blink/blink/argv.c:109-110 | a NULL-terminated array of pointers to the strings in order, no earlier string overwritten |
| InitialStack.PushAuxVector | native/blink/blink/argv.c:89-107 | the auxiliary vector in the block, with the random bytes and the file name on the stack |
| InitialStack.AlignStack | native/blink/blink/argv.c:112-114 | the lowest word is 16-byte aligned and at most 15 bytes are skipped |
| InitialStack.Serialize | native/blink/blink/argv.c:118-121 | the block as little-endian words |
| InitialStack.StringAtUnique | native/blink/blink/argv.c:53-59 | at most one string can be read at an address |
| InitialStack.AuxReads | native/blink/blink/argv.c:89-107 | scanning the auxiliary vector pair by pair finds each value under the ABI's number for it and nothing under any other, the executable's entries only when it has them |
| InitialStack.AuxEnds | native/blink/blink/argv.c:76-90 | the vector has 20, 28 or 30 words and ends with two zeros |
| InitialStack.StackReads | native/blink/blink/argv.c:109-111 | words laid out this way read back as argc, argv, envp and the auxiliary vector |
| InitialStack.LoadArgv | native/blink/blink/argv.c:69-125 | RSP is aligned, the word block is filled exactly, and an ABI reader at RSP finds argc, every argument and environment string and the auxiliary vector ended by (0, 0) |
| Getdents.PutRecord | src/browser/kernel-worker.js:923-929 | writing the fields one by one leaves exactly the record, padding zero, and nothing else changed |
| Getdents.RecordBytes | src/browser/kernel-worker.js:920-929 | the bytes of a record: inode, offset and length at 0, 8 and 16, type 4, 10 or 8 at 18, the name from 19, then zeros |
| Getdents.StopIsLast | src/browser/kernel-worker.js:917-921 | a call stops only when the records so far fit and one more would not, or there is none |
| Getdents.Fill | src/browser/kernel-worker.js:917-932 | the loop writes the records that fit, one after the other, and stops at the first that does not |
| Getdents.Getdents64 | src/browser/kernel-worker.js:902-938 | the whole call: EBADF, the listing taken once, the records at the given address and their number, the offset moved on, -1 when the answer does not fit guest memory |
| Getdents.AnsweredMeans | src/browser/kernel-worker.js:931-937 | -1 exactly when the records do not fit guest memory; otherwise their number of bytes, found at the address, every other byte unchanged |
| Getdents.WalkRecord | src/browser/kernel-worker.js:920-931 | a walker gets past a record, with its inode, offset, type and name, exactly when its length fits the 16-bit field |
| Getdents.WalkExact | src/browser/kernel-worker.js:917-932 | walking a call's bytes by d_reclen, with every record 8-aligned and inside the buffer, yields its entries in order, if and only if all their names fit |
| Getdents.LongNameStops | src/browser/kernel-worker.js:921-925 | a name of 65509 bytes is stored with length 0 and no walker gets past it |
| Getdents.PagesWalk | src/browser/kernel-worker.js:902-932 | over any sequence of calls with any buffer sizes, the walks of what the calls put together join to the entries passed, each once |
| Getdents.DeliveredIff | src/browser/kernel-worker.js:933-937 | all of it reaches the guest exactly when every copy to guest memory fits |
| Getdents.DeliveredLength | src/browser/kernel-worker.js:931-937 | a page that is lost takes its entries with it |
| Getdents.AnswerLost | src/browser/kernel-worker.js:931-937 | for every directory, position and memory size a call that loses the next entry: all later calls read what they would have read without it |
| Getdents.PagingExact | src/browser/kernel-worker.js:902-938 | over any sequence of calls, what the guest reads is the entries passed, each once and in order, if and only if all their names fit and every copy does |
| Getdents.ReadPages | src/browser/kernel-worker.js:902-938 | running the call repeatedly leaves exactly these pages in guest memory, and the directory where they end |
| Getdents.PagingEnds | src/browser/kernel-worker.js:917-920 | with room for the next record in every call, as many calls as entries reach the end |
| Getdents.EmptyPage | src/browser/kernel-worker.js:917-921 | a call returns no bytes exactly at the end or when the next record does not fit |
| Getdents.StopsAtEmpty | src/browser/kernel-worker.js:917-937 | a reader that stops at the first empty answer has read every entry, in order, if and only if all names fit and each call up to the end had room for its next record and memory for its answer |
| Getdents.ReachesEndIff | src/browser/kernel-worker.js:917-921 | with as many calls as entries and answers that fit, that is room for the next record in every call |
| Getdents.WholeDirectory | src/browser/kernel-worker.js:902-938 | every entry of a directory is read exactly once, in order, with its name and type, if and only if the calls reach its end, all names fit and every copy does |
| DirectoryListing.ReadDirectory | src/browser/kernel-worker.js:902-938 | opening a directory of the file system and reading it in any calls: the program finds its listing, encoded, under exactly these conditions |
| DirectoryListing.EveryChildOnce | src/browser/filesystem.js:147-170 | a program that found it has seen every shown child under exactly one record, with the right type |
| DirectoryListing.ChildFound | src/browser/filesystem.js:147-170 | a program that found it has seen a name exactly when it is a child whose normalised path is not whited out, with the type byte 10, 4 or 8 for that path |
| Paths.NormalizePath | src/browser/filesystem.js:112-121 | the loop with its stack computes the normal form |
| Paths.SplitJoin | src/browser/filesystem.js:113-120 | splitting undoes joining when no part contains a slash |
| Paths.LastComponent | src/browser/filesystem.js:115-119 | one more component goes a level down for a name, a level up for `..` (nowhere at the root), nowhere for `.` and the empty part |
| Paths.NormalizeIdempotent | src/browser/filesystem.js:112-121 | normalising twice is normalising once |
| Paths.NormalizedParts | src/browser/filesystem.js:112-121 | the parts of a normalised path are the empty one and components that are not empty, `.` or `..` and contain no slash |
| Paths.NormalizeCommutes | src/browser/filesystem.js:112-121 | normalising the front of a path first makes no difference |
| Symlinks.ResolvePath | src/browser/filesystem.js:124-140 | the recursion terminates on every set of links, and replaces the first link up to 41 times less the depth |
| Symlinks.ExpandAt | src/browser/filesystem.js:129-137 | one expansion replaces the components up to the first link by those of its target |
| Symlinks.WalkIsExpansion | src/browser/filesystem.js:124-140 | repeated expansion of the whole path agrees with a lookup of one component at a time, link by link |
| Symlinks.LinkFreeIff | src/browser/filesystem.js:124-140 | for every set of links and every path the result has no link among its prefixes if and only if the lookup of its components follows at most 41 links |
| Symlinks.FlatResolves | src/browser/filesystem.js:124-140 | when no target leads through a link, every path of at most 41 components resolves to one without links |
| Symlinks.CopiesResolve | src/browser/filesystem.js:126 | the bound is tight: with a link to the root, n copies of it resolve exactly when n is at most 41 |
| Symlinks.ResolveAgainIff | src/browser/filesystem.js:124-140 | for every set of links and every path, resolving the result again changes nothing if and only if expansion leaves it alone or returns to it after exactly 41 steps |
| Symlinks.ExpandStays | src/browser/filesystem.js:129-137 | expansion leaves a normalised path alone if and only if it has no link or its first link is a link to itself |
| Symlinks.PeriodDivides | src/browser/filesystem.js:124-140 | expansion returns to a path after the multiples of its cycle's length and at no other time |
| Symlinks.SelfLink | src/browser/filesystem.js:126 | a link to itself is a result that is still a link and yet stable |
| Symlinks.RingResolves | src/browser/filesystem.js:126 | of n links in a ring the result is always a link, and stable only for one link or 41 |
| Symlinks.TwoCycle | src/browser/filesystem.js:126 | two links to each other: the result is still a link, and resolving it gives the other |
| Symlinks.StepsUsualIff | src/browser/filesystem.js:129-137 | every expansion of every path is a step of the lookup that starts relative targets in the link's directory, if and only if no directly reachable link has a target that depends on its directory |
| Symlinks.ResolveIsUsual | src/browser/filesystem.js:124-140 | with such links every path resolves as in that lookup |
| Symlinks.PlainTarget | src/browser/filesystem.js:133-135 | a relative target without `..` is independent of its directory only in the root |
| Symlinks.RelativeMisled | src/browser/filesystem.js:133-135 | a link in a directory to a sibling leads to the root instead |
| Paths.Readdir | src/browser/filesystem.js:147-170 | `.` and `..`, then each child exactly when the normal form of path, slash and name is not whited out, each once, in the order of first occurrence, as link, directory or file by that path |
| Paths.ChildPathIs | src/browser/filesystem.js:158 | the path built for a child is the normal form of path, slash and name |
| Paths.NamesDistinct | src/browser/filesystem.js:147-170 | no name occurs twice in a listing |

## Left out

- The rows of the flag tables (native/blink/blink/deps.c:82 and below): an instruction carries arbitrary read and overwritten sets, and the theorems about licensed drops assume they describe it at the states visited.
- FlagLiveness.InStepIff: an instruction gives a flag a value that does not depend on open flags, leaves it or complements it; copying one flag into another is outside.
- FlagLiveness.CrawlFlags: a needed set of all 32 flags, the word -1 that the code also uses for "unknown", is kept apart from "unknown".
- FlagLiveness.Converge: instructions that fault or raise are not told apart from others; decoding fails the same way for analysis and execution.
- Native code generation itself (native/blink/blink/alu2.c): a dropped flag write is modelled as leaving arbitrary values in the dropped flags.
- The second result word of the few calls that return one (src/browser/kernel-worker.js:1229 and 1373).
- SYS_PROC_WAIT in the trap handshake: the kernel clears that trap without answering it (src/browser/kernel-worker.js:1347-1351 and 1476-1479).
- Several writers on one pipe, the bad-descriptor answers of the pipe calls, and the rings in other files, which follow other rules.
- The bridge request ring of src/browser/kernel-worker.js, which turns on timeouts.
- 8-, 16- and 32-bit multiplication and division, shifts, plain rotates, INC and DEC, logic operations, double shifts and decimal adjustment.
- CloseFds.SysCloseExec: the `oflags` words of all descriptors are one set; locks, signal masks and the routing of sockets and pipes are not modelled; a descriptor's close either fails or not, fixed in advance.
- InitialStack.LoadArgv: the stack has room, because a failing copy to guest memory aborts the emulator; what the host answers (user ids, page size, clock ticks) is a parameter.
- Getdents.Getdents64: names are UTF-8 bytes without NUL, the encoder being a parameter in DirectoryListing; allocation failure for huge counts is not modelled.
- Paths.Readdir: `children`, `dirs`, `symlinks` and `whiteouts` are taken as they are; unlink, rename and mkdir, which change them, are not modelled.
- Memory management, signals, processes, files, networking, persistence and the user interface.
