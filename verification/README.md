# Verified models of a Unix userland

Dafny models of nine programs of this tree that hold real algorithms or protocols, with proofs of
what their code and comments promise.  `dafny verify dfyconfig.toml` checks the whole project.

| program | files | what is modelled |
|---|---|---|
| etc/rmt.c | Rmt*.dfy | the ring of processes that passes the RECV, TAPE and SEND locks by signals, with the rendezvous for open and close, as a transition system over every interleaving and every ring size |
| 5bin/expr.c | Expr*.dfy | the evaluator over the global cursor, end flag and parenthesis count, its grammar, and exactly what it accepts |
| bin/ed.c | Ed*.dfy | the two-buffer temporary file, the line table, undo, the editing commands, global, and the rotor machine |
| etc/mkfs.c | Mkfs*.dfy | the free map by masks, the five kinds of counters that follow it, group and super-block totals, the inode maps, the rotational tables |
| bin/tar.c | Tar*.dfy | record blocking, header blocks, writing and reading of whole archives, the stack of directory times |
| etc/inetd.c | Inetd*.dfy | the service table under all its event handlers |
| bin/dd.c | Dd.dfy | block and unblock over the output buffer |
| etc/mount.c | Mount.dfy | the mount tree and its traversal with retries |
| bin/ps.c | Ps.dfy | the sampled index of the wait channels |

Code that changes things in place is modelled by classes and loops, each proved against functions on
values; the lemmas are about those functions.  The tape server is a state machine, since what it does
is its interleavings.  What the environment decides (device results, sizes of reads, sockets, forks,
mount results, regular expressions) is a function parameter, so every result holds
whatever it answers.

## Where the code does less than one would expect

- expr accepts some argument lists that are not expressions, unbalanced ones among them:
  `( ( b ) c` yields `b`.  `ExactAcceptance` says exactly which, by the shape of the open
  parentheses at the last argument (`SlipShape`).
- expr compares numbers by a 32-bit difference: the four orderings are right exactly when the
  difference is a 32-bit number (`ComparisonExact`, `WrongComparison`).
- The check of ed for a temporary file that is too big never fires, because the block number has been
  masked before it; line addresses meet again after 0x800000, and the later line overwrites the earlier
  one (`TooBigNotDetected`, `AddressesCollide`, `Overwrite`).
- The rotational tables of mkfs keep distances in bytes.  A chain is complete exactly if all
  neighbours on it are less than 256 blocks apart (`TablesComplete`), and main() lets disks through
  for which that fails (`FarBlocks`).
- fs_dsize is not what mkfs counts as free when the summary area, which main() does not look at, pushes
  the data of the first group too far (`InitAll`, `SummaryBeyond`).
- A negative time on tar's directory stack means "none", so such a directory is not set (`Run`,
  `NegativeTime`).
- tar is sure to keep the bytes of a file exactly if read gives whole blocks until its end; behind a
  shorter read it puts what its buffer held, which may or may not be right (`KeptExactly`, `ShortRead`).
- inetd's count of sockets goes wrong exactly when a configuration takes the socket away from a
  service whose daemon is running (`Config`, `TermServ`, `PortChanged`).
- A configuration of inetd opens new services before it drops old ones, so that a new one can be left out
  although there is room in the end (`DroppedTooLate`).  With services on known ports only, all are open
  afterwards, or the table is full, exactly if there is room for old and new together, or none that was
  open is dropped (`AllOpenOrFull`).
- The mount tree knows the directories that an entry lies in exactly if they are listed before it
  (`UnderExact`, `OutOfOrder`).
- The loop `while (retry--)` of mount is bounded for a negative `retry` too, but only by wrap-around
  (`Left`, `Tries`).

## Model

| member | source | states |
|---|---|---|
| RmtInvariant.StepInv | etc/rmt.c:84-219 | every step of every process keeps the invariant that ties program counters, pending signals, input position, tape log and output log to how many commands have been read, done and answered |
| RmtTheorems.UniqueTokens | etc/rmt.c:81-219 | in every reachable state, also during rendezvous and after a new open, each of RECV, TAPE and SEND is owned by exactly one process, pending or held; it can be gone only after a process has left, and is never there twice |
| RmtTheorems.RendezvousParksOthers | etc/rmt.c:170-185 | in every reachable state in which a rendezvous has been signalled, the signaller holds all three tokens, the parent has that one signal, and all others wait with nothing pending |
| RmtTheorems.MutualExclusion | etc/rmt.c:84-168 | no two processes read standard input, drive the tape, or write output at once |
| RmtTheorems.NoSignalCoalesced | etc/rmt.c:51-61 | a process that is sent a signal has none of that kind pending, so that none is lost, although pending signals are a set |
| RmtTheorems.RefinesSequential | etc/rmt.c:84-216 | at any moment the tape log and the output are prefixes of what a sequential server would produce for the same commands: operations in command order, each reply with its data behind it; ClientReads says what the replies are |
| RmtTheorems.ClientReads | etc/rmt.c:84-216 | at any moment the client has read a beginning of the right answers: per command, in order, an acknowledgement of what the device returned behind all operations so far, the bytes read behind that of a read, the status behind its size, the count for an ioctl, or the error alone |
| RmtLiveness.Progress | etc/rmt.c:84-219 | as long as a process is left, some process can step |
| RmtLiveness.StoppedIsComplete | etc/rmt.c:84-219 | when none can step, tape and output are exactly those of the sequential server |
| RmtLiveness.ClientHasRead | etc/rmt.c:84-219 | when none can step, the client has read the whole answer to every command up to the first bad one, and the device has been asked exactly for those |
| RmtLiveness.RingFills | etc/rmt.c:186-216 | after an open that succeeds a ring of any size up to the limit can come about, each child signalling the one forked before it |
| RmtLiveness.RunsAreBounded | etc/rmt.c:84-219 | a run has at most 18 steps for each command and process, so that progress leads to completion |
| ExprGrammar.ParseTree | 5bin/expr.c:301-398 | from any place where a complete expression stands, the evaluator gets behind it with its tree, left associative and by the priorities of pri[], although the cursor oversteps and steps back |
| ExprGrammar.WellFormedParses | 5bin/expr.c:301-413 | on a well-formed expression expres(0,1) consumes exactly all tokens, ends with paren 0, and main accepts |
| ExprAccept.RunCall | 5bin/expr.c:301-398 | any call either reads a complete expression or is stuck where a scan of the tokens says, with the cursor and parenthesis count that the open levels determine |
| ExprAccept.ExactAcceptance | 5bin/expr.c:301-413 | main accepts exactly the well-formed lists and those that slip over a last argument, and no list is both |
| ExprAccept.UnwindJunkShape | 5bin/expr.c:330-371 | for which shapes of open parentheses unwinding ends with the cursor on the end and paren 0 |
| ExprAccept.UnbalancedRejected | 5bin/expr.c:399-413 | unbalanced parentheses are rejected if and only if the list does not slip |
| ExprAccept.UnbalancedAccepted | 5bin/expr.c:399-413 | an unbalanced list that is accepted |
| ExprEval.Expr.Yylex | 5bin/expr.c:54-81 | the search through the tables operator[] and op[], up to its end mark, finds the token that the text of the argument stands for, and none for any other word |
| ExprEval.Expr.Expres | 5bin/expr.c:301-398 | the evaluator moves its three globals as the parse says, and returns the value of the tree, or the error that comes first |
| ExprEval.Expr.Lop | 5bin/expr.c:318-398 | the same for the loop behind the first operand |
| ExprEval.Expr.Run | 5bin/expr.c:399-413 | main prints the meaning of the tree exactly if the list is accepted, and fails otherwise; `expr r1 op r2` prints what op makes of the two words |
| ExprEval.FiveWords | 5bin/expr.c:301-398 | in `expr r1 op1 r2 op2 r3` the second operator is applied first exactly if it binds more, by the table of the operators' levels |
| ExprEval.ErrorSticks | 5bin/expr.c:301-398 | an error in a part is the error of whatever is read around it |
| ExprValue.PrintLong | 5bin/expr.c:276-300 | the digit loop prints a long, the smallest one by its special case |
| ExprValue.NumberRoundTrip | 5bin/expr.c:276-300 | what is printed for a long is numeric and is read back as that long |
| ExprValue.ComparisonExact | 5bin/expr.c:83-112 | equality of numbers is right; an ordering is right exactly if the difference fits 32 bits |
| ExprValue.WrongComparison | 5bin/expr.c:83-112 | 2147483647 compares as less than -1 |
| ExprValue.EvalMeans | 5bin/expr.c:83-185 | the value is the one meaning of a tree: sums, differences and products modulo 2^32, division toward zero with a remainder that has the sign of the dividend, comparison by the difference of 32 bits or alphabetical, the first operand that is not null for the or, the first for the and if neither is null; the first error is the result |
| ExprValue.StrCmpOrders | 5bin/expr.c:83-112 | words that are not numbers compare alphabetically |
| ExprValue.MagnitudeJoined | 5bin/expr.c:83-135 | digits are read as a decimal number |
| EdTempFile.TempFile.GetBlock | bin/ed.c:1730-1784 | a read yields a buffer that shows all text of its block; the write and the read buffer never hold the same block, and bytes in buffers and file stay those of the text |
| EdTempFile.TempFile.PutLine | bin/ed.c:1701-1728 | the line up to its newline is stored at a new even address, the rest is left over, all older lines are unchanged |
| EdTempFile.TempFile.GetLine | bin/ed.c:1682-1699 | a stored line comes back unchanged after any puts and gets, with or without the mark bit in its address |
| EdTempFile.TooBigNotDetected | bin/ed.c:1738-1743 | the test for block numbers from 65534 on cannot succeed |
| EdTempFile.TempFile.Locate | bin/ed.c:1730-1784 | for any address and any state of the buffers, which buffer is returned, what is in it, and what has gone to the file |
| EdTempFile.AddressesCollide | bin/ed.c:1738-1739 | two even addresses share block and offset if and only if they differ by a multiple of 0x800000 |
| EdTempFile.TempFile.Overwrite | bin/ed.c:1730-1784 | after an empty line has been stored at an address, the line at any address that shares its cell reads as empty, whatever it was and in whatever buffer or block it stood |
| EdTable.LineTable.Save | bin/ed.c:2904-2916 | lines, dot and marks are in the save area afterwards |
| EdTable.LineTable.Undo | bin/ed.c:2921-2946 | lines, dot, dol and marks change places with the saved ones, entries behind both are untouched |
| EdTable.LineTable.UndoTwice | bin/ed.c:2921-2946 | two undos are the identity on both arrays, all indices and all marks |
| EdTable.LineTable.Room | bin/ed.c:1527-1533 | there is no room for another line exactly if the table is full and the system gives out no more memory; otherwise it grows by 512 entries when it is full |
| EdTable.LineTable.Insert | bin/ed.c:1540-1546 | the shifting loop puts one line behind dot |
| EdTable.LineTable.RDelete | bin/ed.c:1642-1659 | exactly the addressed lines are gone, dot is the next line or the last |
| EdTable.LineTable.GDelete | bin/ed.c:1661-1680 | exactly the unmarked lines are left, in order; where dot is left |
| EdLines.OneByOneIsKept | bin/ed.c:1661-1680 | deleting the first marked line again and again leaves the unmarked lines |
| EdTable.LineTable.Reverse | bin/ed.c:2128-2140 | the loop turns round the entries from..to-1 and no others |
| EdLines.ThreeFlips | bin/ed.c:2109-2122 | turning two neighbouring blocks round and then both together exchanges them |
| EdTable.LineTable.MoveBlock | bin/ed.c:2107-2125 | in both directions the block is taken out and put behind the destination line, dot on its last line; it fails exactly if the destination is inside the block |
| EdEditor.Editor.MoveLines | bin/ed.c:2089-2126 | the m command: the same, with the marks of the block cleared, also when it fails |
| EdEditor.Editor.CopyLines | bin/ed.c:2089-2126 | the t command: new lines with the texts of the addressed ones behind the destination, all others as they were; it fails exactly if memory or the temporary file is too small for them |
| EdTexts.AppendedTexts | bin/ed.c:1521-1547 | the text of the buffer after lines have been put in |
| EdEditor.Editor.AppendLines | bin/ed.c:1521-1547 | the handed-over lines stand in order behind the address, dot on the last; it fails exactly if one is too long, or memory or the temporary file is too small for all, and then those before have come |
| EdEditor.Editor.JoinLines | bin/ed.c:1883-1903 | one line with the concatenated texts in place of the addressed ones; it fails exactly if that is too long or the temporary file too small |
| EdEditor.Editor.ReplaceLine | bin/ed.c:1930-1942 | the new text up to its first newline is the line, also for the names that marked it, and what stands behind newlines becomes lines behind it; when it fails |
| EdEditor.Editor.Substitute | bin/ed.c:1905-1949 | every addressed line becomes the lines of its new text, whatever the pattern does, all other lines stay, dot is on the last line of the last change, and whether there was a change is found out; it fails exactly if a new text is too long, or memory or the file too small for all of them |
| EdTexts.ReplacedTexts | bin/ed.c:2023-2033 | the text of the buffer after one line has been replaced by the pieces of its new text |
| EdEditor.Editor.Do | bin/ed.c:626-830 | what each modelled command makes of lines, texts, dot, names and free space, and exactly when it is an error |
| EdEditor.Editor.DoAll | bin/ed.c:1869-1880 | a list of commands has the effects of all of them one behind the other, or of those up to the first error |
| EdEditor.Editor.EditsThenUndo | bin/ed.c:2904-2946 | after save and any edits, failing ones included, undo brings back lines, texts, dot, dol and marks |
| EdGlobal.Scan | bin/ed.c:1869-1880 | the scan of global ends for every command list without undo; each run is on the first line marked at that time, takes its mark, begins with what the run before it has left, and has the effects of the commands on it; the buffer is what the last run has left, and no mark is there unless a run has failed |
| EdGlobal.Global | bin/ed.c:1826-1881 | the same, from the buffer in which exactly the addressed lines that match are marked; undo would restore the buffer from before |
| EdGlobal.MarksAccounted | bin/ed.c:1864-1881 | every line that matched has had a run of its own, no line two, or has lost its mark in the run of another line, or is still marked after a failed run |
| EdGlobal.RunsAsMarks | bin/ed.c:1864-1881 | when global ends well there have been as many runs as matching lines exactly if no run has taken the mark of another line, and then the lines with a run are those that matched |
| EdGlobal.NothingLost | bin/ed.c:1864-1881 | no mark is lost by command lists that delete, join, change and move no marked line, wherever their commands come to be executed |
| EdGlobal.MarkedMatching | bin/ed.c:1864-1868 | there are as many marks as addressed lines that match |
| EdEffects.MarksSpared | bin/ed.c:1869-1880 | a command leaves all marks if the lines that it takes away, changes or moves have none |
| EdGlobal.GlobalDelete | bin/ed.c:1864-1880 | the special case g/.../d and the general scan with d leave the same lines, those that do not match |
| EdCipher.PartnerExists | bin/ed.c:2389-2396 | a free slot finds a free partner below it, because the number of free slots is even |
| EdCipher.Probe | bin/ed.c:2393-2394 | the probing loop ends at a free slot, the first from where it starts |
| EdCipher.CrInit | bin/ed.c:2375-2400 | for any 13 bytes of the key crinit ends, with the tables that the seeds of the key give, t1 a permutation, t2 its inverse, and t3 exchanging pairs of different bytes |
| EdCipher.Settled | bin/ed.c:2385-2392 | slot k of the first table is what round 255 - k has drawn, and stays so |
| EdCipher.CrBlock | bin/ed.c:2274-2300 | each byte is turned by its own place in the file |
| EdCipher.RotorPlaces | bin/ed.c:2292-2299 | how a byte is turned at place n1 + 256 n2 + 65536 m: n1 turns before the first table, n2 between the first and the third |
| EdCipher.CryptTwice | bin/ed.c:2274-2300 | turning a buffer twice from the same place is the identity |
| EdCipher.CryptBlocks | bin/ed.c:2274-2300 | how a file is cut into blocks does not matter |
| EdCipher.NeverItself | bin/ed.c:2292-2292 | no byte is turned into itself |
| EdCipher.EncryptAndDecrypt | bin/ed.c:2274-2400 | the machine that crinit builds changes every byte, and gives the text back when it is applied again |
| MkfsBitmap.IsBlockMeans | etc/mkfs.c:1123-1150 | the mask test holds exactly if all fragments of the block are free, for 1, 2, 4 and 8 fragments |
| MkfsBitmap.SetBlockMeans | etc/mkfs.c:1186-1212 | exactly the fragments of the block become free |
| MkfsBitmap.ClrBlockMeans | etc/mkfs.c:1155-1181 | exactly the fragments of the block are taken |
| MkfsGroup.Recount | etc/mkfs.c:846-881 | when one block changes, all counters of the group agree with the map again if each has changed by that block's share |
| MkfsCounts.FreeIsCounted | etc/mkfs.c:846-881 | whole blocks times fragments plus loose fragments is what is free |
| Mkfs.FileSystem.InitCg | etc/mkfs.c:791-896 | for every layout that passes the tests of main(), exactly which fragments of a new group are free, those of the super block copy, the group and its inodes never; block, fragment, run, cylinder and position counts and the summary say so; fs_dsize grows by what lies in the group |
| Mkfs.FileSystem.InitAll | etc/mkfs.c:748-755 | after all groups fs_dsize is the free space that the totals count, if and only if the first group has room for the summary area and the block that it ends in; otherwise by how much they differ |
| Mkfs.DataInside | etc/mkfs.c:677-709 | the two tests of main() make the data of every group begin inside it, but for the summary area |
| Mkfs.SummaryBeyond | etc/mkfs.c:677-709 | a small file system that main() lets through and whose totals count four fragments that are not there |
| Mkfs.FileSystem.FindBlock | etc/mkfs.c:1010-1015 | the search finds the first free block whenever the count is not 0; its internal error does not happen |
| Mkfs.FileSystem.Alloc | etc/mkfs.c:991-1038 | the first k fragments of the first free block are taken, k the least number that holds the size, the others of it stay free, each total changes by exactly that, all counters agree with the map; nothing happens when there is no block |
| Mkfs.FileSystem.Build | etc/mkfs.c:748-759 | the allocations that succeed are the first m, all of them unless the first group has no whole block left; what is free and what those m took is fs_dsize, with what lies beyond the first group; every group is sound |
| MkfsInodes.Inodes.InitAll | etc/mkfs.c:837-844 | all inodes are free but for those in front of the root's, and the counts of groups, summaries and super block say so |
| MkfsInodes.Inodes.IPut | etc/mkfs.c:1043-1060 | the counts of free inodes stay right if and only if the inode is one of the first group and was free; the total drops in any case |
| MkfsInodes.SetTakes | etc/mkfs.c:1055-1056 | setting a bit of the map takes one free inode exactly if it was clear and inside |
| MkfsInodes.Inodes.Build | etc/mkfs.c:934-961 | after different inodes of the first group have been allocated, all counts agree with the maps, and exactly those are used |
| MkfsRotation.FillTables | etc/mkfs.c:658-672 | fs_postbl holds the first block of each position, fs_rotbl the distance to the next one modulo 256 |
| MkfsRotation.ChainIsMembers | etc/mkfs.c:658-672 | the chain from a block visits exactly the blocks of its position from there on, once and in order, if and only if all neighbours are less than 256 apart |
| MkfsRotation.TablesComplete | etc/mkfs.c:658-672 | the same for the chains from fs_postbl |
| MkfsRotation.FarBlocks | etc/mkfs.c:627-652 | a disk for which main() makes tables and whose chain is cut |
| TarBlocks.TapeWriter.WriteTBuf | bin/tar.c:1328-1372 | tape and buffer together are all blocks submitted, in order, on both paths; only whole records go to the tape; the hint is what is missing to the next one, and the place in the buffer that of as many single blocks |
| TarBlocks.TapeWriter.FlushTape | bin/tar.c:1390-1399 | the last record is filled up with what the buffer held, and nothing else is added |
| TarBlocks.TapeReader.ReadTBuf | bin/tar.c:1292-1326 | the blocks read are the next ones of the tape, never across a record, whatever the record size is found to be |
| TarHeader.HeaderRoundTrip | bin/tar.c:1047-1073 | a header that fits its fields is read back in all fields, with the right checksum |
| TarHeader.HeaderLayout | bin/tar.c:41-52 | at which bytes of the block each field stands, and how it ends |
| TarHeader.ChangeDetected | bin/tar.c:1061-1073 | a header of which one byte outside the checksum's field has changed is rejected |
| TarArchive.PutRegular | bin/tar.c:699-733 | whatever read returns and whatever becomes of the file, exactly as many blocks follow a header as it announces, and which bytes they hold; with good reads (whole blocks, or the rest of the file) those of the file, otherwise those up to the end of the first bad read, and there NUL or an earlier byte |
| TarArchive.BlockReadsGood | bin/tar.c:710-717 | reads that return whole blocks, or all that they are asked for, are good ones, wherever the buffer stands |
| TarArchive.KeptExactly | bin/tar.c:699-733 | for a given size and given answers of read, every file of that size is on the tape as it is if and only if all reads until its end are good |
| TarArchive.ShortRead | bin/tar.c:710-717 | a file of 200 bytes, read 100 at a time, loses its second half |
| TarArchive.PutFile | bin/tar.c:528-742 | every kind of file becomes a member whose blocks its header describes, with its bytes if reads give whole blocks and the file stays as it is |
| TarArchive.Extract | bin/tar.c:822-847 | the bytes written are the member's blocks cut to its size, and exactly its blocks are used up |
| TarArchive.PassTape | bin/tar.c:513-526 | exactly the member's blocks are passed over |
| TarArchive.ReadArchive | bin/tar.c:744-861 | every header is met, in order; wanted members come with their bytes; it stops at the first empty block |
| TarArchive.CreateAndExtract | bin/tar.c:379-476 | whatever read returns, the reader meets the header of every file in order; with reads of whole blocks what is written is read back, for every record size and choice of members |
| TarDirs.DirTimes.DoDirTimes | bin/tar.c:1624-1662 | exactly the waiting directories that the new name lies outside of are set, once, to their times; those around it wait as before, it waits with its own |
| TarDirs.DirTimes.Run | bin/tar.c:855-858 | in the end a directory has the time last recorded for it if and only if that is not negative, and nothing else has been given a time |
| TarDirs.NegativeTime | bin/tar.c:1647-1662 | a tape with one directory from before the epoch: its time is never set |
| TarDirs.SlashesFit | bin/tar.c:1620-1622 | a name without slashes in a row that fits its field fits the table of times |
| InetdModel.OpeningSound | etc/inetd.c:625-662 | opening a socket keeps the accounting |
| Inetd.Daemon.Setup | etc/inetd.c:625-711 | a socket is opened and polled and counted exactly if socket gives a descriptor that no entry has and bind succeeds; otherwise nothing changes |
| Inetd.Daemon.TermServ | etc/inetd.c:719-735 | the service is closed and uncounted; an undisturbed daemon stays so if and only if the service was not waiting for a pid |
| Inetd.Daemon.Dispatch | etc/inetd.c:283-343 | what each outcome for a ready socket changes; an undisturbed daemon stays so |
| Inetd.Daemon.ReapChild | etc/inetd.c:425-474 | services waiting for the pid are polled again |
| Inetd.Daemon.Retry | etc/inetd.c:605-617 | only closed services that are not RPC services are tried again; if the system refuses no socket, all of those are open afterwards or maxservers is reached |
| Inetd.Daemon.ConfigLine | etc/inetd.c:491-571 | what one line of the file does to its entry and to no other: se_wait, port, and the socket, which a service that is not known loses, an open one on its port keeps, and any other gets exactly if there is room and the system gives it |
| Inetd.Daemon.Config | etc/inetd.c:476-596 | the table has exactly the services of the file, each once, on their known ports; if the system refuses no socket, exactly which are open; those that wait for a pid and are named still do, and no others; nsock is the number of polled sockets afterwards if and only if every waiting service is in the file, is no RPC service, and keeps its port |
| Inetd.WantedAreOpen | etc/inetd.c:476-596 | if there is room for the old services and those of the file together, exactly the ones of the file are open afterwards that are RPC services or on known ports |
| InetdModel.AllOpenOrFull | etc/inetd.c:476-596 | a file of such services leaves all of them open, or maxservers reached, if and only if there is room for old and new together, or no service that was open is dropped |
| InetdModel.DroppedTooLate | etc/inetd.c:576-583 | with room for one service, the new one stays closed while the old one is dropped |
| Inetd.Daemon.Run | etc/inetd.c:269-424 | in every run nservers is the number of open services and never above maxservers; if, in the states between the events, every configuration keeps the services that wait, nsock is the number of polled sockets and of open services that do not wait; a system that gives every socket is never counted as refusing one |
| Inetd.SteadyRun | etc/inetd.c:269-596 | in a run whose configurations all read the same file, of net services with known ports, no service that waits ever loses its socket, so that nsock stays right |
| Inetd.Daemon.React | etc/inetd.c:269-424 | what each event does to the table, pids and ports included, and that an undisturbed daemon stays so exactly if the services that wait are kept |
| Inetd.PortChanged | etc/inetd.c:530-571 | a running service whose port changes: nsock is -1 while no socket is polled |
| InetdModel.UndisturbedCounts | etc/inetd.c:269-274 | the same, for a state |
| InetdModel.AllSelected | etc/inetd.c:273-275 | every polled socket is among those that select looks at |
| Dd.Converter.Null | bin/dd.c:466-475 | one character more in the output; records are full |
| Dd.Converter.Flsh | bin/dd.c:369-385 | what is buffered becomes a record, and only then can a record be short |
| Dd.Converter.Block | bin/dd.c:589-616 | what a character adds to the output and to the truncation count |
| Dd.Converter.BlockAll | bin/dd.c:589-616 | lines become records, filled up or cut to cbs; ntrunc counts exactly those that are too long |
| Dd.Converter.Unblock | bin/dd.c:504-529 | blanks are held back until something follows them in the record |
| Dd.Converter.UnblockRecord | bin/dd.c:504-529 | a record becomes a line without its trailing blanks |
| Dd.LinesSurvive | bin/dd.c:504-616 | what the round trip gives back is the text if and only if every line fits and ends in no blank |
| Dd.RoundTrip | bin/dd.c:504-616 | unblock after block gives back the lines, cut to cbs and without trailing blanks, for all output sizes |
| Mount.Substr | etc/mount.c:1277-1289 | true exactly if the first path is one that the second lies in; for equal paths what the memory behind them decides |
| Mount.MakeTree | etc/mount.c:1152-1170 | the linked tree becomes the tree with the entry inserted, also for a directory that is there already |
| Mount.BuildEntries | etc/mount.c:1152-1170 | no entry of the table is lost |
| Mount.BuildUnder | etc/mount.c:1152-1170 | if directories come before those inside them, an entry is in the kid subtree of another exactly if it lies inside it |
| Mount.UnderExact | etc/mount.c:1152-1170 | for tables without a directory twice, the tree is right exactly if no directory comes before one that it lies in |
| Mount.BelowMeans | etc/mount.c:1152-1170 | for every table, to be below an entry is to come later, and to lie inside it or, for equal paths, what the memory behind them decides |
| Mount.OutOfOrder | etc/mount.c:1152-1170 | with /a/b listed before /a, /a/b is attempted whatever becomes of /a |
| Mount.Session.Try | etc/mount.c:1216-1255 | attempts go on while there are network errors and tries left, for every value of retry, and end with the first other result |
| Mount.MountTree | etc/mount.c:1182-1272 | an entry is attempted if and only if everything above it in the tree has been mounted, and only afterwards |
| Mount.MountAll | etc/mount.c:199-236 | for every table, also with a directory listed twice, an entry is attempted if and only if everything above it in the tree has been mounted, and only afterwards; in an ordered table without a directory twice that is every listed directory it lies in; what has been attempted is mounted, has failed, or has used up its tries; the result tells whether all are mounted |
| Ps.WaitChannels.constructor | bin/ps.c:623-627 | the index holds the ten samples |
| Ps.WaitChannels.GetChan | bin/ps.c:1581-1609 | the indexed search gives the name of a full scan for the last channel not above the address, with duplicates and short tables; address 0 has no name |

## Left out

- EdTempFile.TempFile.GetBlock: for addresses below 0x800000, where blocks keep their numbers; `Locate` and `Overwrite` are for all.
- EdTempFile.TempFile.PutLine: asks for room below address 0x800000; the code does not check, and lines beyond would overwrite the first ones.
- EdEditor.Editor.AppendLine: a full temporary file is an error here, for the same reason.
- EdTable.LineTable.RDelete: reads the entry behind the last line, as the code does; the model keeps a spare entry, the code relies on there being memory.
- EdEditor.Editor.Substitute: the pattern, the replacement text and the occurrence number are one function from a line to its new text. What names become is stated line by line (`ReplaceLine`), and when it fails on the way, only that the lines before and behind are as they were.
- EdEditor.Editor.Do: line numbers are worked out beforehand; an address that does not exist is an error.
- EdGlobal.Global: the command list is any sequence of the modelled edits for each run, which may differ from run to run; undo inside it is outside, an error ends the scan.
- EdGlobal.GlobalDelete: the two ways can leave dot on different lines; only the lines are said to be equal.
- Mkfs.FileSystem.InitCg: for a summary area that ends inside the map of the first group; one that does not would make the code write behind the map.
- Mkfs.FileSystem.Alloc: for sizes up to a block; a size between the last fragment boundary and the block size also counts in cg_frsum[0], which no counter stands for. Sizes of 0 would leave a free block uncounted and do not occur.
- TarDirs.DirTimes.DoDirTimes: names need fewer than 51 slashes; names with slashes in a row can have more, and would leave the table.
- EdCipher.CrInit: the 13 bytes are what makekey has made of the key.
- Inetd.Daemon.Dispatch: counting of looping services by time is one outcome chosen by a parameter; so are accept and fork.
- InetdModel.AllOpenOrFull: for files without services on unknown ports; with those the order of the lines counts, as `Config` says.
- Inetd.Daemon.Config: table entries are values in a sequence, not linked structures; user, server and argument strings are not kept.
- RmtLiveness.RingFills: for a ring made by the first command.
- Mount.MountAll: the memory behind the paths of two entries is given for their comparison, and differs somewhere. "/" and paths with a slash at the end are no ancestors of anything.
- Mount.MountTree: mounting in the background (fork) is not modelled, and realpath is the identity.
- ExprEval.Expr.Expres: an argument "match" is an ordinary word, the prefix operator is not modelled; ":" is any function of two strings.
- ExprEval.Expr.Lop: the same.
- rmt: reads of single bytes, end of file inside a command, failing memory allocation and the debug output; the device is any function of the operations so far.
- ed: reading and writing of files, encryption of the temporary file, addresses and regular expressions, shell escapes, terminal output.
- mkfs: the inodes themselves, option parsing and the search for parameters.
- tar: the -u list, ownership and permissions, directory walking, backspacing, link bookkeeping; names in headers are bytes without sign.
- inetd: parsing of the file, built-in services, the child's side, portmapper calls and the alarm.
- dd: ASCII and EBCDIC tables, case conversion, input errors, skipping and seeking.
- ps: sorting itself (the C library's qsort) and reading of kernel memory.
- bin/mps.c and bin/bar.c repeat ps and tar; the remaining utilities are input and output around little logic.
