# The hosted Inferno kernel's arithmetic, storage, queues and wire formats

A model of the parts of Inferno (second edition) in which most of its state and arithmetic is:

- the multi-precision kernel of `crypt/`, from the word loops to modular exponentiation, on arrays of
  32-bit words that are updated in place: Karatsuba multiplication and squaring, long division,
  Montgomery reduction, the window and comb exponentiations, and signed numbers as bytes;
- the tiny file system of `emu/devtinyfs.c`: its blocks, the recovery scan over any medium, files and
  appends as rows of single block writes, and runs of operations on the file table;
- the storage allocator of `emu/alloc.c`: the search tree of free blocks in the headers of the blocks
  themselves, arenas, splitting and joining;
- the concurrent parts: queueing and read/write locks, the token of the Dis machine and its run queue,
  the mount driver's multiplexer, and the I/O queues, each as steps in any interleaving of any number of
  processes, with the sections run under a lock written as methods on the linked structures they change;
- the Styx messages, the stream they come in, the MD5 and SHA digests with their streaming interface, and
  the SSL device's record digests and record encryption (DES in ECB and CBC, RC4), with DES and triple DES as ciphers.

Code that changes things in place is a class with the source's fields or a method on arrays, proved
against a specification function; what the source promises is then proved of that function. Multi-precision
numbers are specified by `Words.Val`, the integer a row of words denotes; a file system by the files its
medium holds; a pool by the map of block sizes; a queue by its sequence.

`dafny verify dfyconfig.toml` checks the project.

## Model

| member | source | states |
|---|---|---|
| LongMult.LMULT | crypt/longmult.c:33-59 | a row times a word added into another row: result and carry out together are the exact sum; no other word changes |
| Karatsuba.BigmultN | crypt/coremult.c:23-44 | the schoolbook loop leaves the product of two rows of n words in 2n words of a third and touches nothing else |
| Karatsuba.RecursiveMultiply | crypt/fastmult.c:115-180 | Karatsuba in place, at every length a power of two times the cutoff: the 2n result words are the product, the scratch row may be clobbered, every other word is unchanged, although operands, result and scratch share arrays |
| Karatsuba.AddMiddle | crypt/fastmult.c:145-180 | low, high and signed cross product combine in the four quarters to exactly the number Karatsuba's identity names, so the carry out of the middle is absorbed |
| Squaring.BigsquareN | crypt/coremult.c:46-69 | diagonal and doubled cross terms, with the doubled carry of two words, give exactly the square |
| Squaring.RecursiveSquare | crypt/fastmult.c:198-243 | recursive squaring in place equals the square; every other word is unchanged |
| CoreMult.NumtypeBigmult | crypt/coremult.c:71-113 | a number times a word, moved up `offset` words, is added to another whose storage may have to grow; the words above its length up to the row written are zero |
| FastMult.GetRecurseLen | crypt/fastmult.c:57-76 | the largest power of two not above the length |
| FastMult.FastMultiply | crypt/fastmult.c:246-314 | operands of any two lengths: the power-of-two parts recursively, the rest row by row, sum to the product |
| FastMult.FastSquare | crypt/fastmult.c:319-378 | the same for squares of any length |
| FastMult.BigMultiply | crypt/fastmult.c:384-397 | the signed product of any two numbers whichever of the four algorithms is selected, equal pointers included, for every cutoff the builds use |
| BigMath.Bigsub | crypt/bigmath.c:110-171 | difference of magnitudes when the result is not the minuend; in place the result is right if and only if `InPlaceSafe` |
| BigMath.BorrowLost | crypt/bigmath.c:105-108 | a concrete pair for which subtraction in place is wrong, and the words it leaves |
| BigMath.BigSubtract | crypt/bigSubtract.c:11-53 | signed difference for all sign combinations and any sharing of records, right if and only if the signs differ or bigsub is not made to subtract in place where that is not safe (`SafeOver`) |
| BigMath.BigAdd | crypt/bigAdd.c:11-38 | signed sum likewise, with the exception when the signs differ |
| BigShift.BigLeftShift | crypt/bigLeftShift.c:61-83 | multiplication by a power of two, any number of bits, into another record or in place |
| BigShift.BigRightShift | crypt/bigRightShift.c:59-69 | floor division by a power of two in place |
| LongDivide.LongBigDivide | crypt/longBigDivide.c:53-105 | two words by a normalised word, by halves with corrections: the exact quotient |
| Divide.DigitStep | crypt/bigDivide.c:88-119 | one digit of long division: what is left is exact and back in range, the digit is the trial digit, and it is one too large exactly when the divisor is added back |
| Division.BigDivide | crypt/bigDivide.c:13-136 | the remainder is always exact, with the sign of the dividend; quotient times divisor plus remainder is the dividend if and only if no step adds back (`AddsBack`) and the sign left on the quotient fits (`SignFits`, a test on the operands); by how much the magnitude is too large and what the sign is otherwise |
| Division.DivisionLaw | crypt/bigDivide.c:23-46 | the division law for a quotient with an excess and the sign the code leaves on it: it holds exactly without excess and with a fitting sign, for all operands |
| Division.SignLost | crypt/bigDivide.c:23-29 | -7 by 2: the quotient comes out as 3 |
| Division.QuotientExact | crypt/bigDivide.c:114-120 | the excess is never negative and is zero exactly without an add-back |
| Division.ShortDivisorRight | crypt/bigDivide.c:88-120 | the magnitude of the quotient is right for every dividend and every divisor of one or two words |
| Division.AddsBackExample | crypt/bigDivide.c:114-120 | a dividend and divisor whose quotient comes out as 2 and not 1 |
| Division.BigMod | crypt/bigMod.c:20-118 | for moduli of two words or more, and 1, what is left is congruent to the dividend and at most the modulus; it is the residue unless the dividend is the modulus moved up by whole words, and the modulus itself then |
| Division.ReducedCongruent | crypt/bigMod.c:50-116 | leaving the modulus where zero is meant keeps the congruence class |
| Division.NotReduced | crypt/bigMod.c:76-80 | every such dividend, not one only, comes out as the modulus |
| Montgomery.ModInverse | crypt/bigPow.c:20-41 | for every odd word, its product with the result is -1 modulo 2^32 |
| Montgomery.REDC | crypt/bigPow.c:80-109 | Montgomery reduction: times R congruent to the argument, and at most the modulus, for every argument in range |
| Montgomery.ResForm | crypt/bigPow.c:55-74 | the residue form holds the number, for every number |
| Power.BuildAddChainTable | crypt/bigPow.c:111-132 | entry i holds the i-th power in residue form, i from 1 to 15 |
| Power.Bigpow | crypt/bigPow.c:188-245 | the window exponentiation is congruent to the power for every base, exponent and odd modulus of two words or more, if and only if base and exponent are not both zero |
| Power.BigPow | crypt/bigPow.c:335-368 | the same with the base reduced first; base and exponent may be the modulus, or one another |
| Brickell.G16Bigpow | crypt/brickell_bigpow.c:13-57 | the table holds the base to the powers of 16 |
| Brickell.BuildCoeffTable | crypt/brickell_bigpow.c:59-98 | entry j holds the base to the sum of the places where the digit j stands |
| Brickell.BrickellBigpow | crypt/brickell_bigpow.c:100-131 | the comb computes the base to the exponent modulo 16 to the table's length, up to the modulus |
| Brickell.WithinTable | crypt/brickell_bigpow.c:59-98 | that is the whole exponent if and only if no digit stands between the end of the exponent and the end of the table |
| Brickell.OutsideTable | crypt/brickell_bigpow.c:59-98 | an exponent one digit longer than the table, which is taken for 0 |
| BigBuf.BigToBuf | crypt/bignum.c:226-289 | the bytes denote the signed number in two's complement, in place, and are minimal when the number has no leading zero word |
| BigBuf.ShortestEncoding | crypt/bignum.c:217-225 | minimal bytes are the only shortest ones: every other row of bytes for the number is longer |
| BigBuf.BufToBig | crypt/bignum.c:166-215 | the magnitude is that of the bytes; the number is if and only if it is not positive or the record was not negative before |
| BigBuf.StaleSign | crypt/bignum.c:192-213 | a byte row that fails, which is the only encoding of its number |
| TinyBlocks.ValidDir | emu/devtinyfs.c:137-152 | says of any 48 bytes exactly whether they are a directory block, and which |
| TinyBlocks.ValidData | emu/devtinyfs.c:154-182 | the same for data and end blocks |
| TinyBlocks.DataBlock | emu/devtinyfs.c:194-218 | the block written reads back as the data, padded to the full block if more follows |
| TinyBlocks.DirBlock | emu/devtinyfs.c:220-239 | the block written reads back as the directory entry, or as nothing while the file has no data |
| TinyBlocks.BlockForm | emu/devtinyfs.c:28-46 | the bytes of each kind of block, place by place, and exactly when a block is of that kind |
| TinyMap.MapAlloc | emu/devtinyfs.c:116-135 | takes the lowest free block and no other, or says that none is free |
| TinyTable.FreeBlocks | emu/devtinyfs.c:241-263 | clears exactly the bits of the chain up to its end |
| TinyScan.ScanKeepsAll | emu/devtinyfs.c:397-437 | on a medium in order the scan keeps every file |
| Tinyfs.Tfs.Init | emu/devtinyfs.c:356-439 | on every medium, however corrupt: the files kept have complete chains that share no block and are marked; no file whose chain is complete and its own is dropped; a medium in order is not written to; no entry has references or flags; the file table is in order if and only if every kept file without a name is without bytes |
| Tinyfs.Tfs.WalkTo | emu/devtinyfs.c:552-569 | the first entry of a name gets one reference more and nothing else changes, or there is none of that name |
| TinyWrite.NamelessExists | emu/devtinyfs.c:385-437 | a medium in order, of three blocks, whose one file has a byte and no name, so that the table is not in order after the scan |
| Tinyfs.Tfs.NewFile | emu/devtinyfs.c:301-349 | a fresh block and a free entry for the file, other files unchanged; on a full medium nothing is taken |
| Tinyfs.Tfs.Append | emu/devtinyfs.c:795-906 | an append is a row of block writes of which the last alone changes the files, and then only the one appended to; a failed append gives its blocks back; without empty last blocks it adds exactly its bytes and leaves no empty last block |
| Tinyfs.Tfs.AppendExact | emu/devtinyfs.c:883-892 | an append adds exactly its bytes if and only if the file does not end in an empty block after others |
| TinyWrite.EmptyEndExists | emu/devtinyfs.c:883-892 | a medium in order, of three blocks, on which it does not |
| TinyWrite.CrashAtomic | emu/devtinyfs.c:795-906 | stop after any number of an append's block writes and run the scan: the files are the old ones, or the old ones with the append; never anything else |
| Tinyfs.Tfs.Read | emu/devtinyfs.c:715-783 | exactly the bytes of the file from the offset on, cut at its end |
| Tinyfs.Tfs.Remove | emu/devtinyfs.c:636-649 | the file is gone from medium, table and bitmap, and no other |
| Tinyfs.Tfs.Reopen | emu/devtinyfs.c:576-610 | a truncating open makes a new entry of the same name and takes a reference from the old one |
| Tinyfs.Tfs.Close | emu/devtinyfs.c:659-713 | the last close removes a file marked for it; of a created file, it removes the others of its name that nobody has open and marks the rest; any other close leaves the medium and the bitmap as they were |
| TinyRun.VisitsKeep | emu/devtinyfs.c:552-713 | over every run of walks and closes from a table without flags, as the scan leaves it: every file stays, with its name and its bytes, and the table differs in the references only |
| TinyRun.NewestWins | emu/devtinyfs.c:676-692 | after the last close of a created file every other file of its name is gone from table and medium, or still open and marked to go; files of other names stay |
| TinyRun.BytesSinceMade | emu/devtinyfs.c:795-906 | over every run of creations, appends, truncations, removals and closes, a file holds the bytes appended since it was last made, in order |
| TinyRun.GoneStaysGone | emu/devtinyfs.c:636-713 | an entry given up stays free until it is made again |
| TinyRun.CloseStep | emu/devtinyfs.c:659-713 | closing changes the bytes of no file it does not remove |
| TinyRun.ReopenStep | emu/devtinyfs.c:576-610 | truncating changes the bytes of no other file; a reference goes from the old entry to the new one, which was free |
| FreeTree.FreeList.PoolAdd | emu/alloc.c:188-231 | the links in the block headers again form the search tree with rings, with exactly this block more; no header outside the tree changes |
| FreeTree.FreeList.PoolDel | emu/alloc.c:108-186 | exactly this block leaves, from a ring, a leaf, or a node with one or two children, and the tree stays a search tree |
| Pool.FindFit | emu/alloc.c:249-270 | a block of exactly the size if the tree has one, else the smallest larger one, else none |
| Pool.Pool.Grow | emu/alloc.c:293-350 | a new arena with leader, block, rest and end mark that keep the tiling; for blocks it has the larger of request and chunk if that fits under the cap, and the whole units of the room under it if not; it fails exactly when the request itself does not fit under the cap or sbrk fails |
| Pool.Pool.GrowthMost | emu/alloc.c:293-310 | no arena of whole units, up to the request or the chunk, fits under the cap and has more bytes |
| Pool.Pool.PoolAlloc | emu/alloc.c:233-357 | succeeds if and only if a free block is large enough, or the request fits under the cap and sbrk gives the bytes of the new arena, which are stated; the block is the smallest that is large enough, cut to the request unless less than a quarter of it would be left; it overlaps no block in use, and these keep place, size and header |
| Pool.Pool.PoolFree | emu/alloc.c:359-390 | exactly this block is given back, joined with its free neighbours; every other block in use keeps place, size and header |
| Pool.DataApart | emu/alloc.c:233-357 | in every reachable pool, blocks in use never overlap and lie inside an arena, clear of its tags |
| Pool.FreeApart | emu/alloc.c:359-390 | free blocks are never neighbours and are exactly the blocks of the tree |
| Pool.CountCovers | emu/alloc.c:359-390 | the count of bytes in use is at least the size of every block in use, so freeing never takes it below zero |
| Pool.RoundedMeans | emu/alloc.c:239-243 | the rounding leaves room for header, tail and the request with less than a unit to spare |
| QueueLock.QLock.Lock | emu/lock.c:18-38 | the lock if free, else the last place in the linked queue |
| QueueLock.QLock.Unlock | emu/lock.c:54-69 | the first waiter becomes the owner, else the lock is free |
| QueueLock.QLock.CanLock | emu/lock.c:40-52 | takes the lock exactly if it is free |
| RWLock.Exclusion | emu/lock.c:71-105 | in every interleaving of any number of processes: while one who called wlock is inside, nobody else is, whichever call he made |
| RWLock.ByItsCall | emu/lock.c:73-105 | in every interleaving: who called wlock is never inside as a reader, who called rlock never as a writer |
| RWLock.ReadTogether | emu/lock.c:73-82 | any two processes that call rlock can be inside at once, in a run of their own steps |
| RWLock.RlockEnters | emu/lock.c:73-82 | with no writer about, an rlock comes in by its own steps, whoever reads already |
| RWLock.FirstComeFirstServed | emu/lock.c:18-69 | in every interleaving the lock goes to those who wait in the order in which they came |
| RWLock.NoOvertaking | emu/lock.c:18-105 | in every interleaving: while a process waits for the lock, no process that came later, reader or writer, gets it |
| RWLock.NoDeadlock | emu/lock.c:71-105 | while a process is inside and nobody reads or writes, some process inside can go on |
| RWLock.Uncontended | emu/lock.c:73-82 | the canqlock of rlock never fails because of its own spin lock |
| VMToken.Isched.Acquire | emu/dis.c:465-505 | the section on the linked queue does what the abstract scheduler says |
| VMToken.Isched.Release | emu/dis.c:507-530 | the same for release: the head of the queue gets the machine |
| VMToken.Isched.Yield | emu/dis.c:532-558 | the same for iyield: the head gets it and the caller goes to the end |
| VMToken.Isched.Startup | emu/dis.c:560-585 | the same for a new interpreter |
| VMToken.OneToken | emu/dis.c:465-585 | in every interleaving, with processes created on the way: the machine is idle, or exactly one process has it or is handing it on |
| VMToken.WaitersQueued | emu/dis.c:465-585 | a process waits exactly if it is in the queue, once, or about to be handed the machine; none waits while it is idle |
| VMToken.AcquirerNext | emu/dis.c:465-558 | in every interleaving: while a process in acquire waits, the machine goes to one in acquire, before every interpreter |
| VMToken.InterpretersInOrder | emu/dis.c:507-585 | in every interleaving interpreters get the machine in the order in which they came to wait |
| VMToken.AcquirerServed | emu/dis.c:465-585 | while a process waits to acquire, some process can go on |
| RunQueue.Queue.DelRunQ | emu/dis.c:394-413 | a program leaves the linked queue from anywhere, with the tail pointer right |
| RunQueue.Queue.AddRun | emu/dis.c:363-378 | a program goes to the end |
| RunQueue.Queue.DelRun | emu/dis.c:380-392 | the first program leaves |
| RunQueue.Queue.PushRun | emu/dis.c:773-783 | a program goes to the front |
| Seqs.RemovedMeans | emu/dis.c:394-413 | removal takes one program and no other, and nothing is there twice |
| Seqs.RemovedInOrder | emu/dis.c:394-413 | what is left keeps its order: what stood before the program, then what stood behind it |
| MountMux.OneReader | emu/devmnt.c:601-662 | in every interleaving, with interrupts and failing flushes anywhere, and whatever becomes of the queue: one reader at most |
| MountMux.OwnBuffers | emu/devmnt.c:764-792 | likewise in every run: the swapping of reply buffers never gives two requests one buffer |
| MountMux.OwnBytes | emu/devmnt.c:664-792 | likewise in every run, beside a history of what was last read into each buffer: a request that is done, and not by a hangup, has in its own buffer the reply it was done by; in the runs of the next row, that is a reply to this request |
| MountMux.OwnReply | emu/devmnt.c:764-792 | in every run in which no request that the reader has in hand leaves by a failed flush: a request is done only by a reply with its own tag, or that of one of its flushes, or by a hangup |
| MountMux.DoneOnce | emu/devmnt.c:601-792 | in the same runs: done requests stay done until the process makes a new one, and are done only by their process or by the reader with a reply to them |
| MountMux.QueueExact | emu/devmnt.c:764-792 | in the same runs: the queue has exactly the requests that are waited for, not done and not in the reader's hands, once each |
| MountMux.ReplyDelivered | emu/devmnt.c:764-792 | in the same runs: a reply with the tag of a request in the queue completes that request in the next steps of the reader, and gives it the buffer with the reply |
| MountMux.ReusedInHand | emu/devmnt.c:764-830 | from every reachable state in which a request in hand can leave by a failed flush, a run in which its next use is done by the old reply while queued: the condition is needed each time |
| MountMux.ReplyMisused | emu/devmnt.c:764-830 | a run from the start that ends so, with a reply that is neither to the request nor to a flush of it |
| MountMux.QueueTorn | emu/devmnt.c:608-613 | and one that goes on to link a request into the list it is in |
| MountMux.LinkedOnce | emu/devmnt.c:608-613 | no request is linked twice in a run in which none in hand leaves by a failed flush |
| MountMux.NoLostReply | emu/devmnt.c:764-792 | likewise in every run: a sleeper whose request is done is about to be woken |
| MountMux.AnyIsWild | emu/devmnt.c:601-792 | the runs of these three include every run of the steps from the start |
| MountMux.NoLostGate | emu/devmnt.c:742-762 | in every run in which no sleeper picked by the gate leaves by a failed flush and no request is linked twice: while nobody reads, a sleeper with a request open has somebody coming to read or about to be woken to |
| MountMux.ComerReads | emu/devmnt.c:601-640 | and whoever is coming becomes the reader by its own steps alone |
| MountMux.GateLost | emu/devmnt.c:620-640 | without the first condition, a run that ends with nobody reading and a request asleep for ever |
| ByteQueue.IOQueue.Append | emu/qio.c:746-803 | the section of qbwrite on the linked blocks: the bytes go to the end, the reader is woken if it asked |
| ByteQueue.IOQueue.Produce | emu/qio.c:504-551 | the section of qproduce: nothing once the limit is reached |
| ByteQueue.IOQueue.Pass | emu/qio.c:470-502 | the section of qpass |
| ByteQueue.IOQueue.Take | emu/qio.c:635-700 | the section of qbread: the first block, and whether the writer is woken |
| ByteQueue.IOQueue.PushBack | emu/qio.c:690-715 | the remainder of a short read goes back to the front |
| ByteQueue.IOQueue.Close | emu/qio.c:900-924 | the section of qclose: the queue is empty and closed |
| QueueRun.ReadsInOrder | emu/qio.c:635-803 | in every run with any writers, what was read is a prefix of what went in, and no byte is lost or doubled |
| QueueRun.ReadTakes | emu/qio.c:635-715 | in every run: a read of n that found a first block takes exactly its first n bytes, or all it has if fewer, whatever the others do meanwhile; a read ends without a block only when the queue is closed |
| QueueRun.ReadsGetAll | emu/qio.c:635-715 | when no empty block was written, and then nobody writes or closes, as many reads of a byte or more as there are bytes left get everything that went in |
| QueueRun.WritePuts | emu/qio.c:746-803 | in every run without other producers: a qbwrite that ends has put in exactly its bytes once, unless the queue was closed |
| QueueRun.FlowBound | emu/qio.c:504-803 | with qbwrite and qproduce of blocks up to n bytes an open queue never holds 3n bytes or more beyond its limit |
| QueueRun.NoLostReader | emu/qio.c:635-803 | the reader never sleeps on a queue with data, or a closed one, without a wakeup on its way |
| QueueRun.SafeExactly | emu/qio.c:470-803 | with qbwrite and qpass, no run leaves reader and writer both asleep if and only if no block is over half the limit |
| QueueRun.NeverStuck | emu/qio.c:470-803 | the one direction, for every run |
| QueueRun.CanGetStuck | emu/qio.c:635-803 | the other: for every larger bound, a run that ends stuck |
| QueueRun.FillingCanStick | emu/qio.c:504-551 | with qproduce or qiwrite beside them no bound on the blocks helps: a run that ends stuck with single bytes, for every limit |
| Styx.RoundTripExactly | emu/styx.c:114-372 | a message comes back as it was if and only if its count fits two bytes |
| Styx.RoundTrip | emu/styx.c:114-372 | decoding takes exactly the encoded length and does not look at what follows |
| Styx.DecodePrefix | emu/styx.c:114-249 | messages delimit themselves: a longer stream never changes the message, a shorter one shows none |
| Styx.DecodeBoth | emu/styx.c:114-249 | what is decoded does not depend on what the record held before |
| Styx.TWireForm | emu/styx.c:251-372 | the bytes of every request, field by field in order, behind its type and tag |
| Styx.RWireForm | emu/styx.c:251-372 | the bytes of every reply likewise |
| Styx.LengthTable | emu/styx.c:41-73 | the lengths of the types are those of the table msglen |
| StyxCodec.ConvS2M | emu/styx.c:251-372 | the pointer walk of the encoder writes exactly the encoding and nothing behind it |
| StyxCodec.ConvM2S | emu/styx.c:114-249 | the decoder's results -1, 0 and n are exactly the three outcomes of decoding |
| StyxStream.Mnt.RpcRead | emu/devmnt.c:664-740 | the next message of a stream, whatever pieces it comes in: which message, and what is left, depends on the bytes alone |
| Digest.DigestState.Update | crypt/md5.c:196-287 | any cutting of the input into calls feeds the same bytes; with a partial block kept between calls |
| Digest.DigestState.Finish | crypt/md5.c:240-287 | the last call gives the digest of everything fed, as padding, bit count and compression define it |
| Digest.DigestState.Blocks | crypt/sha.c:94-185 | the block function folds the compression over whole blocks |
| Digest.CountWords | crypt/md5.c:252-262 | the count's two words are the 64-bit bit count, cut to 32 bits each |
| Digest.PaddedShape | crypt/md5.c:240-262 | the padded message, for both byte orders: whole blocks, the message, a byte 0x80, as few zeros as will do, and eight bytes that are the number of bits |
| Digest.DigestIs | crypt/md5.c:196-287 | the digest is the last of the states that the block function goes through from the seed on, block by block of the padded message |
| Digest.EncodedAt | crypt/md5.c:293-310 | every word of the state comes out as its four bytes, in the order of the hash |
| SslDigest.DigestB | emu/devssl.c:1120-1149 | the digest put into the record is that of secrets, padding, body and message number |
| SslDigest.CheckDigestB | emu/devssl.c:1151-1191 | over any list of blocks, accepts exactly the records that start with their digest |
| SslDigest.RecordAccepted | emu/devssl.c:1120-1191 | a record that digestb has been given passes checkdigestb however its bytes are cut into blocks with the digest in the first |
| SslDigest.RecordCovers | emu/devssl.c:1120-1149 | what is hashed: the secret, the body, and the number of the message in four bytes, highest first |
| SslDigest.ReplayIsCollision | emu/devssl.c:1120-1191 | two records with the same digest that differ in body or in number give a collision of the hash |
| Des.CipherInverse | crypt/des.c:91-177 | for every round function and key, decryption undoes encryption and encryption decryption |
| Des.BlockCipher | crypt/des.c:91-177 | the rounds in place, with the key walked backwards to decrypt, are that cipher |
| Des.InitialTable | crypt/des.c:97-115 | the shifts and masks of the initial permutation pick exactly the bits of the table of FIPS 46-3 |
| Des.FinalTable | crypt/des.c:152-177 | those of the final permutation put them back, with the halves exchanged |
| Des.SixteenRounds | crypt/des.c:117-150 | the cipher is sixteen rounds in which each half is the other one of before, the right with the round function added, with the subkeys in order, or from the last to decrypt |
| Des.TripleInverse | crypt/des.c:183-290 | for every three keys and every mode, the opposite mode undoes it |
| Des.TripleBlockCipher | crypt/des.c:183-290 | three passes in place, the halves kept in words between them, are three ciphers |
| Des.TripleIsThree | crypt/des.c:183-290 | the three passes are three block ciphers, each with the key and the direction its mode says |
| Rc4.CryptedTwice | crypt/rc4.c:33-56 | crypting twice from the same state gives the text back |
| Rc4.CryptedJoin | crypt/rc4.c:33-56 | crypting in pieces is crypting as a whole |
| Rc4.StaysGood | crypt/rc4.c:33-56 | the state stays a permutation with indices in range, however much is crypted |
| Rc4.RC4state.Crypt | crypt/rc4.c:33-56 | the loop in place is the stream, text and state |
| Rc4.CryptedAt | crypt/rc4.c:44-53 | each byte has the entry added that the sum of the two entries just exchanged points to |
| Rc4.Streams | crypt/rc4.c:44-53 | the states are those of the steps in which the entries at x and y change places |
| Rc4.RC4state.Mix | crypt/rc4.c:18-30 | the loop over the table is the key schedule, with the key over and over |
| Rc4.MixedIs | crypt/rc4.c:18-30 | which at place i adds the entry and the key byte to the second index and exchanges the entries at both |
| SslCipher.PullupBlock | emu/qio.c:182-230 | fails exactly when the list is too short; otherwise the first block is long enough and the bytes are the same |
| SslCipher.OneWay.EncryptB | emu/devssl.c:1036-1066 | the record in place is the cipher of its bytes, chained through the initial vector for CBC; the header is untouched and the state follows the ciphertext |
| SslCipher.EcbRecord | emu/devssl.c:1043-1048 | every block of a record in ECB mode is the cipher of that block |
| SslCipher.CbcRecord | emu/devssl.c:1049-1060 | every block of a record in CBC mode is the cipher of that block with the ciphertext block before it added, for the first the vector; the last one is the vector of the next record |
| SslCipher.Rc4Record | emu/devssl.c:1061-1063 | every byte of an RC4 record has its byte of the stream added, and the next record goes on from there |
| SslCipher.OneWay.DecryptB | emu/devssl.c:1068-1118 | over any list of blocks: plaintext and state depend on the bytes alone; fails exactly when they are no whole number of cipher blocks |
| SslCipher.RecordArrives | emu/devssl.c:1036-1118 | encryptb on one side, any cutting of the bytes into blocks, decryptb on the other: the message comes out and both sides are in the same state again, for DES in ECB and CBC and for RC4 |
| SslCipher.DecryptedJoin | emu/devssl.c:1068-1118 | decrypting block by block is decrypting the whole |

## Findings

Where the code does not do what it is for, the code is modelled as it is, with the input that shows it and
the exact condition under which it is right.

- bigDivide (crypt/bigDivide.c:114-120) does not lower the quotient digit when it adds the divisor back. 2^96
  divided by 2^95 + 1 gives 2, not 1 (`Division.AddsBackExample`). The remainder is always right; the magnitude of the
  quotient is right if and only if no trial digit times the divisor exceeds what is left (`Division.BigDivide`), which a
  divisor of at most two words rules out (`Division.ShortDivisorRight`).
- bigDivide works out the sign of the quotient and then clears the quotient, sign and all (crypt/bigDivide.c:23-28; the
  early return for a divisor of magnitude 1 copies the sign of the dividend). -7 divided by 2 gives 3, not -3
  (`Division.SignLost`). The sign is right, or does not matter, if and only if the dividend is smaller than the divisor in
  magnitude; or, for a divisor of magnitude 1 and a larger dividend, the divisor is 1 and not -1; or, in all other cases, the
  two have the same sign (`SignFits` in `Division.BigDivide`).
- bigsub with the result in the minuend (crypt/bigmath.c:105-108) compares a word with itself to find the borrow and
  loses it. With B = 2^32, B^2 - 1 in place leaves B^2 too much (`BigMath.BorrowLost`). It is right if and only if no borrow leaves
  the words the subtrahend has, or the word it meets is not zero, or there is none above (`BigMath.Bigsub`).
- bigMod tests strictly (crypt/bigMod.c:78): a dividend that is the modulus moved up by whole words leaves the modulus
  and not zero (`Division.NotReduced`), and only such a one (`Division.BigMod`). REDC has the same strict test.
- bigpow tests the base before the exponent (crypt/bigPow.c:188-245): zero to the power zero is 0 modulo the modulus;
  every other power is right (`Power.Bigpow`).
- brickell_bigpow ignores digits of the exponent beyond its table: the exponent 16 with a table of one entry is taken
  for 0 (`Brickell.OutsideTable`); the exponent is whole if and only if no digit stands there (`Brickell.WithinTable`).
- bufToBig (crypt/bignum.c:166-215) sets the sign for negative numbers and never clears it: the byte 1 read into a record
  that was negative is -1. It is right if and only if the number is not positive or the record was not negative
  (`BigBuf.BufToBig`). bigToBuf also reads one byte past the bytes it has made when they are all alike; the model
  decides without it, since the outcome does not depend on that byte.
- An append to a file whose last block of several is empty counts that block as full, and 44 zero bytes stand before the
  new ones (`TinyWrite.EmptyEndExists`); it is exact otherwise (`Tinyfs.Tfs.AppendExact`), and no operation of the driver
  makes such a file (`Tinyfs.Tfs.Append`).
- A file with the empty name on the medium counts as a free entry with a stale length after the scan
  (`TinyWrite.NamelessExists`). The table is in order if and only if no such file has bytes; the chains and the bitmap are in
  order all the same (`Tinyfs.Tfs.Init`).
- A truncating open hands newfile a name inside the file table (emu/devtinyfs.c:596), which newfile frees before it copies the
  name if no entry of the table is free and the table has to grow (emu/devtinyfs.c:294-298). The model takes the name as it was.
- Reader and writer of a queue can both be left asleep (emu/qio.c:635-803): a writer asks for room, the reader meets the request
  and puts the rest of its block back before the writer has gone to sleep. With qbwrite and qpass it cannot happen if and only
  if no block is over half the limit (`QueueRun.SafeExactly`); with qproduce or qiwrite it always can, even with single bytes
  (`QueueRun.FillingCanStick`).
- A sleeper chosen by mntgate that is interrupted and cannot send its flush leaves without passing the reading on
  (emu/devmnt.c:635-640 and 795-830): the others sleep with nobody reading (`MountMux.GateLost`). Otherwise the reading is
  not lost (`MountMux.NoLostGate`), as long as no request is linked into the queue twice.
- mountmux takes a request out of the queue and drops the lock before it completes it (emu/devmnt.c:775-783). If the owner's
  flush fails in between, the owner leaves and its request is used again, and is then completed by the old reply
  (`MountMux.ReplyMisused`), still in the queue; used once more it is linked into the list it is in (`MountMux.QueueTorn`).
  Replies, completions and the queue are right in every run in which no request in the reader's hands leaves by a failed flush
  (`MountMux.OwnReply`, `DoneOnce`, `QueueExact`), and each such departure can be followed by a wrong completion
  (`MountMux.ReusedInHand`).
- A Styx message whose count does not fit two bytes is not rejected by convS2M and comes back with another count
  (`Styx.CountLost`, `Styx.RoundTripExactly`).
- A failed sbrk leaves the pool's arena size counted up (emu/alloc.c:293-325), as `Pool.Pool.Grow` states.

## Left out

- Bignum storage has one word beyond the space it claims, where numtype_bigmult may put a last carry; the source writes it to what the allocator gives.
- Division.BigMod: moduli of one word other than 1 are excluded, because the source reads the word before the modulus's first (crypt/bigMod.c:75).
- Power.Bigpow: excludes one-word moduli for that reason, since the residue form goes through bigMod.
- Power.BigPow: excludes them likewise.
- Montgomery.ResForm: excludes them likewise.
- Brickell.BrickellBigpow: excludes them likewise.
- LongDivide.LongBigDivide: divisors below 2^31 (the normalising branch) and high words not below the divisor are excluded, because no caller passes them.
- Montgomery.REDC: excludes one-word moduli, because the residue forms it works on come from bigMod.
- The table behind msb, modelled as the bit length.
- Unrolled loops are plain loops; umult, which each platform supplies, is the full product of two words; the assembler versions of the word loops are not modelled; a NumType is 32 bits.
- handle_exception ends the program: its conditions (division by zero, a buffer that is too small, an even modulus for the window exponentiation) are preconditions.
- bigPow for even moduli, negative bases, bigpow_crt, bufToBig_sm, number text conversion, primes, Jacobi symbols, ElGamal and DSS.
- bigrightshift into another record.
- I/O errors of the medium under the tiny file system, attach, walks to the directory itself, references to a file after it was removed, media of more than 65535 blocks; the finger, which the code computes and never uses.
- Pool.Pool.Grow: sbrk is a parameter, the region from brk to top; poolcompact and the move functions of pools that have them are not modelled.
- realloc, the audits and poolimmutable of emu/alloc.c.
- Interrupts in Sleep of the queueing locks; swiproc; the cpu scheduler below Sleep and Wakeup, which are steps here.
- QueueRun.SafeExactly: the flag set without the lock at emu/qio.c:768 is one step here; a torn update of the state word is not modelled.
- Message queues, qdiscard, qconsume, qcopy, and the memory behind blocks (rp, wp, lim); a block is its bytes.
- MountMux.NoLostGate: nothing is claimed after a request has been linked twice, because the list is then a ring, which the sequence of the model does not describe; the theorems for every run do not depend on the queue.
- A write of the request itself that fails without a hangup, in mountio.
- convD2M, convM2D and the file system calls of the mount driver above mountrpc.
- MD5 and SHA block functions, the DES S-boxes, and the key setup of DES: parameters.
- sha with no state leaves its own state uncleared before the last call; only states the caller keeps are modelled.
- Tinyfs.Tfs.Reopen: takes the name by value, where the source passes a pointer into a table that may move.
- The handshake, key setup and record header of the SSL device; ensure and consume, which cut the stream into records.
