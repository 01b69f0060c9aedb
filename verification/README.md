# Verified models of the streaming SDK's base layer

The repository is an RTMP push and pull SDK on top of WebRTC's `base/` directory.  This project
models ten of its components in Dafny and proves what each is relied on for.  One file models one
source file and one module has its name; `KeyFrameGate.dfy` returns to one of them, `Words.dfy` holds
machine words and `Common.dfy` an option type and a few shared helpers.

| file | models | kind of model |
|---|---|---|
| `CriticalSection.dfy` | the hand-written recursive lock | a step relation with one step per shared access, any number of threads |
| `BitBuffer.dfy` | bit fields and Exp-Golomb codes (sections 9.1 and 9.1.1 of ITU-T H.264) | one class over an array; BitBuffer and BitBufferWriter are joined |
| `Base64.dfy` | encoder and decoder in all modes (sections 3.3, 3.5 and 4 of RFC 4648) | loops over arrays, proved against recursive functions |
| `AsyncTcpSocket.dfy` | packets behind a 16-bit length (section 2 of RFC 4571) | a class, and runs of a sender, a network and a receiver |
| `FileRotatingStream.dfy` | rotating log files, written and read back | two classes, and a closed form of what each file holds |
| `Buffer.dfy`, `CopyOnWriteBuffer.dfy` | shared, reference-counted buffers | classes with real aliasing |
| `Crc32.dfy` | table-driven CRC-32 (section 8 of RFC 1952) | a class for the table, proved against polynomial division |
| `DiskCache.dfy` | locks, open streams and sizes of a disk cache | a class, and runs of its calls |
| `AndroidMediaEncoder.dfy` | splitting an encoded frame into NAL units (clause B.1 of ITU-T H.264) | loops over arrays |
| `AnyRtmpPush.dfy` | connection states, retries, key-frame gate and send queue | a class, and runs of its handlers |
| `KeyFrameGate.dfy` | the key-frame gate of the same file under its threads | runs with one step per shared access |

Code that changes state is a class or a loop whose methods say, in terms of a function of the old
state, what the whole new state is; the laws are lemmas about those functions and about every run.
Where the environment decides (how much a socket takes, whether a file opens, how the RTMP library
answers, which entry is evicted), its answer is a parameter and the result holds for every answer.
Machine integers are unbounded in the models except where a width matters, which is then written
out (the 16-bit packet length, 32-bit values and 64-bit shifts of the bit buffer, the 32-bit CRC).

What turned out different from what one would expect of the code:

- Packets of 65536 to 65538 bytes pass the size check of Send but do not fit its 16-bit length, so they
  come out wrong at the other end; `AsyncTcpSocket.TooLongIsAccepted` gives the run, and
  `AsyncTcpSocket.EndToEnd` says exactly when all is well.
- `AnyRtmpPush::SetH264Data` looks for start codes behind the frame's own first one.  It keeps
  all bytes of a key frame exactly when it sees a second one of these and an IDR slice follows it
  (`AnyRtmpPush.SplitLossless`).  If another unit follows it, one zero is lost where that start code
  has four bytes, and a whole NAL unit where it has three or is a four-byte one that begins the last
  five bytes of the frame (`AnyRtmpPush.SplitDrops`, `AnyRtmpPush.FourthUnitSplits`).  A key frame in
  which it sees no start code behind the first queues an empty first item (`AnyRtmpPush.SpsFirst`,
  `AnyRtmpPush.LoneSpsIsLost`).
- The key-frame gate is tested without a lock.  A frame that passes it just before the connection is
  made is queued after the queue was emptied and sent first (`KeyFrameGate.StaleItem`);
  `KeyFrameGate.SafeExactly` says when that can happen, and `KeyFrameGate.QuietIsSafe` that it cannot
  with the encoders at rest.
- The assertion in `DiskCache::WriteResource` can fail when a file is opened for writing while it is
  being written (`DiskCache.TwoWritersBreakTheAssertion`), and that need not show at once or on that
  file (`DiskCache.SecondWriterShowsLater`).  As long as deletions succeed, a run meets the assertion
  safely at every opening exactly when it never does that (`DiskCache.SafeRunsExactly`).  A deletion
  that fails leaves a file behind while its entry is gone; directly after the entry is created again
  the assertion fails for such a file unless it is empty (`DiskCache.LeftoversExactly`).
- `DiskCache::LockResource` may evict the entry it is locking and report success
  (`DiskCache.LockHolds`, `DiskCache.LockLosesItself`, `DiskCache.OverLimit`).
- Comparing copy-on-write buffers distinguishes no buffer from an empty buffer
  (`CopyOnWriteBuffer.CopyOnWriteBuffer.Equal`), and appending nothing to a handle without a buffer
  gives it a buffer of no capacity, which the class's own check refuses
  (`CopyOnWriteBuffer.CopyOnWriteBuffer.AppendData`, `CopyOnWriteBuffer.CheckHoldsExactly`).  Appending
  an unshared handle to itself reads storage that has been given up where the buffer has to grow.
- With whitespace allowed and padding required, whitespace behind complete quanta makes decoding fail,
  although the same string without it decodes (`Base64.WhiteIsStrict`).
- `GetFilePath` pads by a tenth of the index rather than by digits, and the names still sort.

## Model

| member | source | states |
|---|---|---|
| CriticalSection.StepKeepsInv | anyrtc/jni/webrtc/base/criticalsection.cc:57-159 | Every single shared access of Enter, TryEnter and Leave, by any thread and in any order, keeps the invariant that ties the counter, the owner, the recursion count and the semaphore to the positions of all threads |
| CriticalSection.MutualExclusion | anyrtc/jni/webrtc/base/criticalsection.cc:57-159 | In every run of any number of threads at most one thread is between a successful acquire and the end of its final release |
| CriticalSection.ChecksNeverFail | anyrtc/jni/webrtc/base/criticalsection.cc:84-153 | No thread ever fails the owner and recursion checks at 84, 87, 88, 119, 152 and 153: what each checks holds where a thread gets to it |
| CriticalSection.OwnerAndDepth | anyrtc/jni/webrtc/base/criticalsection.cc:91-157 | Between calls a thread is the named owner exactly when it holds the lock, and the recursion count is then its number of acquisitions |
| CriticalSection.CallResult | anyrtc/jni/webrtc/base/criticalsection.cc:57-159 | In every run, when a call has returned: Enter has acquired once more, Leave has given back one acquisition, and TryEnter has acquired unless another thread had the lock, or was waiting for it, at the compare-and-swap; a thread inside is never refused |
| CriticalSection.EnterAlone | anyrtc/jni/webrtc/base/criticalsection.cc:57-92 | From every reachable state, an Enter that is not interrupted takes a lock nobody else contends for in 6 accesses and one that is its own in 5, with the whole state stated |
| CriticalSection.EnterWaits | anyrtc/jni/webrtc/base/criticalsection.cc:57-85 | On a lock another thread contends for, an Enter that is not interrupted looks 3000 times and then queues up and waits |
| CriticalSection.TryEnterAlone | anyrtc/jni/webrtc/base/criticalsection.cc:109-124 | A TryEnter that is not interrupted acquires a lock nobody else contends for, or one that is its own, and else changes nothing |
| CriticalSection.LeaveAlone | anyrtc/jni/webrtc/base/criticalsection.cc:140-159 | A Leave that is not interrupted gives back one acquisition and leaves a token exactly where it was the last one and another thread contends |
| CriticalSection.CounterAccounting | anyrtc/jni/webrtc/base/criticalsection.cc:66-158 | The counter is the acquisitions not given back plus the waiters and the thread taking possession; there is never more than one semaphore token |
| CriticalSection.NoLostWakeUp | anyrtc/jni/webrtc/base/criticalsection.cc:153-159 | When nobody has the lock, is releasing it or has been handed it, the counter is 0 and nobody waits |
| CriticalSection.NoDeadlock | anyrtc/jni/webrtc/base/criticalsection.cc:81-89 | Whenever a thread is blocked with no token, another thread has the lock and can take a step or leave |
| CriticalSection.WaiterCanAcquire | anyrtc/jni/webrtc/base/criticalsection.cc:81-92 | From every reachable state every waiter has a continuation in which its Enter returns with the lock, whether it waits for the semaphore or is about to |
| BitBuffer.LowestBit | anyrtc/jni/webrtc/base/bitbuffer.cc:21-24 | LowestBits keeps exactly the lowest bits, bit by bit |
| BitBuffer.HighestBit | anyrtc/jni/webrtc/base/bitbuffer.cc:28-33 | HighestBits moves exactly the highest bits down, bit by bit |
| BitBuffer.HighestByteTop | anyrtc/jni/webrtc/base/bitbuffer.cc:36-38 | The bits of HighestByte are the top eight bits of the 64-bit value |
| BitBuffer.PartialTop | anyrtc/jni/webrtc/base/bitbuffer.cc:43-60 | WritePartialByte replaces exactly the addressed bits of the target by the top bits of the source |
| BitBuffer.CountBits | anyrtc/jni/webrtc/base/bitbuffer.cc:63-70 | The loop counts the length of the binary representation |
| BitBuffer.BitBufferWriter.constructor | anyrtc/jni/webrtc/base/bitbuffer.cc:76-80 | A new buffer starts at bit 0 of at most 2^32 - 1 bytes |
| BitBuffer.BitBufferWriter.RemainingBitCount | anyrtc/jni/webrtc/base/bitbuffer.cc:82-84 | The bits from the cursor to the end |
| BitBuffer.BitBufferWriter.PeekBits | anyrtc/jni/webrtc/base/bitbuffer.cc:110-138 | Succeeds exactly for at most 32 bits that are there, and returns the big-endian value of the addressed bits; a failed peek leaves the output as it was |
| BitBuffer.BitBufferWriter.ReadBits | anyrtc/jni/webrtc/base/bitbuffer.cc:140-142 | As PeekBits, and moves the cursor behind the bits; a failed read moves neither the cursor nor the output |
| BitBuffer.BitBufferWriter.ConsumeBits | anyrtc/jni/webrtc/base/bitbuffer.cc:148-156 | Moves the cursor by the count exactly when that many bits are left |
| BitBuffer.BitBufferWriter.Seek | anyrtc/jni/webrtc/base/bitbuffer.cc:211-219 | Accepts exactly the positions up to the end of the buffer |
| BitBuffer.BitBufferWriter.ReadExponentialGolomb | anyrtc/jni/webrtc/base/bitbuffer.cc:158-188 | Terminates; returns the code the bit string holds at the cursor, found by its leading zeros, or leaves the cursor and the output as they were |
| BitBuffer.BitBufferWriter.ReadSignedExponentialGolomb | anyrtc/jni/webrtc/base/bitbuffer.cc:190-201 | The signed value of the same code, with the same failures |
| BitBuffer.BitBufferWriter.WriteBits | anyrtc/jni/webrtc/base/bitbuffer.cc:237-280 | Succeeds exactly when the bits fit; replaces exactly the addressed bits by the low bits of the value and no other bit of the array |
| BitBuffer.BitBufferWriter.WriteExponentialGolomb | anyrtc/jni/webrtc/base/bitbuffer.cc:282-294 | Refuses 2^32 - 1; otherwise writes the value plus one in twice its length less one bits |
| BitBuffer.BitBufferWriter.WriteSignedExponentialGolomb | anyrtc/jni/webrtc/base/bitbuffer.cc:296-308 | Refuses the least 32-bit integer; otherwise writes the unsigned code of the mapped value |
| BitBuffer.WrittenField | anyrtc/jni/webrtc/base/bitbuffer.cc:237-280 | A field that was written reads as the value modulo 2^n |
| BitBuffer.WrittenFrame | anyrtc/jni/webrtc/base/bitbuffer.cc:237-280 | A write does not change any field beside it |
| BitBuffer.GolombValue | anyrtc/jni/webrtc/base/bitbuffer.cc:158-188 | Clause 9.1 of ITU-T H.264: behind z zeros, at most 31, and a 1 bit come z bits more, counted from 2^z - 1 on |
| BitBuffer.SignedValue | anyrtc/jni/webrtc/base/bitbuffer.cc:190-201 | Clause 9.1.1 of ITU-T H.264: odd codes are the positive values and even codes the others, in order of absolute value |
| BitBuffer.GolombReads | anyrtc/jni/webrtc/base/bitbuffer.cc:158-188 | A code that stands in the buffer is parsed back to its value and its end, wherever it starts |
| BitBuffer.ItemReadsBack | anyrtc/jni/webrtc/base/bitbuffer.cc:110-201 | In a list of mixed items that stands in the buffer, the matching read at each item returns it and stops where the next one starts |
| BitBuffer.WriteItems | anyrtc/jni/webrtc/base/bitbuffer.cc:237-308 | Writing a list of mixed items that fits places them one after the other and changes no bit outside |
| BitBuffer.RoundTrip | anyrtc/jni/webrtc/base/bitbuffer.cc:110-308 | From any bit position, for any list of raw fields, unsigned and signed codes that fits: write, seek back, read; the reads return the list and end where the writes ended |
| Base64.TablesAre | anyrtc/jni/webrtc/base/base64.cc:28-68 | The table is the alphabet of table 1 of RFC 4648, letter by letter; besides it the decoder knows '=' and six whitespace characters and takes all others for illegal |
| Base64.TablesInverse | anyrtc/jni/webrtc/base/base64.cc:32-68 | The two tables undo each other on the 64 characters, and only the pad character is a pad |
| Base64.EncoderBits | anyrtc/jni/webrtc/base/base64.cc:108-131 | The shifts, masks and ors of the encoder are the quotients and remainders by which the encoding is defined |
| Base64.DecoderBits | anyrtc/jni/webrtc/base/base64.cc:228-233 | The same for the decoder's three bytes of a quantum |
| Base64.EncodeFromArray | anyrtc/jni/webrtc/base/base64.cc:98-136 | The loop writes the encoding, four characters for every three bytes begun, into exactly the space reserved |
| Base64.GetNextQuantum | anyrtc/jni/webrtc/base/base64.cc:138-190 | For every parse mode and any position: the sextets, zero filled, whether the quantum was padded, and where the cursor ends, with illegal padding rolled back |
| Base64.DecodeFromArray | anyrtc/jni/webrtc/base/base64.cc:205-258 | In every mode decoding terminates, uses at most the whole input, and gives the success, the bytes and the unused rest of the specification |
| Base64.ScanShrinks | anyrtc/jni/webrtc/base/base64.cc:138-190 | A scan never moves backwards and takes at most one sextet per character |
| Base64.StrictScan | anyrtc/jni/webrtc/base/base64.cc:138-190 | The strict parse skips no character and takes no sextet after a pad |
| Base64.QuantumEncodes | anyrtc/jni/webrtc/base/base64.cc:108-247 | A quantum that leaves no bit unused encodes back to its own characters and pads |
| Base64.DecodeUndoesEncode | anyrtc/jni/webrtc/base/base64.cc:98-258 | In every combination of modes decoding an encoding returns the bytes; it fails only where padding is disallowed but met in a parse that does not skip it and the buffer must end there, and then exactly for lengths that need padding |
| Base64.StrictIff | anyrtc/jni/webrtc/base/base64.cc:138-258 | Strict decoding of any string succeeds if and only if the string is the encoding of the bytes it returns, and if and only if it is an encoding at all |
| Base64.NoiseQuanta | anyrtc/jni/webrtc/base/base64.cc:138-258 | In the any-character parse with optional padding, illegal characters and whitespace change neither success nor bytes, for any string |
| Base64.StrictUses | anyrtc/jni/webrtc/base/base64.cc:138-190 | A strict quantum uses its own characters, and pads only if they complete it; else the rest begins with the first of them |
| Base64.UnusedExactly | anyrtc/jni/webrtc/base/base64.cc:228-250 | Bits are left unused exactly when the characters behind the last whole byte add something to it |
| Base64.WhiteIsStrict | anyrtc/jni/webrtc/base/base64.cc:138-258 | In all padding and termination modes, the parse that allows whitespace is the strict parse of the string without its whitespace; only, where padding is required, whitespace at the end of complete quanta makes it fail |
| Base64.LaxIgnoresNoise | anyrtc/jni/webrtc/base/base64.cc:138-257 | Lax decoding of any string whose other characters are the encoding of d succeeds and returns d |
| AsyncTcpSocket.FrameReadsBack | anyrtc/jni/webrtc/base/asynctcpsocket.cc:289-316 | A packet comes back from its frame exactly when its length fits the 16-bit prefix; the guard at 280 lets longer ones pass |
| AsyncTcpSocket.FrameBytes | anyrtc/jni/webrtc/base/asynctcpsocket.cc:289-291 | The length stands in front of the packet, its high byte first; 300 bytes begin with 01 2C |
| AsyncTcpSocket.LengthBytes | anyrtc/jni/webrtc/base/asynctcpsocket.cc:311-316 | Two bytes and what follows are one whole packet exactly when it is as long as they say, high byte first |
| AsyncTcpSocket.SendResult | anyrtc/jni/webrtc/base/asynctcpsocket.cc:278-305 | What Send returns and leaves: -1 above 65538 bytes; the length, with nothing done, while an earlier packet is pending; the length once the socket took some of the frame; else the socket's error, with nothing left behind |
| AsyncTcpSocket.WriteResult | anyrtc/jni/webrtc/base/asynctcpsocket.cc:246-256 | A write event sends exactly the bytes the socket takes of the pending ones; any other answer changes nothing |
| AsyncTcpSocket.GrownExactly | anyrtc/jni/webrtc/base/asynctcpsocket.cc:203-208 | The receive buffer doubles, up to 65538 bytes, exactly when less than 128 of them are free |
| AsyncTcpSocket.SentWhole | anyrtc/jni/webrtc/base/asynctcpsocket.cc:289-305 | A packet taken whole is on the wire byte by byte behind its length |
| AsyncTcpSocket.TooLongIsAccepted | anyrtc/jni/webrtc/base/asynctcpsocket.cc:278-305 | Every packet of 65536 to 65538 bytes is accepted by one Send that reaches the wire whole, and what is on the wire does not parse to it |
| AsyncTcpSocket.FramesReadBack | anyrtc/jni/webrtc/base/asynctcpsocket.cc:289-326 | A stream of frames is parsed back to its packets exactly when all lengths fit |
| AsyncTcpSocket.ParseChunks | anyrtc/jni/webrtc/base/asynctcpsocket.cc:307-326 | Parsing in pieces, with the rest kept, finds the packets that parsing at once finds |
| AsyncTcpSocket.AsyncTCPSocket.FlushOutBuffer | anyrtc/jni/webrtc/base/asynctcpsocket.cc:157-173 | Moves exactly the bytes the socket took from the front of the out buffer to the wire; reports refusals and impossible answers |
| AsyncTcpSocket.AsyncTCPSocket.Send | anyrtc/jni/webrtc/base/asynctcpsocket.cc:278-305 | Refuses oversized packets, drops while blocked, frames and flushes, and takes the frame back when nothing was sent |
| AsyncTcpSocket.AsyncTCPSocket.OnWriteEvent | anyrtc/jni/webrtc/base/asynctcpsocket.cc:246-256 | Flushes what is left and reports readiness exactly when nothing remains |
| AsyncTcpSocket.AsyncTCPSocket.ProcessInput | anyrtc/jni/webrtc/base/asynctcpsocket.cc:307-326 | Signals exactly the whole frames of the buffer in order and leaves the rest at its front |
| AsyncTcpSocket.AsyncTCPSocket.OnReadEvent | anyrtc/jni/webrtc/base/asynctcpsocket.cc:202-243 | Receives into the growing buffer, then processes it, for any answers of the socket |
| AsyncTcpSocket.SendKeepsInv | anyrtc/jni/webrtc/base/asynctcpsocket.cc:278-305 | After every Send the wire and the out buffer together are whole accepted frames, and the wire only grows |
| AsyncTcpSocket.WriteKeepsInv | anyrtc/jni/webrtc/base/asynctcpsocket.cc:246-256 | The same after every write event |
| AsyncTcpSocket.NeverWedges | anyrtc/jni/webrtc/base/asynctcpsocket.cc:203-208 | What is left after processing never fills the buffer, so the next read has free space |
| AsyncTcpSocket.FullHasFrame | anyrtc/jni/webrtc/base/asynctcpsocket.cc:307-326 | A completely full buffer holds a whole frame |
| AsyncTcpSocket.ReadsProgress | anyrtc/jni/webrtc/base/asynctcpsocket.cc:202-242 | A read event with bytes to give always takes some |
| AsyncTcpSocket.ReadKeepsInv | anyrtc/jni/webrtc/base/asynctcpsocket.cc:202-242 | One read event signals exactly the packets of the bytes it took, whatever the chunks were |
| AsyncTcpSocket.StreamIsFrames | anyrtc/jni/webrtc/base/asynctcpsocket.cc:157-326 | In every run: wire and out buffer are whole accepted frames, bytes are neither lost nor reordered, and the signalled packets are those of the delivered bytes |
| AsyncTcpSocket.EndToEnd | anyrtc/jni/webrtc/base/asynctcpsocket.cc:157-326 | With packets of at most 65535 bytes the receiver signals a prefix of exactly the accepted packets; once all has arrived it has signalled all of them exactly when no accepted packet was longer |
| FileRotatingStream.FileRotatingStream.constructor | anyrtc/jni/webrtc/base/filerotatingstream.cc:44-78 | The first file size, the rotation index and an unopened stream; files left in the directory are still there |
| FileRotatingStream.FileRotatingStream.Open | anyrtc/jni/webrtc/base/filerotatingstream.cc:204-217 | Deletes what is there and starts with one empty file |
| FileRotatingStream.FileRotatingStream.Write | anyrtc/jni/webrtc/base/filerotatingstream.cc:143-171 | Takes what fits, or less if the file system takes less; appends it and rotates exactly when the file is full |
| FileRotatingStream.FileRotatingStream.RotateFiles | anyrtc/jni/webrtc/base/filerotatingstream.cc:278-304 | The file at the rotation index goes, those below move up by one, a new file 0 is opened and the hook runs |
| FileRotatingStream.FileRotatingStream.OnRotationHook | anyrtc/jni/webrtc/base/filerotatingstream.cc:370-381 | The first rotation of a call session shrinks the files, a later one protects the first file, and nothing else changes |
| FileRotatingStream.WriteAll | anyrtc/jni/webrtc/base/stream.cc:44-58 | However little each write takes, all the data goes to the log, in order, and the files are those of a run |
| FileRotatingStream.WriteKeepsLayout | anyrtc/jni/webrtc/base/filerotatingstream.cc:143-304 | After any number of writes of any lengths, each file holds exactly the stretch of the log that its place in the order of creation gives |
| FileRotatingStream.ChunksDoNotMatter | anyrtc/jni/webrtc/base/filerotatingstream.cc:143-171 | The files depend on the bytes written and not on how the writes cut them |
| FileRotatingStream.HeadAndTailKept | anyrtc/jni/webrtc/base/filerotatingstream.cc:354-398 | For every limit of at least 4: the files, oldest first, hold the first half of the limit (or all) and then an unbroken end of the log; once something is dropped that end is at least n - 1 rotating files long, which is a quarter of the limit below 6 MiB and else all but 2 MiB of its second half; the limit is never exceeded |
| FileRotatingStream.TailKept | anyrtc/jni/webrtc/base/filerotatingstream.cc:143-304 | A plain stream keeps an unbroken end of the log of at least all but one of its files, and at most all of them |
| FileRotatingStream.SessionBudget | anyrtc/jni/webrtc/base/filerotatingstream.cc:383-398 | The rotating files fit in what the first file leaves of the limit and use it up, but for 2 bytes with two of them and for 1 MiB with more, which are of 1 MiB each |
| FileRotatingStream.NamesInOrder | anyrtc/jni/webrtc/base/filerotatingstream.cc:326-345 | For every number of files the generated paths sort as their indices do, although the padding is not to a common width |
| FileRotatingStream.FileRotatingReader.constructor | anyrtc/jni/webrtc/base/filerotatingstream.cc:68-75 | Reading starts at the last of the sorted names |
| FileRotatingStream.FileRotatingReader.Read | anyrtc/jni/webrtc/base/filerotatingstream.cc:93-141 | Every read returns the next bytes in order, goes on to the next file with an empty success, and ends exactly after the last file |
| FileRotatingStream.FileRotatingReader.ReadToEnd | anyrtc/jni/webrtc/base/filerotatingstream.cc:93-141 | With any buffer size, reading to the end returns everything once |
| FileRotatingStream.ReadsOldestFirst | anyrtc/jni/webrtc/base/filerotatingstream.cc:68-75 | However the directory was listed, sorting its names and walking down from the last one gives the files oldest first |
| FileRotatingStream.ReadBackHeadAndTail | anyrtc/jni/webrtc/base/filerotatingstream.cc:93-398 | What a call-session stream wrote reads back as the head of the log and an unbroken end of it, as long as above once something is dropped, within the limit |
| Buffer.BufferT.EnsureCapacityWithHeadroom | anyrtc/jni/webrtc/base/buffer.h:304-323 | Keeps the elements and leaves exactly the capacity asked for, or one and a half times the old one |
| Buffer.BufferT.AppendData | anyrtc/jni/webrtc/base/buffer.h:219-227 | Appends, growing with headroom, and counts the elements copied |
| Buffer.BufferT.SetData | anyrtc/jni/webrtc/base/buffer.h:181-185 | Replaces the elements; old ones are not copied on growth |
| Buffer.BufferT.SetSize | anyrtc/jni/webrtc/base/buffer.h:274-277 | Truncates, or keeps the old elements in front of arbitrary new ones |
| Buffer.BufferT.EnsureCapacity | anyrtc/jni/webrtc/base/buffer.h:282-286 | Keeps the elements; grows to exactly the capacity asked for |
| Buffer.BufferT.Clear | anyrtc/jni/webrtc/base/buffer.h:290-293 | Empties the buffer and keeps its storage |
| Buffer.AmortisedGrowth | anyrtc/jni/webrtc/base/buffer.h:219-323 | Over every run from an empty buffer the elements copied are at most three times the capacity, and the capacity at most three halves of the largest size |
| CopyOnWriteBuffer.CopyOnWriteBuffer.Copy | anyrtc/jni/webrtc/base/copyonwritebuffer.cc:19-21 | A copy shares the buffer; no handle's bytes change |
| CopyOnWriteBuffer.CopyOnWriteBuffer.Assign | anyrtc/jni/webrtc/base/copyonwritebuffer.h:110-117 | Assignment, also SetData from a handle, shows the other handle's bytes and changes no third handle |
| CopyOnWriteBuffer.CopyOnWriteBuffer.CloneDataIfReferenced | anyrtc/jni/webrtc/base/copyonwritebuffer.h:271-279 | Afterwards no other handle refers to the buffer, the bytes are the same, and no other handle's bytes change |
| CopyOnWriteBuffer.CopyOnWriteBuffer.Write | anyrtc/jni/webrtc/base/copyonwritebuffer.h:141-144 | Indexed write: one byte of this handle changes and no byte of any other |
| CopyOnWriteBuffer.CopyOnWriteBuffer.SetData | anyrtc/jni/webrtc/base/copyonwritebuffer.h:156-165 | This handle shows the new bytes; the others show what they showed |
| CopyOnWriteBuffer.CopyOnWriteBuffer.AppendData | anyrtc/jni/webrtc/base/copyonwritebuffer.h:187-199 | The bytes, also none, are appended for this handle only; the class's own consistency check holds after it except where nothing was appended to a handle without a buffer |
| CopyOnWriteBuffer.CopyOnWriteBuffer.AppendFrom | anyrtc/jni/webrtc/base/copyonwritebuffer.h:209-211 | What another handle, or this one, shows is appended for this handle only; appending an unshared handle to itself where it has to grow appends as many arbitrary bytes, since the source reads storage it has given up |
| CopyOnWriteBuffer.CopyOnWriteBuffer.SetSize | anyrtc/jni/webrtc/base/copyonwritebuffer.h:217-230 | Truncates or extends this handle only, keeping the bytes in front |
| CopyOnWriteBuffer.CopyOnWriteBuffer.EnsureCapacity | anyrtc/jni/webrtc/base/copyonwritebuffer.h:235-250 | The capacity is there and no byte of any handle changes |
| CopyOnWriteBuffer.CopyOnWriteBuffer.Clear | anyrtc/jni/webrtc/base/copyonwritebuffer.h:253-261 | This handle becomes empty; the others show what they showed |
| CopyOnWriteBuffer.CopyOnWriteBuffer.Equal | anyrtc/jni/webrtc/base/copyonwritebuffer.h:128-135 | operator==: equal bytes, except that a handle without a buffer differs from an empty one with a buffer |
| CopyOnWriteBuffer.CopyOnWriteBuffer.Destroy | anyrtc/jni/webrtc/base/copyonwritebuffer.cc:40 | Destroying a handle gives back its reference and disturbs no other |
| CopyOnWriteBuffer.RoomRules | anyrtc/jni/webrtc/base/copyonwritebuffer.h:156-279 | What capacity an edit leaves: a buffer of its own never shrinks and grows by half at least; a copy of a shared one is as large as the old one and as needed, with no headroom; without a buffer nothing is made for nothing |
| CopyOnWriteBuffer.SharesExactly | anyrtc/jni/webrtc/base/copyonwritebuffer.h:110-279 | After an edit only an assigned handle shares, and one that had all the room it asked for is as it was; no other handle changes |
| CopyOnWriteBuffer.Apply | anyrtc/jni/webrtc/base/copyonwritebuffer.h:110-261 | Any operation on one handle is that operation on an independent byte sequence; reference counts stay exact, buffers stay apart, which buffer and what capacity the handle has follows from how it stood; other handles show what they showed |
| CopyOnWriteBuffer.Replay | anyrtc/jni/webrtc/base/copyonwritebuffer.h:110-284 | Any run of new, copy, assign, write, set, append (also to itself), resize, reserve and clear leaves every handle with what an independent byte sequence given the same operations would hold, and with the sharing and the capacities that follow |
| CopyOnWriteBuffer.CheckHoldsExactly | anyrtc/jni/webrtc/base/copyonwritebuffer.h:282-284 | Over whole runs: every handle passes the class's own check all along exactly when nothing is ever appended empty to a handle without a buffer |
| Crc32.TableStep | anyrtc/jni/webrtc/base/crc32.cc:45-47 | One step through the table is eight steps of the bit-by-bit register |
| Crc32.Crc32Table.EnsureCrc32TableInited | anyrtc/jni/webrtc/base/crc32.cc:24-38 | Fills the table once, with the entry for each byte its eight register steps |
| Crc32.Crc32Table.UpdateCrc32 | anyrtc/jni/webrtc/base/crc32.cc:40-49 | Returns the bit-by-bit checksum of the buffer for any start value |
| Crc32.CrcOfPieces | anyrtc/jni/webrtc/base/crc32.cc:40-49 | Continuing a checksum over a second buffer is the checksum of both together |
| Crc32.BurstDetected | anyrtc/jni/webrtc/base/crc32.cc:40-49 | Two messages that differ within at most 32 successive bits and nowhere else have different checksums |
| Crc32.OneByteDetected | anyrtc/jni/webrtc/base/crc32.cc:40-49 | Buffers of equal length that differ in exactly one byte have different checksums |
| Crc32.GeneratorIs | anyrtc/jni/webrtc/base/crc32.cc:20-22 | The generator has exactly the powers of section 8 of RFC 1952 |
| Crc32.ChecksumFromZero | anyrtc/jni/webrtc/base/crc32.cc:40-49 | A checksum from 0 is the complement of the remainder of the message whose first 32 bits are complemented |
| Crc32.RegisterDivides | anyrtc/jni/webrtc/base/crc32.cc:27-37 | Feeding bits to the register is long division by the generator polynomial |
| Crc32.CrcIsRemainder | anyrtc/jni/webrtc/base/crc32.cc:40-49 | The complemented checksum is the remainder of the message, shifted by 32 places, on division by the generator |
| DiskCache.DiskCache.LockResource | anyrtc/jni/webrtc/base/diskcache.cc:101-113 | Locks exactly an entry that is not locked and has no reader, unless the cache stays over its limit; creates missing entries; over the limit the candidates may be any, and any deletion may fail; where the entry itself is evicted the lock is granted and lost |
| DiskCache.DiskCache.WriteResource | anyrtc/jni/webrtc/base/diskcache.cc:115-141 | Opens a stream exactly on a locked entry, truncates the file and takes its old size off the books, clamped |
| DiskCache.DiskCache.UnlockResource | anyrtc/jni/webrtc/base/diskcache.cc:143-156 | Goes to unlocking while writers are open, otherwise unlocks and evicts |
| DiskCache.DiskCache.ReadResource | anyrtc/jni/webrtc/base/diskcache.cc:158-173 | Opens a stream exactly on an unlocked entry with that file, when the file system opens it; otherwise nothing changes |
| DiskCache.DiskCache.DeleteResource | anyrtc/jni/webrtc/base/diskcache.cc:190-214 | Erases exactly an unlocked entry without open streams, with its size and the files the file system deletes; reports success exactly when none is left behind |
| DiskCache.DiskCache.ReleaseResource | anyrtc/jni/webrtc/base/diskcache.cc:318-347 | Closing a stream counts it off; a writer's file goes back on the books, and the last writer completes an unlock |
| DiskCache.DiskCache.CheckLimit | anyrtc/jni/webrtc/base/diskcache.cc:228-250 | Deletes candidates until the cache fits, and says whether it does; entries in use and files that cannot be deleted stop it |
| DiskCache.StepKeepsInv | anyrtc/jni/webrtc/base/diskcache.cc:101-347 | Every call keeps: totals are sums, each entry counts its open streams, and lock states fit the streams that are open |
| DiskCache.ReadersOrWriters | anyrtc/jni/webrtc/base/diskcache.cc:101-173 | In every run no entry has a reader and a writer open together, and the entry of every open stream exists |
| DiskCache.TotalsAreSums | anyrtc/jni/webrtc/base/diskcache.cc:101-347 | In every run the total size and the total of accessors are the sums over the entries, and accessors are the open streams |
| DiskCache.DeletesExactly | anyrtc/jni/webrtc/base/diskcache.cc:190-214 | Deleting an idle entry takes it and exactly those of its files that can be removed, and succeeds exactly when none of its files is left; nothing else changes |
| DiskCache.ReleaseEvicts | anyrtc/jni/webrtc/base/diskcache.cc:318-347 | In every run, closing a stream evicts exactly where it was the last one of an entry that had been unlocked meanwhile |
| DiskCache.GrantedExactly | anyrtc/jni/webrtc/base/diskcache.cc:101-214 | In every run, by what callers did before: a lock is granted exactly when nobody has the lock or reads and the cache fits; a write and an unlock exactly to whoever has the lock; a read exactly when nobody has the lock or writes and the file is there; a deletion exactly when nobody has the lock, reads or writes |
| DiskCache.UnlockCompletes | anyrtc/jni/webrtc/base/diskcache.cc:143-156 | In every run after a granted unlock: no write opens before the next lock, and once all streams are closed, in any order, the entry is evicted or unlocked and its files can be read |
| DiskCache.ErasedIsClosed | anyrtc/jni/webrtc/base/diskcache.cc:190-250 | Whatever a step erases, by deletion or eviction, has no open stream |
| DiskCache.LockHolds | anyrtc/jni/webrtc/base/diskcache.cc:101-113 | A lock that is granted holds exactly when the eviction does not take its own entry, which it never does within the limit or when the entry was not idle |
| DiskCache.LockLosesItself | anyrtc/jni/webrtc/base/diskcache.cc:101-113 | As the one candidate for eviction an entry loses its own lock exactly when it is idle and the cache is over its limit by no more than its size |
| DiskCache.OverLimit | anyrtc/jni/webrtc/base/diskcache.cc:101-250 | Such a state is reached: one entry is idle, and the cache over its limit by less than its size |
| DiskCache.SafeRunsExactly | anyrtc/jni/webrtc/base/diskcache.cc:115-132 | Over whole runs in which deletions succeed: every opening for writing meets the assertion at 123, whatever the open writers append next, exactly when no file is ever opened for writing while it is being written |
| DiskCache.SizesAreOnDisk | anyrtc/jni/webrtc/base/diskcache.cc:120-132 | In such runs an entry's size is what its settled files take on disk, and the assertion holds exactly for a file nobody is writing or one not grown beyond those |
| DiskCache.AssertionExactly | anyrtc/jni/webrtc/base/diskcache.cc:120-132 | At the end of such a run the assertion holds now and after any single append exactly when nobody is writing the file: after every open writer some amount appended makes it fail |
| DiskCache.SecondWriterShowsLater | anyrtc/jni/webrtc/base/diskcache.cc:115-132 | A run in which a second writer opens a file while the assertion holds, and which then breaks it for another file, with no stream open and nothing deleted |
| DiskCache.LeftoversExactly | anyrtc/jni/webrtc/base/diskcache.cc:120-214 | Directly after a deletion of an idle entry that may leave files behind and a new creation, the assertion fails exactly for the files left behind that are not empty |
| DiskCache.TwoWritersBreakTheAssertion | anyrtc/jni/webrtc/base/diskcache.cc:120-126 | A run in which a second writer on the same file makes that assertion fail |
| AndroidMediaEncoder.NextNaluPosition | anyrtc/jni/androidmediaencoder_jni.cc:1103-1133 | The search with its skips of one, two and three bytes returns the least start code before the last four bytes, or -1 if there is none |
| AndroidMediaEncoder.FindStartCodes | anyrtc/jni/androidmediaencoder_jni.cc:1001-1014 | The loop collects exactly the first 32 start codes in order |
| AndroidMediaEncoder.StartCodesApart | anyrtc/jni/androidmediaencoder_jni.cc:1005-1014 | Start codes do not overlap, so going on behind each one misses none |
| AndroidMediaEncoder.Fragments | anyrtc/jni/androidmediaencoder_jni.cc:1015-1031 | The offsets and lengths are those of the kept start codes; without any the frame is given up |
| AndroidMediaEncoder.SplitIsLossless | anyrtc/jni/androidmediaencoder_jni.cc:1001-1031 | Fragments are in order, apart and never of negative length; put back behind start codes they give the payload from its first start code on, even when the cap is hit |
| AndroidMediaEncoder.EachHasFragment | anyrtc/jni/androidmediaencoder_jni.cc:1001-1031 | A payload with at most 32 start codes has a fragment for each, one with more has 32; a start code is 0, 0, 0, 1 with something behind it |
| AndroidMediaEncoder.SplitIsComplete | anyrtc/jni/androidmediaencoder_jni.cc:1001-1031 | No start code is left inside a fragment, except the last one of a capped list, nor before the first |
| AnyRtmpPush.SplitKeyFrame | anyrtc/jni/AnyCore/anyrtmpush.cc:142-186 | The scanning loop finds the parts at the first two start codes it can see |
| AnyRtmpPush.SplitLossless | anyrtc/jni/AnyCore/anyrtmpush.cc:151-190 | The three parts make up the frame exactly when an IDR slice follows the second start code behind the frame's own; otherwise bytes are dropped |
| AnyRtmpPush.SplitAccounts | anyrtc/jni/AnyCore/anyrtmpush.cc:151-190 | The bytes dropped, put where they were, and the three parts make up any key frame |
| AnyRtmpPush.SplitDrops | anyrtc/jni/AnyCore/anyrtmpush.cc:151-190 | Before an IDR slice nothing is dropped; otherwise, where that second start code has four bytes its leading zero alone, where it has three (or four at the very end, where the scan cannot see it again) everything from it to the next start code or the end |
| AnyRtmpPush.EncoderFrameSplits | anyrtc/jni/AnyCore/anyrtmpush.cc:151-190 | A frame of a sequence parameter set, a picture parameter set and an IDR slice, behind start codes of three or four bytes and of two bytes or more after the first, is split into just these |
| AnyRtmpPush.FourthUnitSplits | anyrtc/jni/AnyCore/anyrtmpush.cc:151-190 | A frame with a fourth NAL unit between the parameter sets and the slice loses that unit when its start code has three bytes, and one zero when it has four |
| AnyRtmpPush.LoneSpsIsLost | anyrtc/jni/AnyCore/anyrtmpush.cc:151-190 | A frame that is a sequence parameter set alone is dropped whole and queues three empty items |
| AnyRtmpPush.AnyRtmpPush.SetH264Data | anyrtc/jni/AnyCore/anyrtmpush.cc:131-196 | The key-frame gate, the split of key frames and the queueing of all others |
| AnyRtmpPush.AnyRtmpPush.SetAacData | anyrtc/jni/AnyCore/anyrtmpush.cc:198-211 | Audio is queued unless a key frame is awaited outside audio-only mode |
| AnyRtmpPush.AnyRtmpPush.Turn | anyrtc/jni/AnyCore/anyrtmpush.cc:374-417 | One turn of the loop in Run: handshake, connect, publish or send, and what a failure does |
| AnyRtmpPush.AnyRtmpPush.CallConnect | anyrtc/jni/AnyCore/anyrtmpush.cc:421-436 | Empties the queue, closes the gate, resets the retries, then calls back |
| AnyRtmpPush.AnyRtmpPush.CallDisconnect | anyrtc/jni/AnyCore/anyrtmpush.cc:438-459 | Drops the connection, counts the retry, and either reconnects or gives up |
| AnyRtmpPush.AnyRtmpPush.DoSendData | anyrtc/jni/AnyCore/anyrtmpush.cc:466-541 | Takes the front item; ignorable video errors go on, other errors disconnect, metadata returns early |
| AnyRtmpPush.CallbackShape | anyrtc/jni/AnyCore/anyrtmpush.cc:421-459 | In every run the connection callbacks since the start or the last Connected are Reconnecting(1), (2), (3) in order, and after the fourth failure one Disconnect |
| AnyRtmpPush.PublishedTurn | anyrtc/jni/AnyCore/anyrtmpush.cc:466-541 | While published a turn gives the connection up exactly when sending the front item failed and it was audio, or video with an error that is not one to ignore; the callbacks of the turn are stated in full |
| AnyRtmpPush.ForgivenGoesOn | anyrtc/jni/AnyCore/anyrtmpush.cc:466-541 | In every run whose failed sends since the last Connected were of metadata or of video with errors to ignore, no connection callback has followed and the connection stands |
| AnyRtmpPush.ConnectedExactly | anyrtc/jni/AnyCore/anyrtmpush.cc:385-417 | In every run Connected is called exactly by the third successful turn since the connection object was made; before it any failed turn gives the connection up |
| AnyRtmpPush.ObjectIs | anyrtc/jni/AnyCore/anyrtmpush.cc:374-459 | In every run the loop goes on until it is closed, and there is a connection object exactly as long as the last one that could be made was not given up |
| AnyRtmpPush.QueuedExactly | anyrtc/jni/AnyCore/anyrtmpush.cc:131-211 | In every run: the parts of a key frame are always queued, another frame exactly when a key frame has come since the connection was made or given up, and audio then or in audio-only mode |
| AnyRtmpPush.DisconnectIsFinal | anyrtc/jni/AnyCore/anyrtmpush.cc:374-459 | After Disconnect no step calls back or sends anything |
| AnyRtmpPush.QueueInOrder | anyrtc/jni/AnyCore/anyrtmpush.cc:131-541 | In every run the items taken since the last Connected, followed by the queue, are exactly what the encoder put in since then, in order |
| AnyRtmpPush.SpsFirst | anyrtc/jni/AnyCore/anyrtmpush.cc:151-190 | What a key frame queues first is its sequence parameter set exactly when the scan sees a start code behind the frame's own; otherwise it is empty |
| AnyRtmpPush.StreamStartsWithSps | anyrtc/jni/AnyCore/anyrtmpush.cc:131-211 | Outside audio-only mode and with such key frames, the first item taken after each Connected is the sequence parameter set of one of the key frames handed in, as the split cuts it, with its timestamp, as long as no handler is interrupted |
| KeyFrameGate.HandlersAreRuns | anyrtc/jni/AnyCore/anyrtmpush.cc:131-436 | With the threads interleaved at their shared accesses, a handler that is not interrupted is one step of the model above |
| KeyFrameGate.FirstIsSpsUnlessDisturbed | anyrtc/jni/AnyCore/anyrtmpush.cc:131-436 | In every interleaving of the encoders with the loop of Run: if each CallConnect leaves a safe state, the first item taken after each Connected is the sequence parameter set of a key frame handed in |
| KeyFrameGate.SafeExactly | anyrtc/jni/AnyCore/anyrtmpush.cc:131-436 | A state left by CallConnect is safe exactly when no continuation lets another item go first; it is so when no item but a parameter set is past the gate, and the gate is closed unless a key frame is at it |
| KeyFrameGate.StaleItem | anyrtc/jni/AnyCore/anyrtmpush.cc:131-436 | An unsafe state is reached: a frame passes the open gate before the connection is made and is queued after the queue was emptied |
| KeyFrameGate.QuietIsSafe | anyrtc/jni/AnyCore/anyrtmpush.cc:421-436 | With no encoder call under way while CallConnect runs, the state it leaves is safe |

## Left out

- CriticalSection: weak memory ordering; every shared access is one step of an interleaving. The pthread and Windows branches, the debug-only owner fields and overflow of the counter are not modelled.
- BitBuffer: the whole-byte convenience reads and writes, null out-pointers, a peek of no bits at the end of the buffer (it touches a byte past it) and writes of no bits or more than 64 (they shift out of range).
- BitBuffer.RoundTrip: raw items have 1 to 32 bits, as many as one read returns, although a write takes up to 64; WriteBits itself is stated for all of 1 to 64.
- Base64: the character helpers beside the encoder and decoder, and the null result pointer.
- AsyncTcpSocket: listening sockets, binding, connecting, closing and options; the debug check in AppendToOutBuffer, which stops debug builds for packets that overflow the out buffer; the overflow branch of OnReadEvent, which cannot be reached.
- FileRotatingStream: failing file operations, buffering, and GetSize; the writing and the reading mode of one class are two classes here. A second Open of the same stream is stated for the method only, since it does not reset the rotation state and the runs start at the first.
- Buffer: moving and swapping, the setter-function overloads, and element types other than bytes.
- CopyOnWriteBuffer: moves and swap, and pointers that escape from data().
- CopyOnWriteBuffer.CopyOnWriteBuffer.AppendFrom: where the source copies from storage it has just given up, that storage is taken to hold arbitrary bytes and reading it to do nothing else.
- CopyOnWriteBuffer.Apply: does not model an index out of range, which the class forbids.
- CopyOnWriteBuffer.Replay: skips an index out of range in a run.
- DiskCache: Purge, the start-up listing of existing files, the names of files, times, and the choice of the victim in CheckLimit, which is any sequence of entries.
- DiskCache.LockResource: where it evicts the entry it is locking, the source writes to the erased entry's storage; the model takes that write to reach no entry.
- AndroidMediaEncoder: everything around the split in DeliverPendingOutputs, and payloads whose size does not fit 32 bits.
- AnyRtmpPush.StreamStartsWithSps: takes each handler as one step; interleaved with CallConnect the law can fail, and KeyFrameGate.SafeExactly has the exact condition.
- AnyRtmpPush: the handlers of the two threads are atomic steps here; KeyFrameGate interleaves them for the law about the first item, which does not survive it in general, while the other laws only concern the loop's own thread or the locked queue. Also the destructor's disconnect, memory of queued items, statistics beyond their callback, FLV and AMF encoding, and setMetaData, which nothing calls.
- The RTMP library, JNI, capture, rendering, floating-point code and the remaining classes of `base/` have no model here.
