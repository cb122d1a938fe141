# CTorrent, verified

A Dafny model of the download path of CTorrent: from the metainfo file to the scheduler, from
the blocks on the wire to the pieces, from the pieces through the write queue to the bytes in
the files. Classes follow the C++ classes and change their fields in place; the lemmas beside
them say what the code is for, over every input and every run.

| file | models |
|---|---|
| `Bytes.dfy`, `Wrappers.dfy`, `Serializer.dfy`, `DataBuffer.dfy` | bytes, byte order, the growable buffer |
| `Popcount.dfy`, `Bitset.dfy` | the bitset and its population count |
| `BencodeSpec.dfy`, `BencodeText.dfy`, `BencodeRoundTrip.dfy`, `BencodeCanon.dfy`, `Bencode.dfy` | bencode (BEP 3, section "bencoding"): functions, what they mean for the text, round trip, canonical form, the class |
| `MetaInfo.dfy`, `MetaInfoText.dfy` | the metainfo parser: info-hash input, digests, file layout; each field of the object and the entry of the text it comes from |
| `Layout.dfy`, `Pieces.dfy` | files as one flat image, the split write, piece ranges |
| `Scheduler.dfy` | `get_next_piece` over whole runs |
| `StoreProtocol.dfy`, `StoreProgress.dfy`, `StoreRewrite.dfy` | the I/O thread and the worker thread of the piece store as a step system, its progress, and pieces written twice |
| `FileManager.dfy` | the piece store and the torrent counters as classes |
| `Wire.dfy`, `Tiling.dfy`, `PeerProtocol.dfy`, `PeerMeaning.dfy`, `Peer.dfy` | peer messages (BEP 3, section "peer messages"): framing, requests, the handler as a state machine, what it answers to which message, and the class |
| `EndToEnd.dfy` | the parts composed |

Check everything with `dafny verify dfyconfig.toml`. Every lemma switches Dafny's automatic induction
off, so every induction is written out in its body.

## Premises

- The comparison of digests is a predicate `hashOK(index, data)`. The code compares five bytes of
  a SHA-1 digest and never looks at the length, so nothing is assumed about it. Results about the
  files take as a premise on the run that the data found and accepted so far has the lengths of its pieces
  (`RightLengths`) or is that of the torrent (`TrueData`); `CheckFixesLengths` and `CheckFixesData`
  give these premises for every run if the comparison lets nothing else pass.
  `FileManager.LongPieceDisturbs` shows what happens without them. Results about locks, queues,
  bits, announcements, wake-ups and service hold for every metainfo file and every comparison.
- The number of digests is the total length over the piece length, rounded up (`WellFormed`).
  `EndToEnd.WellFormedIff` says exactly which metainfo maps have this and the other properties;
  the parser checks almost none of them.
- `fwrite` writes everything it is given; one thread runs all network callbacks; a connection
  stays open until it is closed by the handler.
- The cursor arithmetic `len + m_pos` of the decoder is exact. An integer token without any
  digit or sign leaves the variable uninitialised; its value is the parameter `junk`.
- Byte positions of the piece store are exact numbers; the running sums of the parser wrap at 2^64.
- Block counts are computed through `double` in the source, exact for the sizes that fit 32 bits.

## What the proofs brought to light

- `compute_downloaded` tests the bit one past the last piece, so the last piece is never counted:
  the figure is right iff the last piece is missing, and `remaining` never reaches zero.
- `bitset::count` reads one byte past an array of odd size, and its result is right iff the size is
  even or that byte is zero. `isFinished` then says no once everything is completed, or yes while
  exactly as many pieces are missing as the byte has bits.
- The check before the write queue ignores the completed bits, so a piece can be written twice. While
  that happens, the range of a piece already announced mixes new and old data. The torrents for which every
  completed piece nevertheless passes the check at all times are exactly those of which any two passing
  data for a piece, joined at a boundary between two files, pass too.
- A bencoded value reads back, with all its parts, iff it holds no empty dictionary and no empty
  key. An empty string that ends the buffer stops at an assertion of the buffer.
- The block counter of a piece counts repeated blocks: a piece that receives as many true blocks as it
  has slots is handed over whole iff no slot came twice; otherwise what is handed over is too short.
- An empty block or bitfield cannot be sent: adding nothing to a message that is full stops at an
  assertion of the buffer. A receiver of such a frame would close the connection.
- The info-hash is computed from a re-encoding of what was read. It is that of the file's own `info`
  text iff the text is in normal form: sorted maps, no key twice, no negative integer.
- A piece whose priority reaches the largest 32-bit value is never handed out again.

## Model

| member | source | states |
|---|---|---|
| StoreProtocol.DiskIntegrity | ctorrent/torrentfilemanager.cpp:335-369 | In every state of every interleaving of the two threads, up to which the data accepted had the right lengths, a completed piece was last written with data that passes the hash check, and its range read back across the files is that data; only while the same piece is being written again is it the new data, which passes too, up to the point reached and the old data behind |
| StoreProtocol.CompletedIsTrue | ctorrent/torrentfilemanager.cpp:335-369 | As long as no wrong data has passed the check there is no exception: in every state every completed piece holds exactly its bytes of the torrent |
| StoreProtocol.CheckFixesLengths | ctorrent/torrentfilemanager.cpp:109-120 | With a check that fixes the length, every run is one of right lengths |
| StoreProtocol.CheckFixesData | ctorrent/torrentfilemanager.cpp:109-120 | With a check that identifies the data, every run is one of true data |
| StoreRewrite.RewritesAreRepeats | ctorrent/torrentfilemanager.cpp:109-120 | For any metainfo file and any check: the piece being written is already completed iff it was there at the start or an earlier request for it was processed, which the check before the queue does not exclude |
| StoreRewrite.NoRepeatsNoException | ctorrent/torrentfilemanager.cpp:109-120 | Without repeated requests, and with data of the right lengths, every completed piece passes the hash check in every state |
| StoreRewrite.NoExceptionIff | ctorrent/torrentfilemanager.cpp:335-369 | Every completed piece passes the check in every state of every run with data of the right lengths iff any two data that pass for a piece, joined at a boundary between two files, pass too |
| StoreRewrite.MixesPassNoException | ctorrent/torrentfilemanager.cpp:335-369 | One direction, for one state of one run |
| StoreRewrite.FailingMixShows | ctorrent/torrentfilemanager.cpp:344-367 | The other, from any failing join: a run of a fresh store that ends with the piece announced and its range failing the check |
| StoreRewrite.RunReached | ctorrent/torrentfilemanager.cpp:344-362 | In every state of every run, the bytes of the current block written so far are exactly those that lie in the files already treated |
| StoreRewrite.RewriteCanMix | ctorrent/torrentfilemanager.cpp:344-367 | Not all torrents are such: one piece over two files and a check that two blocks of the right length pass |
| StoreProtocol.InvStep | ctorrent/torrentfilemanager.cpp:265-298 | Every step of either thread keeps the invariant on lock, queue, pending bits, wake-ups, announcements, disk and rewrites, as long as the data accepted has the right lengths |
| StoreProtocol.RunInv | ctorrent/torrentfilemanager.cpp:265-298 | The invariant holds in every state up to which the data accepted had the right lengths |
| StoreProtocol.ControlStep | ctorrent/torrentfilemanager.cpp:265-298 | The part of it that is not about the contents of the files is kept for every metainfo file and every check |
| StoreProtocol.RunControl | ctorrent/torrentfilemanager.cpp:265-298 | And so holds in every state of every run |
| StoreProtocol.AnnouncedStaysOnDisk | ctorrent/torrent.cpp:354-363 | Once a piece was announced, in every later state its bit is set and its range holds what `DiskIntegrity` says; outside a rewrite of the piece this passes the hash check |
| StoreProtocol.AnnouncedStaysTrue | ctorrent/torrent.cpp:354-363 | As long as no wrong data has passed the check, an announced piece is on disk byte for byte in every later state, rewritten or not |
| StoreProtocol.AnnouncedStaysCompleted | ctorrent/torrent.cpp:354-363 | The bit of an announced piece is set in every later state, whatever the check lets pass |
| StoreProtocol.Monotone | ctorrent/torrentfilemanager.cpp:364-367 | In every run, completed bits are never cleared, announcements never withdrawn, the order of accepted requests never changes |
| StoreProtocol.LockFreeState | ctorrent/torrentfilemanager.cpp:539-553 | When nobody holds the lock, the pending bits are exactly the pairwise distinct queued indices and accepted = processed + queued, first in first out, although the check runs outside the lock |
| StoreProtocol.NoLostWakeup | ctorrent/torrentfilemanager.cpp:88-90 | A worker blocked in the wait with work queued is about to be notified by the thread that pushed it, spurious wake-ups included |
| StoreProtocol.QueuedWorkIsServed | ctorrent/torrentfilemanager.cpp:265-298 | No deadlock: with a request queued the worker can move, unless the I/O thread holds the lock or is about to notify, and then that thread can move |
| StoreProtocol.ProcessedIsAnnounced | ctorrent/torrentfilemanager.cpp:364-367 | The piece of a processed request is completed and announced, whatever the check lets pass |
| StoreProtocol.ReadStep | ctorrent/torrentfilemanager.cpp:285-297 | A read request is queued by exactly one step and taken off by exactly one successful read |
| StoreProtocol.RunWithin | ctorrent/torrentfilemanager.cpp:344-362 | In every run, for any metainfo file and any check, no file grows beyond its length |
| StoreProtocol.AcceptedReachesDisk | ctorrent/torrentfilemanager.cpp:277-283 | A processed request is on disk byte for byte, completed and announced, as long as the same piece is not written again |
| StoreProtocol.OtherPieceKept | ctorrent/torrentfilemanager.cpp:344-362 | No single round of a write disturbs the range of another piece |
| StoreProgress.ServiceStep | ctorrent/torrentfilemanager.cpp:265-298 | With a request queued, every step that submits nothing brings a measure of the remaining work down |
| StoreProgress.ServedUndisturbed | ctorrent/torrentfilemanager.cpp:265-298 | If nothing is submitted, then after at most that many steps every accepted request has been processed |
| StoreProgress.AheadStep | ctorrent/torrentfilemanager.cpp:265-298 | Every move of the worker brings a waiting request nearer, wake-ups included, and no other step puts it back, new submissions included |
| StoreProgress.ServedWithin | ctorrent/torrentfilemanager.cpp:265-298 | Whatever is submitted meanwhile and in whatever order the threads move, an accepted request has been processed after a number of moves of the worker that depends only on its place in the queue and the number of files |
| StoreProgress.AheadBound | ctorrent/torrentfilemanager.cpp:265-298 | That number is at most one round over the files for each request in front, and two rounds more |
| StoreProgress.WorkAtMost | ctorrent/torrentfilemanager.cpp:265-298 | The steps without submissions are at most a round for each queued request, three more, and the queued reads |
| StoreProgress.Returned | ctorrent/torrentfilemanager.cpp:539-553 | When `writePieceBlock` returns, a request that passed its check is the newest accepted one; the worker may have taken it off the queue already |
| StoreProgress.SubmitReachesDisk | ctorrent/torrentfilemanager.cpp:539-553 | A request that passed the check is completed and announced after that many moves of the worker, whatever is submitted meanwhile; and on disk, unless its piece was accepted again |
| StoreProgress.SubmitReachesTruth | ctorrent/torrentfilemanager.cpp:539-553 | And on disk in any case, as long as no wrong data has passed the check |
| StoreProgress.FinishIo | ctorrent/torrentfilemanager.cpp:543-551 | From every state of every run, for any metainfo file and any check, the I/O thread can finish its call, waiting for the worker's locked section if it must |
| StoreProgress.GoOn | ctorrent/torrentfilemanager.cpp:265-298 | The two threads never get stuck: every run can go on for any number of steps without a new submission |
| StoreProgress.CanReachDisk | ctorrent/torrentfilemanager.cpp:539-553 | From every state with an idle I/O thread, whatever the worker is doing and whatever is queued, a piece that passes the check can be brought onto the disk |
| Layout.WriteAcrossIsOverlay | ctorrent/torrentfilemanager.cpp:344-362 | The split write equals one overlay of the flat image, for every position, block and contiguous layout: empty files, pieces over many files, blocks past the end |
| Layout.FileStepWrites | ctorrent/torrentfilemanager.cpp:344-362 | One round overlays exactly the next chunk at `beginPos` |
| Layout.FileStepCounts | ctorrent/torrentfilemanager.cpp:353-361 | `off + length` is conserved and every write stays inside its file |
| Layout.FileStepReaches | ctorrent/torrentfilemanager.cpp:344-362 | After each round exactly the bytes of the block that lie in the files treated so far have been written |
| Layout.WriteAcrossHolds | ctorrent/torrentfilemanager.cpp:335-362 | A block that fits reads back after the write |
| Layout.FileWriteIs | ctorrent/torrentfilemanager.cpp:353-357 | A write into one file, byte by byte: the new bytes, the old ones around them, zeros in a gap, and nothing more |
| Layout.FileStepWithin | ctorrent/torrentfilemanager.cpp:344-362 | A round never makes a file longer than it should be |
| Layout.FileStepKeeps | ctorrent/torrentfilemanager.cpp:344-362 | A round leaves every range the block does not touch as it was |
| Layout.FileStepSplices | ctorrent/torrentfilemanager.cpp:344-362 | A round over a block that is on disk already leaves the new bytes in front of the old ones, with no gap between them |
| Pieces.PiecesPartition | ctorrent/torrentfilemanager.cpp:122-136 | Every byte of the torrent belongs to exactly one piece |
| Pieces.PieceFits | ctorrent/torrentfilemanager.cpp:122-136 | No piece is empty and every piece lies inside the torrent |
| Pieces.PiecesDisjoint | ctorrent/torrentfilemanager.cpp:122-136 | Ranges of different pieces do not meet |
| Pieces.PiecesAdjoin | ctorrent/torrentfilemanager.cpp:122-136 | The pieces stand one behind the other from position zero, and all but the last have the full length |
| Pieces.LastPiece | ctorrent/torrentfilemanager.cpp:130-136 | The last piece ends exactly at the end of the torrent |
| Pieces.BytesOfAll | ctorrent/torrentfilemanager.cpp:122-136 | The piece lengths add up to the total size |
| Pieces.BytesOfAdd | ctorrent/torrentfilemanager.cpp:401-416 | No pieces have no bytes, and one piece more adds its length |
| Pieces.BytesOfMonotone | ctorrent/torrentfilemanager.cpp:401-416 | More completed pieces, no fewer bytes |
| Pieces.BytesOfBound | ctorrent/torrentfilemanager.cpp:401-416 | No set of pieces has more bytes than the torrent |
| FileManager.TorrentFileManager.constructor | ctorrent/torrentfilemanager.cpp:138-146 | Nothing completed, pending or queued, and every priority zero |
| FileManager.TorrentFileManager.ProcessWrite | ctorrent/torrentfilemanager.cpp:335-369 | The loop over the files performs the split write, then exactly one pending bit goes and one completed bit comes |
| FileManager.TorrentFileManager.DrainWrites | ctorrent/torrentfilemanager.cpp:277-283 | The queue is written in order; exactly its pieces become complete and none stays pending |
| FileManager.TorrentFileManager.WritePieceBlock | ctorrent/torrentfilemanager.cpp:539-553 | A piece is queued iff its index is known, it is not pending and its digest matches |
| FileManager.TorrentFileManager.GetNextPiece | ctorrent/torrentfilemanager.cpp:371-399 | The scan with its early return hands out the leftmost piece of least priority among those eligible, raises exactly that priority, and hands out none iff no eligible piece is below the largest priority |
| FileManager.TorrentFileManager.ComputeDownloaded | ctorrent/torrentfilemanager.cpp:401-416 | The figure is that of the completed pieces without the last, never leaves less than the last piece, and is right iff the last piece is missing |
| FileManager.TorrentFileManager.IsFinished | ctorrent/torrent.h:64 | The answer is right iff the size of the bitset is even, or the byte behind it is zero, or a piece is missing and the bits of that byte do not make up the number; with a non-zero byte it is no once all are completed, and yes when exactly as many are missing as the byte has bits |
| FileManager.DrainInOrder | ctorrent/torrentfilemanager.cpp:277-283 | Requests are written first in, first out, each at the begin of its piece |
| FileManager.DrainHolds | ctorrent/torrentfilemanager.cpp:277-283 | After draining distinct requests of the right lengths each of their pieces reads back and no other piece is disturbed |
| FileManager.StepsPerformProcessWrite | ctorrent/torrentfilemanager.cpp:335-369 | The worker's file steps together are the write that the method performs |
| FileManager.LongPieceDisturbs | ctorrent/torrentfilemanager.cpp:109-120 | Why the data must have the right length: an accepted piece that is too long destroys the next one |
| FileManager.Torrent.HandlePieceCompleted | ctorrent/torrent.cpp:337-346 | Every finished piece is either queued or counted once as a miss and with all its bytes as wasted |
| FileManager.Torrent.MakeTrackerQuery | ctorrent/torrent.cpp:111-122 | The downloaded figure is that of the completed pieces without the last; with the remaining one it adds up to the total, and the subtraction never wraps |
| Scheduler.Pick | ctorrent/torrentfilemanager.cpp:371-399 | The piece handed out is the leftmost of least priority among the candidates; none iff there is no candidate |
| Scheduler.CandidateIff | ctorrent/torrentfilemanager.cpp:371-399 | An eligible piece is a candidate until its priority is the largest signed 32-bit number |
| Scheduler.RunAccounts | ctorrent/torrentfilemanager.cpp:371-399 | Over every run the total priority grows by exactly the successful calls and each priority by exactly the times its piece was handed out |
| Scheduler.RunKeepsSpread | ctorrent/torrentfilemanager.cpp:371-399 | The spread of priorities never exceeds the larger of its start value and one |
| Scheduler.Balance | ctorrent/torrentfilemanager.cpp:371-399 | After any number of calls every eligible piece was handed out floor(n / e) or ceil(n / e) times, where n is the number of successful calls; all calls succeed until every priority is exhausted |
| Popcount.PopcntCountsOnes | util/bitset.h:80-86 | The multiply-and-shift count is the number of one bits, for every 64-bit word |
| Bitset.TotalIsCardinality | util/bitset.h:89-113 | The bits of all bytes add up to the cardinality of the set they stand for |
| Bitset.Bitset.constructor | util/bitset.h:47-52 | The empty set |
| Bitset.Bitset.Test | util/bitset.h:68 | Membership |
| Bitset.Bitset.Set | util/bitset.h:69 | Adds one index and nothing else |
| Bitset.Bitset.Assign | util/bitset.h:70 | The branch-free form adds or removes exactly one index |
| Bitset.Bitset.Clear | util/bitset.h:71 | Removes one index and nothing else |
| Bitset.Bitset.Toggle | util/bitset.h:72 | Flips the membership of one index |
| Bitset.Bitset.Count | util/bitset.h:89-113 | The word-stepping count is the cardinality of the set plus, for an odd size, the bits of the byte behind the array; exactly the cardinality iff the size is even or that byte is zero |
| BencodeRoundTrip.ReadEncoded | bencode/decoder.cpp:53-164 | Decoding an encoded value gives the value with integers modulo 2^64 and maps in order, and stops exactly behind it, wherever it stands and whatever follows |
| BencodeRoundTrip.DecodeEncoded | bencode/decoder.cpp:28-35 | The same for a whole file with arbitrary bytes behind it |
| BencodeRoundTrip.RoundTripIff | bencode/decoder.cpp:132-164 | A value and all its parts read back iff it contains no empty dictionary and no empty key |
| BencodeRoundTrip.EmptyDictionaryHalts | bencode/decoder.cpp:58-61 | An encoded empty dictionary stops the decoder at the buffer's assertion |
| BencodeRoundTrip.EmptyStringAtEndHalts | bencode/decoder.cpp:122-126 | So does an empty string that ends the buffer, wherever it stands |
| BencodeRoundTrip.ReadEncodedIff | bencode/decoder.cpp:53-164 | At every place of every buffer a readable value reads back iff it is not an empty string that ends the buffer |
| BencodeRoundTrip.EmptyKeyBreaks | bencode/decoder.cpp:137-139 | A dictionary with an empty key does not read back |
| BencodeRoundTrip.ParseOfDec | bencode/encoder.cpp:41-57 | Parsing undoes printing, negative numbers modulo 2^64 |
| BencodeText.LessIff | bencode/bencode.h:37 | Keys are ordered as byte strings: a proper prefix first, otherwise by the first byte that differs |
| BencodeText.TextForm | bencode/encoder.cpp:26-103 | The text of a value in the letters of the format |
| BencodeText.DecIsDecimal | bencode/encoder.cpp:41-57 | Numbers are written in decimal, most significant digit first, without leading zeros |
| BencodeText.TextExample | bencode/encoder.cpp:26-103 | A dictionary with a list, strings and numbers, letter by letter |
| BencodeText.TokenNumber | bencode/decoder.cpp:53-72 | The number of every token of white space, a sign, digits and a rest: saturated at 2^64 - 1, negated modulo 2^64, zero without digits |
| BencodeText.BlankToken | bencode/decoder.cpp:53-72 | A token of white space gives no number |
| BencodeText.ReadUintIs | bencode/decoder.cpp:53-72 | Reads up to the first delimiter and stops iff there is none; without a number the uninitialised value stays |
| BencodeText.LongString | bencode/decoder.cpp:116-130 | A string whose length reaches past the buffer is empty, and reading goes on behind the colon |
| BencodeText.CutList | bencode/decoder.cpp:92-114 | A list cut off by the end of the buffer is read as if it were complete |
| BencodeText.CutDictionary | bencode/decoder.cpp:132-164 | A dictionary cut off behind a value loses all its entries |
| BencodeText.CutAfterKey | bencode/decoder.cpp:132-164 | So does one cut off behind a key |
| BencodeRoundTrip.DictionaryStops | bencode/decoder.cpp:137-139 | An empty key ends a dictionary at once and drops all its entries |
| BencodeText.CutFile | bencode/decoder.cpp:28-35 | A file cut off behind any of its top-level values gives an empty map |
| BencodeText.NoDictionary | bencode/decoder.cpp:28-35 | A file that does not start with a `d` gives an empty map |
| BencodeCanon.DecodeLastWins | bencode/decoder.cpp:132-164 | A dictionary written with unsorted or repeated keys reads back in the order of `LessIff`, each key with the value written last |
| BencodeCanon.InsertLookup | bencode/decoder.cpp:145-153 | Assigning to a key changes that key and no other |
| BencodeCanon.NormIdempotent | bencode/decoder.cpp:92-164 | Normalisation is idempotent |
| BencodeCanon.ReadValueDecoded | bencode/decoder.cpp:92-164 | Whatever the input, the decoder only builds sorted maps without empty keys and integers below 2^64 |
| BencodeCanon.DecodeEncodeDecode | bencode/bencode.h:45-47 | For any input without empty dictionaries in what it decodes to, decoding the encoding of the result gives the same result |
| BencodeCanon.PrefixFree | bencode/encoder.cpp:26-103 | Encodings are self-delimiting: equal byte strings starting with an encoded value start with the same value and go on equally |
| BencodeCanon.EncodeInjective | bencode/encoder.cpp:26-103 | Different values have different encodings |
| BencodeSpec.ReadValue | bencode/decoder.cpp:92-114 | A read that does not stop moves the cursor forward and never past the buffer; the recursion ends on every input |
| BencodeSpec.ReadDictionary | bencode/decoder.cpp:132-164 | The same for a dictionary, with all its nested reads |
| Bencode.Bencode.Decode | bencode/decoder.cpp:28-35 | The cursor-moving decoder computes the functional one on every byte string, including where it stops |
| Bencode.Bencode.UnpackByte | bencode/bencode.h:86-92 | Delivers the byte at the cursor iff there is one |
| Bencode.Bencode.ReadUintUntil | bencode/decoder.cpp:53-72 | The search loop and the parse agree with the functional read, and stop iff the delimiter is missing |
| Bencode.Bencode.ReadString | bencode/decoder.cpp:116-130 | The same for a string, with a length past the end giving the empty string |
| Bencode.Bencode.ReadVector | bencode/decoder.cpp:92-114 | The list loop, with the pushed-back tag byte, agrees with the functional read and ends |
| Bencode.Bencode.ReadDictionary | bencode/decoder.cpp:132-164 | The same for the dictionary loop |
| Bencode.Bencode.Encode | bencode/bencode.h:47 | What was decoded stays in front and the canonical encoding of the dictionary follows it, through all regrowth of the buffer |
| Bencode.Bencode.WriteType | bencode/encoder.cpp:83-103 | Appends exactly the encoding of any value and keeps the cursor at the end of the contents |
| Bencode.Bencode.WriteDictionary | bencode/encoder.cpp:69-81 | Appends exactly the encoding of a map |
| Bencode.Bencode.WriteVector | bencode/encoder.cpp:59-67 | Appends exactly the encoding of a list |
| Bencode.Bencode.WriteString | bencode/encoder.cpp:33-39 | Appends exactly the encoding of a string |
| Bencode.Bencode.WriteInt | bencode/encoder.cpp:41-57 | Appends exactly the encoding of a signed or unsigned number |
| Bencode.Bencode.Slice | bencode/bencode.h:63-67 | The contents from a position on |
| MetaInfo.InfoSlice | ctorrent/torrentmeta.cpp:72-86 | Behind the last key `info` of any file that is read stands the text of its value; the map read holds the normal form of that value |
| MetaInfo.TorrentMeta.Parse | ctorrent/torrentmeta.cpp:48-57 | A parse stops, rejects or accepts exactly according to the decoded map, and leaves the object described by it |
| MetaInfo.TorrentMeta.InternalParse | ctorrent/torrentmeta.cpp:59-154 | Accepts exactly by the checks on the map; then the hashed bytes are the canonical encoding of the `info` map, and digests, layout, paths, names and descriptive entries are those of the map |
| MetaInfo.InfoHashOfFile | ctorrent/torrentmeta.cpp:72-86 | For every encoded map with any order of keys and anything behind it: the bytes hashed are the encoding of the normal form of its `info` value, and they are the text of that value in the file iff the value is normal |
| MetaInfo.NormalIff | ctorrent/torrentmeta.cpp:77-83 | Re-encoding what was read of a value gives its text iff the value is normal |
| MetaInfoText.ParseText | ctorrent/torrentmeta.cpp:48-154 | For every encoded map, whatever the order of its keys and whatever stands behind it: accepted iff its text is complete, and then every field of the object is what the text says |
| MetaInfoText.AcceptsIff | ctorrent/torrentmeta.cpp:59-154 | Complete means a tracker, and an `info` map with digests, a piece length, and files or a non-zero length |
| MetaInfoText.FieldsAreText | ctorrent/torrentmeta.cpp:59-178 | Each field comes from the entry that carries its name; each file has the length and the path of its own description |
| MetaInfoText.FileIsText | ctorrent/torrentmeta.cpp:118-135 | A file description gives its `length`, or zero, and the strings of its `path` |
| MetaInfoText.ListedFiles | ctorrent/torrentmeta.cpp:126-135 | The files of a list stand one behind the other, with sums modulo 2^64 |
| MetaInfoText.KeysAscend | ctorrent/torrentmeta.cpp:117-125 | Files under keys are taken in ascending order of the keys of the text, each key once |
| MetaInfoText.PathText | ctorrent/torrentmeta.cpp:158-164 | Components are joined by a slash; an empty path in front brings none |
| MetaInfo.TorrentMeta.ReadSums | ctorrent/torrentmeta.cpp:91-108 | The loop yields one digest per 20 bytes begun |
| MetaInfo.SumsRoundTrip | ctorrent/torrentmeta.cpp:94-108 | The digests written out again are the string they were cut from |
| MetaInfo.TorrentMeta.ParseFiles | ctorrent/torrentmeta.cpp:156-178 | The running index, begin and total give the layout of the lengths, with sums modulo 2^64, and each file its joined path |
| MetaInfo.TorrentMeta.ReadFiles | ctorrent/torrentmeta.cpp:110-151 | Accepts the two shapes of `files` or a non-zero `length`, and lays out and names the files accordingly |
| MetaInfo.TorrentMeta.ReadDescription | ctorrent/torrentmeta.cpp:61-70 | A missing descriptive entry leaves its field empty |
| MetaInfo.TorrentMeta.BuildPath | ctorrent/torrentmeta.cpp:158-164 | The loop joins the components of a path |
| MetaInfo.PathRoundTrip | ctorrent/torrentmeta.cpp:158-164 | Non-empty components without a separator are exactly what stands between the separators of the joined path |
| MetaInfo.LayOutContiguous | ctorrent/torrentmeta.cpp:166-176 | The files lie one behind the other iff those before the last have fewer than 2^64 bytes; the total is right iff all have |
| Wire.BodyRoundTrip | ctorrent/peer.cpp:118-291 | The field reads of the receiver give back the message sent, or close the connection iff its block or bitfield is empty |
| Wire.FrameRoundTrip | ctorrent/peer.cpp:101-116 | A frame is read as its message and reading goes on right behind it |
| Wire.StreamContinues | ctorrent/peer.cpp:101-116 | Messages written one behind the other parse back, and parsing goes on behind them with whatever follows |
| Wire.StreamRoundTrip | ctorrent/peer.cpp:101-116 | Any list of messages written one behind the other parses back to the same list with nothing left |
| Wire.CutStream | ctorrent/peer.cpp:101-116 | Wherever the stream is cut, exactly the messages that arrived whole have been read and the rest waits |
| Wire.FrameTable | ctorrent/peer.cpp:313-425 | Every frame: length prefix, number of the message, and fields in their places |
| Wire.RejectedIff | ctorrent/peer.cpp:118-291 | Exactly the messages of a known kind and a wrong size are rejected |
| Wire.ReadIsWritten | ctorrent/peer.cpp:118-291 | A message read is the one whose frame the bytes are |
| Wire.BadFrameCloses | ctorrent/peer.cpp:101-116 | A rejected frame closes the connection, and nothing behind it is read |
| Wire.OutputMessage.constructor | net/outputmessage.cpp:28-33 | An empty message with the requested room |
| Wire.OutputMessage.AddByte | net/outputmessage.cpp:47-51 | Appends one byte |
| Wire.OutputMessage.AddBytes | net/outputmessage.cpp:40-45 | Appends the bytes; stops at the assertion of the buffer iff there is nothing to add and no room left |
| Wire.OutputMessage.AddU32 | net/outputmessage.cpp:63-71 | Appends the four bytes of the number, highest first |
| Wire.InputMessage.GetU32 | net/inputmessage.cpp:77-82 | Reads a number and moves on four bytes |
| Wire.InputMessage.GetBuffer | net/inputmessage.cpp:50-58 | Copies the next bytes iff there are enough, without moving on |
| Wire.Connection.SendKeepAlive | ctorrent/peer.cpp:313-317 | Writes exactly the frame of the message; the program never calls it |
| Wire.Connection.SendHave | ctorrent/peer.cpp:348-353 | Writes exactly the frame of the message |
| Peers.Peer.SendHave | ctorrent/peer.cpp:343-354 | Sends the message iff we do not choke the peer |
| Wire.Connection.SendRequest | ctorrent/peer.cpp:386-396 | Writes exactly the frame of the message |
| Wire.Connection.SendCancel | ctorrent/peer.cpp:415-425 | Writes exactly the frame of the message |
| Wire.Connection.SendPieceBlock | ctorrent/peer.cpp:356-366 | Writes exactly the frame of the message; stops before anything is written iff the block is empty |
| Wire.Connection.SendBitfield | ctorrent/peer.cpp:333-341 | Writes exactly the frame of the message; stops before anything is written iff the bitfield is empty |
| Serializer.BE32RoundTrip | util/serializer.h:42-69 | Reading a written big-endian number gives the number |
| Serializer.BE32Bytes | util/serializer.h:42-69 | Writing a read number gives the bytes |
| Serializer.BE32Value | util/serializer.h:42-69 | The most significant byte comes first |
| DataBuffers.DataBuffer.SetData | util/databuffer.h:62-70 | The buffer becomes a copy of the data with size zero |
| DataBuffers.DataBuffer.Reserve | util/databuffer.h:79-89 | Room grows to what is asked for, never shrinks, and the contents stay |
| DataBuffers.DataBuffer.Grow | util/databuffer.h:91-104 | The size reaches what is asked for by doublings that overshoot by less than a factor two, and the contents stay |
| DataBuffers.DataBuffer.Add | util/databuffer.h:106-110 | Appends one element, with or without regrowth |
| DataBuffers.DataBuffer.AddUnchecked | util/databuffer.h:112-115 | Appends one element where there is room |
| Tiling.TilesShape | ctorrent/peer.cpp:427-437 | The requests for a piece are as many as its blocks, non-empty, at most the maximum size, inside the piece, and `begin / maxRequestSize` numbers them 0, 1, 2, ... |
| Tiling.TilesPartition | ctorrent/peer.cpp:406-413 | Every byte of the piece is in exactly one of them |
| Tiling.FlattenBlocks | ctorrent/peer.cpp:246-250 | All blocks of a piece in slot order are the piece |
| Tiling.FlattenBound | ctorrent/peer.cpp:246-250 | Blocks of bounded size fit the room reserved for them |
| PeerProtocol.RequestsNameBlocks | ctorrent/peer.cpp:406-437 | Requests and cancels name the same blocks, and request k asks for exactly the bytes of block k |
| PeerProtocol.RunOk | ctorrent/peer.cpp:211-260 | Over every message sequence each queued piece has counted fewer blocks than it needs and at least those it holds, no block is oversized, and nothing handed over exceeds the reserved room |
| PeerProtocol.RequestNextQueues | ctorrent/peer.cpp:368-384 | A piece handed out is queued with all blocks missing and requested completely from an unchoked peer |
| PeerMeaning.RequestsAsk | ctorrent/peer.cpp:406-437 | The requests for a piece ask for each of its blocks once and in order, and the cancels take exactly these back |
| PeerMeaning.RequestNextIs | ctorrent/peer.cpp:368-384 | A piece handed out: we say that we are interested, it is queued with no block arrived, and all its blocks are asked for unless the peer chokes us |
| PeerMeaning.Replies | ctorrent/peer.cpp:118-210 | What each message other than a block is answered with, and which requests close the connection |
| PeerMeaning.BlockCloses | ctorrent/peer.cpp:211-236 | A block closes the connection iff it is empty, too long, for no queued piece or past its last slot |
| PeerMeaning.BlockOfDone | ctorrent/peer.cpp:237-240 | A block of a piece completed meanwhile drops the piece and takes its requests back |
| PeerMeaning.BlockStored | ctorrent/peer.cpp:241-245 | A block that is not the last one counted goes into its slot and nothing else happens |
| PeerMeaning.BlockCompletes | ctorrent/peer.cpp:245-259 | The last one hands the blocks over in slot order; a refusal is answered with a choke, otherwise the next piece is requested unless the download is finished |
| PeerMeaning.RunHears | ctorrent/peer.cpp:122-182 | Over every exchange, whether the peer chokes us is what it said last, the pieces it has are those it announced, and we are interested iff we said so |
| PeerMeaning.BitfieldOfPack | ctorrent/peer.cpp:168-178 | A bitfield with the first piece in the most significant bit announces exactly the pieces packed into it |
| PeerMeaning.RunConcat | ctorrent/peer.cpp:291-298 | An exchange goes on where it stood, and is over once closed |
| PeerMeaning.RunOne | ctorrent/peer.cpp:118-292 | An exchange of one message is its step |
| PeerProtocol.StepOther | ctorrent/peer.cpp:118-291 | No message that is not a block of a piece changes the progress of that piece |
| PeerProtocol.ReassemblyFrom | ctorrent/peer.cpp:211-260 | From any point on, whatever true blocks of a piece arrive, in any order, however often and among any messages: nothing is handed over before as many have arrived as the piece has slots, then the piece is, and it is the true piece iff no slot came twice; closing the connection afterwards changes nothing |
| PeerProtocol.Reassembly | ctorrent/peer.cpp:211-260 | Of a newly requested piece as many true blocks arrive as it has slots: it is handed over exactly once, and as the true piece iff no block was a repetition |
| PeerProtocol.AllOccur | ctorrent/peer.cpp:243-245 | Why counting arrivals is enough without repetitions: among as many slots as there are, all occur iff none occurs twice |
| PeerProtocol.DuplicatesOnlyShorten | ctorrent/peer.cpp:239-243 | However many true blocks arrive for however many requests of a piece, each thing handed over is the true piece or shorter, never a wrong piece of the right length; `Reassembly` says when it is which |
| PeerProtocol.GenuineDelivery | ctorrent/peer.cpp:245-250 | It is the true piece iff no slot is empty |
| PeerProtocol.RepeatedBlockLosesPiece | ctorrent/peer.cpp:243-250 | The smallest witness: of a piece of two blocks the first sent twice hands over half of it |
| Peers.Peer.constructor | ctorrent/peer.cpp:27-33 | Both sides choked, nobody interested, nothing queued |
| Peers.Peer.RequestBlocks | ctorrent/peer.cpp:427-437 | The loop sends the requests of the tiling, or closes when the peer chokes us |
| Peers.Peer.CancelBlocks | ctorrent/peer.cpp:406-413 | The loop sends the cancels of the same tiling |
| Peers.Peer.RequestNextPiece | ctorrent/peer.cpp:368-384 | Performs the step of handing out a piece |
| Peers.Peer.HandleBitfield | ctorrent/peer.cpp:163-182 | The bit loops add exactly the announced pieces, most significant bit first, and nothing past the last piece |
| Peers.Peer.HandleUnChoke | ctorrent/peer.cpp:129-136 | All queued pieces are requested again, in order |
| PeerProtocol.FindRequested | ctorrent/peer.cpp:274-277 | Finds the first remembered request that is equal, or none if there is none |
| PeerProtocol.RequestsAccount | ctorrent/peer.cpp:183-281 | Over every message sequence the requests remembered are, as often as they occur, those at the start and those accepted, without those cancelled |
| PeerProtocol.RequestsBounded | ctorrent/peer.cpp:199-208 | No request longer than the largest block is ever remembered |
| PeerProtocol.RunTells | ctorrent/peer.cpp:319-331 | Over every message sequence, whether we choke the peer is what the messages sent last told it, and whether it is interested is what it said last |
| PeerProtocol.AcceptedIff | ctorrent/peer.cpp:188-208 | After any messages, a request is accepted iff the peer last said it is interested, was last told it is not choked, asks for no more than the largest block, and the read is accepted |
| Peers.Peer.HandleRequest | ctorrent/peer.cpp:183-210 | Performs the step of the message; the request is remembered iff the peer is answered neither by closing nor by a choke |
| Peers.Peer.HandleCancel | ctorrent/peer.cpp:264-281 | Takes exactly the first equal remembered request off the list, and changes nothing if there is none |
| Peers.Peer.Assemble | ctorrent/peer.cpp:246-250 | The unchecked copy loops stay within the reserved room and produce the blocks in slot order |
| Peers.Peer.HandlePieceBlock | ctorrent/peer.cpp:211-263 | Performs the step of a block message, with all its ways out |
| Peers.Peer.HandleMessage | ctorrent/peer.cpp:118-292 | Performs the step of the message the payload parses to; a wrong size closes and changes nothing else |
| Peers.Peer.Receive | ctorrent/peer.cpp:101-116 | Over any bytes received, the peer goes through exactly the run of the messages the bytes parse to, and what it writes is the frames of what it sends |
| Peers.Swarm.OnPieceWriteComplete | ctorrent/torrent.cpp:354-363 | `Have` goes once to exactly the peers that did not send the piece, do not have it and are not choked |
| EndToEnd.ParsedIsTorrent | ctorrent/torrentmeta.cpp:59-154 | What the parser leaves is the torrent of the decoded map; its size field is right iff the total fits 64 bits |
| EndToEnd.WellFormedIff | ctorrent/torrentmeta.cpp:88-151 | A decoded map gives a torrent the piece store works for iff its piece length, lengths and digest count satisfy conditions read off the map |
| EndToEnd.ReassembledFromWire | ctorrent/peer.cpp:101-116 | From the bytes on the wire: a piece is handed out, and whatever arrives carries as many of its blocks as it has slots, in any order among messages of every kind and with a last frame that may be cut off or malformed: it is handed over exactly once, and as the true piece iff no block was a repetition |
| EndToEnd.WireToDisk | ctorrent/torrent.cpp:337-346 | That piece, passed to the store while not pending, is completed and announced within a bounded number of moves of the worker, whatever else is submitted; it is on disk unless it was accepted again, and in any case as long as no wrong data has passed the check |
| EndToEnd.WireCanReachDisk | ctorrent/torrent.cpp:337-346 | And from every state of the store in which that piece is not pending, the run can go on so that it is |
| EndToEnd.AcceptedIsTrue | ctorrent/torrentfilemanager.cpp:539-542 | However often true blocks are repeated, whatever is handed over for the piece is the true piece iff it has its length |
| EndToEnd.FinishedDownload | ctorrent/torrent.h:64 | As long as no wrong data has passed the check, in every state with all pieces completed every file is complete and equal to its part of the torrent; and it is no longer than that, if no file was too long at the start |

## Left out

- Layout.FileWrite: `fwrite` is taken to write everything; a full disk is not modelled, because the source does not handle it either.
- StoreProtocol.Run: one I/O thread submits requests, as the program has one; the reads (`process_read`, `is_read_eligible`) are only a queue of jobs that may fail, because their size computation serves no property worth stating.
- StoreProtocol.NoLostWakeup: says nothing about the shutdown flag and the destructor's join.
- StoreProgress.ServedWithin: counts the moves of the worker; that the operating system lets the worker move is not modelled.
- Bencode.Bencode.Decode: the types in a `boost::any` are four constructors; reading the file from disk is not modelled.
- BencodeSpec.ReadString: does not model the wrap-around of `len + m_pos` at 2^64.
- MetaInfo.TorrentMeta.Parse: SHA-1 is the identity on the bytes it is given, and the separator of paths is the one outside Windows.
- PeerProtocol.Step: answers of the rest of the client (piece done, read accepted, write accepted, finished, next piece) are inputs of the step; the connection stays open until the handler closes it.
- PeerProtocol.NumBlocks: does not model the rounding of `double` or the cast to `int`, which are exact for 32-bit piece sizes and the fixed block size.
- Peers.Peer.TakePieceBlock: the pieces being downloaded are values in the queue, so ownership and deletion of the heap objects are not captured.
- Peers.Peer.Receive: handshake and peer identifiers, timers and the delayed write are not modelled.
- Peers.Swarm.OnPieceWriteComplete: peers are walked in a fixed order; the source's map has an unspecified one.
- Sending remembered blocks back after a read (`handlePieceBlockData`, `onPieceReadComplete`): easy, and it rests on the reads.
- The outgoing bitfield of `Torrent::sendBitfield`: it does not put one bit per piece in the order the receiver expects.
- `scan_file` and the first scan of the disk: runs start from any set of pieces already on disk instead.
- `resize` and `raw_set` of the bitset, little-endian and 64-bit helpers, `addU16` and string messages: not used by the modelled parts, or only easy members.
- Trackers, sockets, timers, screen output, path handling and the address helpers.
