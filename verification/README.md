# Verified models of a camera and media streaming code base

The repository bundles a Windows media pipeline: an H.264 decoder front end (LAVFilters/qsdecoder), a server with
its support library (Src), and a logging library (log4z). This project models the parts of it that are algorithms
rather than plumbing, and proves what they do for every input, every run or every interleaving.

| File | Models |
|---|---|
| Bytes, Options | bytes, big-endian numbers, slices, `memcpy`; a value that may be missing |
| NalUnits, NaluIterator | the two ways a buffer is cut into H.264 NAL units, and the cursor that hands them out |
| FrameConstructor | the base frame constructor: residual bytes, headers once, bytes conserved over every run |
| AvcFrames, AvcRuns, AvcFrameConstructor | the H.264 frame constructor: length-prefixed samples to Annex B, over whole runs, and what it loses or repeats |
| Md5Transform, Md5, Md5Vectors | the unrolled compression function against RFC 1321, streaming digests, and two digests of its appendix worked out |
| VarInt, ByteBuffer | variable-length integers, and the ring buffer with rewind and commit under the codecs |
| Utf | UTF-8 to UTF-16BE (RFC 3629, RFC 2781) |
| Base64 | encoder and lenient decoder (RFC 4648, section 4) |
| Log4zQueue, Log4zCalls | the logging threads and the writer thread as an interleaving step system, and what becomes of every call |
| WorkerThread, WorkerTasks | the lock and event hand-off of a worker thread, down to lost wake-ups and termination of every schedule, and what becomes of every task |
| FrameAllocator, D3D11Allocator | reference-counted frame responses, the texture handles behind them, and both together |
| AspectRatio | the greatest common divisor and the 16-bit and 32-bit aspect-ratio conversions |
| BlockCopy | the register-wise frame copy and its stores, and two halves copied at once under every schedule |
| NumberText, LogStream | table-driven number printing into a bounded buffer |
| IntegerParsing | overflow-checked integer parsing, also of what the log prints |
| IniText, IniRoundTrip, IniFile | the INI reader and writer, and exactly which documents come back |

Objects that the program updates in place are classes whose methods are proved against a value: the iterator against
the list of units still to come, the ring buffer against a byte sequence with a read offset, the MD5 context against the
message absorbed, the allocators against their lists and a ledger of events. Threads are modelled as states and steps,
one lock operation or shared access a step, with arbitrary interleaving. Integer widths are written out where the code
depends on them: the MD5 counter, MD5 words as 32-bit vectors, the 16-bit and 32-bit ratios, 32-bit and 64-bit variable-length integers,
the shifted sums of the UTF-8 converter.

Where the code does not do what its surroundings expect, the model keeps the code and the proofs say exactly when it
does:

- `AvcFrames.CutSurvives`: a stream of units worth writing that is cut inside a unit is reassembled exactly when more
  than the unit's length prefix came with the first sample; `CutPrefixLosesUnit` is an input. With nothing held, a unit
  whose header is invalid is not kept either when it is cut (`FragmentIsKept`), and the next sample is then cut from its
  middle: `CutInvalidLosesNext` is an input.
- `AvcRuns.HeldComeAgain`: a completed fragment stays in `m_InputBuffer` with all units behind it, so they are emitted
  again with each later sample, up to and including the first that ends inside a unit with a valid header; that one's
  fragment replaces them, and they come with none after it. `StreamSurvives`: a stream cut into samples, none of whose
  fragments is lost, comes out once and in order exactly when nothing worth writing was held whenever a sample came.
- `AvcFrameConstructor.AvcConservation`: the H.264 constructor conserves bytes over a run exactly when no sample that
  converts to nothing arrived while undecoded bytes were carried; `DelimiterForgets` is the two-sample case where the
  bytes vanish. In that case a debug build would stop at an assertion in `SaveResidualData`, which the model does not
  include.
- `Md5.DigestIsRepeatable`: taking a digest leaves the object usable for the same message exactly when fewer than 56
  bytes are buffered, or the buffered bytes happen to equal what overwrites them. The `_finished` flag never prevents a
  second `final`, because the updates inside `final` clear it.
- `VarInt.PositionRoundTrip`: packed positions come back exactly for y in 0..2047; y = -1 becomes 2047 (`PositionIsLost`).
- `Utf.LegalExactly`: besides well-formed characters, two families of ill-formed sequences pass the legality check.
- `Log4zQueue.NothingIsStranded`: entries queued by threads that passed the running check before `stop` can remain
  in the queue after the writer has left; without such threads nothing can.
- `WorkerThread.TerminationLeavesTasks`: after a request to terminate, all tasks pushed end up run exactly when none was
  queued at the request and none was pushed later; `TaskIsLeft` is a run in which one is left.
- `FrameAllocator.CloseAgain`: `Close` does not clear the list of private responses, so closing twice is harmless exactly
  when there were none; with one, it is released twice (`ReleasedTwice`).
- `AspectRatio.RoundTrip`: the ratio survives exactly when both cross products fit 16 bits; 4:3 at 1 x 16384 does not
  (`RatioIsLost`).
- `LogStream.WholeNumberWritten`: a negative number needs one place more than a positive one; with fewer, a sign alone
  can be left in the log (`SignAlone`).
- `IntegerParsing.NoDigitsMeansZero`: a text without digits is accepted as zero.
- `IniRoundTrip.PrintThenRead`: a document is restored from what is printed exactly when it is writable and every section
  with contents is the first of its name, ignoring case when asked to; the contents of later ones move to the first
  (`IniText.SectionsAreMerged`). Not writable are value names that hold one of `;#[=` or start with a character that is
  not printable (`MarkedNameIsLost`; `IniText.ReadMarkedValue` says what becomes of each) and, when lines end without a
  carriage return, comments and values that end with one (`ReturnIsLost`). Through the text of a file, no text may hold
  a newline either (`IniFile.FileRoundTrip`).

To check the project: `dafny verify dfyconfig.toml`.

## Model

| member | source | states |
|---|---|---|
| NalUnits.PrintThenCut | LAVFilters/qsdecoder/H264Nalu.cpp:74-107 | cutting printed length-prefixed payloads gives them back complete and in order, whatever bytes follow |
| NalUnits.CutThenPrint | LAVFilters/qsdecoder/H264Nalu.cpp:74-107 | printing the payloads of a cut restores the buffer up to where cutting stopped, at most a prefix short of the end |
| NalUnits.OnlyLastOverruns | LAVFilters/qsdecoder/H264Nalu.cpp:82-107 | only the last unit can run past the buffer, earlier ones are adjacent and never partial |
| NalUnits.AnnexBTiles | LAVFilters/qsdecoder/H264Nalu.cpp:51-134 | the start-code units tile the buffer from its first visible start code to its end, with no visible start code inside any of them |
| NalUnits.TilingIsUnique | LAVFilters/qsdecoder/H264Nalu.cpp:51-134 | no other list of units is such a tiling |
| NalUnits.AnnexBReadBack | LAVFilters/qsdecoder/H264Nalu.cpp:51-134 | payloads written behind 00 00 00 01 are read back, each but the last with one trailing zero, exactly when none holds a start code and the last has at least two bytes |
| NaluIterator.Iterator.constructor | LAVFilters/qsdecoder/H264Nalu.cpp:32-49 | the units to come are all units of the buffer in the chosen format |
| NaluIterator.Iterator.FindNextStartCode | LAVFilters/qsdecoder/H264Nalu.cpp:51-72 | the cursor moves to the first visible start code, or to the end when there is none |
| NaluIterator.Iterator.ReadPrefix | LAVFilters/qsdecoder/H264Nalu.cpp:89-94 | the length is the big-endian value of the prefix bytes |
| NaluIterator.Iterator.NextPrefixed | LAVFilters/qsdecoder/H264Nalu.cpp:82-107 | the cursor spans exactly the first remaining unit, partial when it overruns the buffer |
| NaluIterator.Iterator.NextAnnexB | LAVFilters/qsdecoder/H264Nalu.cpp:108-126 | the cursor spans exactly the first remaining unit, partial when it reaches the end of the buffer |
| NaluIterator.Iterator.Next | LAVFilters/qsdecoder/H264Nalu.cpp:74-134 | code, extent and header are those of the first remaining unit, which is removed; the end is reported exactly when none remains |
| FrameConstructor.FeedConserves | LAVFilters/qsdecoder/frame_constructors.cpp:154-196 | one sample with any amount decoded keeps taken plus carried bytes equal to headers once plus all samples |
| FrameConstructor.BytesAreConserved | LAVFilters/qsdecoder/frame_constructors.cpp:75-196 | the same over every run of samples, decoder takes and resets |
| FrameConstructor.Bitstream.Take | LAVFilters/qsdecoder/frame_constructors.cpp:92-112 | the decoder takes a prefix of its choice and leaves the rest |
| FrameConstructor.Constructor.Reset | LAVFilters/qsdecoder/frame_constructors.cpp:75-79 | nothing is carried and headers are due again |
| FrameConstructor.Constructor.SaveResidualData | LAVFilters/qsdecoder/frame_constructors.cpp:92-112 | what is carried becomes exactly what the decoder left |
| FrameConstructor.Constructor.ConstructFrame | LAVFilters/qsdecoder/frame_constructors.cpp:154-196 | the frame is residual, headers if due, then the sample, in a buffer of exactly that size; an empty sample asks for more and changes nothing |
| FrameConstructor.Constructor.WriteResidualData | LAVFilters/qsdecoder/frame_constructors.cpp:296-304 | the residual is appended at the write position and forgotten |
| FrameConstructor.Constructor.WriteHeaders | LAVFilters/qsdecoder/frame_constructors.cpp:306-314 | headers are appended once until the next reset |
| FrameConstructor.Constructor.WriteSampleData | LAVFilters/qsdecoder/frame_constructors.cpp:316-320 | the sample is appended at the write position |
| FrameConstructor.Constructor.Decode | LAVFilters/qsdecoder/frame_constructors.cpp:92-196 | one sample through constructor and decoder follows the step of the conservation law |
| AvcFrames.WholeSample | LAVFilters/qsdecoder/frame_constructors.cpp:570-626 | a sample completing the held input to whole units emits exactly the valid payloads that are not access unit delimiters |
| AvcFrames.SampleToAnnexB | LAVFilters/qsdecoder/frame_constructors.cpp:570-626 | with nothing held, the emitted payloads are those of the sample, and re-reading them in Annex B mode restores them exactly when they are readable back |
| AvcFrames.FragmentIsKept | LAVFilters/qsdecoder/frame_constructors.cpp:583-626 | a sample ending inside a unit with a valid header keeps exactly that fragment, whatever was held; if the header is invalid, nothing is kept if nothing was held, and otherwise everything |
| AvcFrames.SplitUnit | LAVFilters/qsdecoder/frame_constructors.cpp:570-626 | two samples that cut a stream inside a unit with a valid header emit the stream's payloads between them |
| AvcFrames.HeldInputRepeats | LAVFilters/qsdecoder/frame_constructors.cpp:573-617 | held payloads are emitted again with a next sample of whole units, and stay held; its own come out alone exactly when nothing held is emitted |
| AvcFrames.ShortTailIsDropped | LAVFilters/qsdecoder/H264Nalu.cpp:76-77 | a tail no longer than a prefix is not emitted; it is dropped with its sample if nothing was held, and otherwise everything stays held |
| AvcFrames.EmittedFits | LAVFilters/qsdecoder/frame_constructors.cpp:587-617 | emitted payloads with their prefixes take no more room than the buffer they came from |
| AvcFrames.HeaderDecides | LAVFilters/qsdecoder/frame_constructors.cpp:587-617 | for every forbidden bit, reference index and type: a whole unit comes out exactly when the bit is clear and the type is one of 1 to 8, 10, 11 and 12, and nothing of it is kept |
| AvcFrames.HeaderKeepsFragment | LAVFilters/qsdecoder/frame_constructors.cpp:599-609 | likewise, a unit cut behind its header is kept exactly for a clear bit and the types 1 to 12 |
| AvcFrames.ParameterSetComesOut | LAVFilters/qsdecoder/frame_constructors.cpp:587-598 | of 00 00 00 02 67 64 00 00 00 02 09 10 comes out 00 00 00 01 67 64 |
| AvcFrames.StartCodeSample | LAVFilters/qsdecoder/frame_constructors.cpp:583-617 | in start-code mode the last unit of a sample is not written out but kept, those before it come out |
| AvcFrames.CutSurvives | LAVFilters/qsdecoder/frame_constructors.cpp:570-626 | a stream of units worth writing, cut inside a unit, gives its payloads in two samples exactly when more than the length prefix came with the first |
| AvcFrames.CutPrefixLosesUnit | LAVFilters/qsdecoder/frame_constructors.cpp:570-626 | a concrete stream cut behind a prefix loses its unit |
| AvcFrames.CutInvalidLosesNext | LAVFilters/qsdecoder/frame_constructors.cpp:599-617 | a concrete stream cut inside a unit of type 13 loses the unit behind it |
| AvcRuns.ConvertArrival | LAVFilters/qsdecoder/frame_constructors.cpp:570-626 | one sample ending anywhere behind anything held: what it emits and what is kept |
| AvcRuns.InputIs | LAVFilters/qsdecoder/frame_constructors.cpp:573-617 | over every run, until a fragment is lost, the input buffer holds the units since the last kept fragment, that unit first, and the bytes behind them; it is empty exactly until a fragment is kept |
| AvcRuns.SampleEmits | LAVFilters/qsdecoder/frame_constructors.cpp:570-626 | over every run, until a fragment is lost, a sample emits the wanted units complete since the last earlier sample that ended inside a valid unit, only its own before there was one |
| AvcRuns.HeldComeAgain | LAVFilters/qsdecoder/frame_constructors.cpp:573-617 | after a kept fragment its unit and all behind it come again with each later sample, up to and including the first that ends with another kept fragment, and with none after it |
| AvcRuns.StreamSurvives | LAVFilters/qsdecoder/frame_constructors.cpp:570-626 | a stream cut anywhere into samples, none of whose fragments is lost, is emitted once and in order exactly when nothing worth writing was held whenever a sample came |
| AvcFrameConstructor.AvcConstructor.ConvertUnit | LAVFilters/qsdecoder/frame_constructors.cpp:587-617 | one turn of the loop emits the unit behind a start code, keeps a partial unit, or skips it |
| AvcFrameConstructor.AvcConstructor.ConvertUnits | LAVFilters/qsdecoder/frame_constructors.cpp:583-626 | the loop leaves output and input buffer as the whole-sample conversion says |
| AvcFrameConstructor.AvcConstructor.ConstructFrame | LAVFilters/qsdecoder/frame_constructors.cpp:559-653 | the frame is residual, headers if due, then the converted sample; an empty conversion leaves bitstream and carried bytes alone |
| AvcFrameConstructor.AvcConstructor.Decode | LAVFilters/qsdecoder/frame_constructors.cpp:559-653 | one sample through constructor and decoder follows the step of the run |
| AvcFrameConstructor.AvcConstructor.Reset | LAVFilters/qsdecoder/frame_constructors.cpp:655-659 | carried bytes and held input are gone, headers are due |
| AvcFrameConstructor.AvcConservation | LAVFilters/qsdecoder/frame_constructors.cpp:92-112 | over every run, bytes are conserved exactly when none were forgotten, and the number forgotten is accounted for |
| AvcFrameConstructor.DelimiterForgets | LAVFilters/qsdecoder/frame_constructors.cpp:626-631 | an undecoded sample followed by a lone delimiter vanishes |
| Md5Transform.Round1 | Src/Server/md5.cpp:225-241 | the sixteen FF steps are operations 0 to 15 of RFC 1321 |
| Md5Transform.Round2 | Src/Server/md5.cpp:243-259 | the sixteen GG steps are operations 16 to 31 |
| Md5Transform.Round3 | Src/Server/md5.cpp:261-277 | the sixteen HH steps are operations 32 to 47 |
| Md5Transform.Round4 | Src/Server/md5.cpp:279-295 | the sixteen II steps are operations 48 to 63 |
| Md5Transform.Transform | Src/Server/md5.cpp:219-303 | the unrolled code computes the table-driven compression function |
| Md5Transform.FChooses | Src/Server/md5.cpp:27 | bit by bit, F takes the bits of y where x is one, and of z elsewhere |
| Md5Transform.GChooses | Src/Server/md5.cpp:28 | bit by bit, G takes the bits of x where z is one, and of y elsewhere |
| Md5Transform.HIsParity | Src/Server/md5.cpp:29 | bit by bit, H is the parity of the three |
| Md5Transform.IInverts | Src/Server/md5.cpp:30 | bit by bit, I inverts y unless x is zero and z is one |
| Md5Transform.RotationMovesBits | Src/Server/md5.cpp:34 | rotating moves every bit up by as many places, going round at 32 |
| Md5Vectors.InitialBytes | Src/Server/md5.cpp:110-113 | the bytes of the initial words are 01 23 45 67 89 ab cd ef fe dc ba 98 76 54 32 10 |
| Md5Vectors.LengthField | Src/Server/md5.cpp:193-207 | the length field is eight times the number of bytes, modulo 2^64, low-order byte first |
| Md5Vectors.EmptyDigest | Src/Server/md5.cpp:94-303 | the digest of the empty text is d41d8cd98f00b204e9800998ecf8427e |
| Md5Vectors.AbcDigest | Src/Server/md5.cpp:94-303 | that of abc is 900150983cd24fb0d6963f7d28e17f72 |
| Md5.CounterStep | Src/Server/md5.cpp:149-163 | the two-word counter with its carry counts bits modulo 2^64 |
| Md5.Context.Reset | Src/Server/md5.cpp:104-116 | the object stands for the empty message |
| Md5.Context.Update | Src/Server/md5.cpp:149-184 | the object stands for the message extended by the input; the buffer holds what did not fill a block |
| Md5.Context.Final | Src/Server/md5.cpp:188-216 | the digest is that of the message; the message the object then stands for is stated exactly |
| Md5.Context.GetDigest | Src/Server/md5.cpp:94-102 | the digest of everything absorbed |
| Md5.DigestIsRepeatable | Src/Server/md5.cpp:188-216 | a digest leaves the message alone exactly when fewer than 56 bytes are buffered or they equal what overwrites them |
| Md5.DigestOf56Forgets | Src/Server/md5.cpp:188-216 | after 56 bytes of 0x61 it does not |
| Md5.DigestOfChunks | Src/Server/md5.cpp:94-216 | any cutting of a message into updates gives the RFC 1321 digest of the whole |
| Md5.Decode | Src/Server/md5.cpp:319-326 | sixteen little-endian words of a block |
| Md5.Encode | Src/Server/md5.cpp:306-316 | words as little-endian bytes |
| VarInt.EncodedValue | Src/Common/ByteBuffer.cpp:573-606 | the digits written stand for the number |
| VarInt.EncodedLength | Src/Common/ByteBuffer.cpp:573-606 | a number below 128^n takes at most n bytes |
| VarInt.EncodedBytes | Src/Common/ByteBuffer.cpp:573-606 | byte k holds base-128 digit k, with 128 added on all bytes but the last |
| VarInt.SmallEncodings | Src/Common/ByteBuffer.cpp:573-606 | 0 is 00, 127 is 7F, 128 is 80 01, 300 is AC 02 |
| VarInt.EncodingIsPrefixFree | Src/Common/ByteBuffer.cpp:387-421 | an encoding is found at its own length whatever follows |
| VarInt.MergedValue | Src/Common/ByteBuffer.cpp:387-421 | merging in a byte extends the value read so far, modulo the integer width |
| VarInt.PositionRoundTrip | Src/Common/ByteBuffer.cpp:454-473 | a packed position comes back exactly when x and z fit 26 signed bits and y is in 0..2047 |
| VarInt.PositionIsLost | Src/Common/ByteBuffer.cpp:464-471 | y = -1 comes back as 2047 |
| VarInt.PackedFields | Src/Common/ByteBuffer.cpp:634-640 | x is in the top 26 bits, y in the 12 below them, z in the lowest 26 |
| ByteBuffer.RoundAppend | Src/Common/ByteBuffer.cpp:164-204 | writing behind a position going round appends to what lies before it |
| ByteBuffer.AheadAdvance | Src/Common/ByteBuffer.cpp:816-824 | moving on keeps the cyclic order start, read, write |
| ByteBuffer.FirstInFirstOut | Src/Common/ByteBuffer.cpp:164-246 | over every interleaving, committed bytes followed by held bytes are all bytes written, and used plus free space is the capacity |
| ByteBuffer.Buffer.Perform | Src/Common/ByteBuffer.cpp:164-204 | each traced call on the object follows the step of the abstract trace |
| ByteBuffer.PerformAll | Src/Common/ByteBuffer.cpp:164-246 | any sequence of calls on a new object leaves it with the stream of the trace |
| ByteBuffer.Buffer.GetFreeSpace | Src/Common/ByteBuffer.cpp:207-222 | the capacity less the bytes held |
| ByteBuffer.Buffer.GetUsedSpace | Src/Common/ByteBuffer.cpp:224-231 | the bytes not committed |
| ByteBuffer.Buffer.GetReadableSpace | Src/Common/ByteBuffer.cpp:233-246 | the bytes not read |
| ByteBuffer.Buffer.CanReadBytes | Src/Common/ByteBuffer.cpp:248-253 | true exactly when that many bytes are unread |
| ByteBuffer.Buffer.CanWriteBytes | Src/Common/ByteBuffer.cpp:255-260 | true exactly when that many bytes fit |
| ByteBuffer.Buffer.Write | Src/Common/ByteBuffer.cpp:164-204 | all bytes are appended, or none when they do not fit |
| ByteBuffer.Buffer.WriteBuf | Src/Common/ByteBuffer.cpp:674-698 | all bytes are appended, or none when they do not fit |
| ByteBuffer.Buffer.ReadBuf | Src/Common/ByteBuffer.cpp:645-672 | the first unread bytes are returned and skipped, or nothing happens |
| ByteBuffer.Buffer.ReadString | Src/Common/ByteBuffer.cpp:700-728 | the first unread bytes replace the string, or string and buffer stay as they were |
| ByteBuffer.Buffer.SkipRead | Src/Common/ByteBuffer.cpp:744-754 | unread bytes are skipped, or nothing happens |
| ByteBuffer.Buffer.ReadAll | Src/Common/ByteBuffer.cpp:756-761 | all unread bytes are returned |
| ByteBuffer.Buffer.CommitRead | Src/Common/ByteBuffer.cpp:784-789 | bytes read are forgotten and their space is free |
| ByteBuffer.Buffer.ResetRead | Src/Common/ByteBuffer.cpp:791-796 | reading starts again at the first byte not committed |
| ByteBuffer.Buffer.ReadAgain | Src/Common/ByteBuffer.cpp:798-814 | the bytes read and not committed are appended to the output |
| ByteBuffer.Buffer.WriteVarInt | Src/Common/ByteBuffer.cpp:573-606 | the encoding is appended whole, or not at all |
| ByteBuffer.Buffer.ReadVarInt | Src/Common/ByteBuffer.cpp:387-421 | the value modulo the width and exactly the encoding's bytes; an unending encoding is consumed and fails |
| ByteBuffer.Buffer.WriteVarUTF8String | Src/Common/ByteBuffer.cpp:609-620 | length in 32 bits and string are appended; on failure the length alone may have been |
| ByteBuffer.Buffer.ReadVarUTF8String | Src/Common/ByteBuffer.cpp:423-437 | the string behind its length; the length is consumed even on failure |
| ByteBuffer.Buffer.WriteBE | Src/Common/ByteBuffer.cpp:483-545 | the big-endian bytes are appended, or nothing |
| ByteBuffer.Buffer.ReadBE | Src/Common/ByteBuffer.cpp:271-342 | the big-endian value of the first unread bytes, or nothing happens |
| Bytes.BigEndianDigits | Src/Common/ByteBuffer.cpp:483-545 | byte k of n is base-256 digit n - 1 - k of the number |
| Bytes.BigEndianOfFour | Src/Common/ByteBuffer.cpp:271-342 | four bytes stand for 2^24, 2^16, 2^8 and 1 times their values |
| ByteBuffer.Buffer.ReadToByteBuffer | Src/Common/ByteBuffer.cpp:763-782 | the bytes move to the other buffer in pieces, or neither buffer changes |
| ByteBuffer.EncodingFits | Src/Common/ByteBuffer.cpp:573-606 | at most 5 bytes for 32 bits and 10 for 64 |
| ByteBuffer.VarIntComesBack | Src/Common/ByteBuffer.cpp:387-421 | an integer written behind unread bytes is read back after them by either reader, consuming exactly its bytes, whatever follows |
| ByteBuffer.StringComesBack | Src/Common/ByteBuffer.cpp:423-437 | a string written behind unread bytes is read back after them, consuming exactly its bytes |
| ByteBuffer.TakeInteger | Src/Common/ByteBuffer.cpp:405-421 | an integer in front of the unread bytes is read back and exactly its bytes are consumed |
| ByteBuffer.TakeString | Src/Common/ByteBuffer.cpp:423-437 | a string in front of the unread bytes is read back and exactly its bytes are consumed |
| ByteBuffer.ThroughBuffer | Src/Common/ByteBuffer.cpp:387-437 | an integer and a string written to one object, wherever it wraps and behind whatever is unread, are read back from it, and the write succeeds exactly when both fit |
| Utf.LegalExactly | Src/Common/StringUtils.cpp:410-442 | the legality check accepts exactly the well-formed characters of RFC 3629 and two named families besides |
| Utf.IllFormedPasses | Src/Common/StringUtils.cpp:430-432 | ED 41 80 passes |
| Utf.OneCharacter | Src/Common/StringUtils.cpp:392-442 | an encoded scalar has the announced length, is legal, and its code point is recovered |
| Utf.WellFormedIsEncoded | Src/Common/StringUtils.cpp:404-408 | a well-formed character encodes exactly the code point computed for it |
| Utf.ReadCharacter | Src/Common/StringUtils.cpp:470-480 | the fall-through switch and the offset table compute the code point |
| Utf.Utf8ToRawBEUtf16 | Src/Common/StringUtils.cpp:445-510 | the loop computes the conversion character by character and stops silently at a bad one |
| Utf.ConvertsValidText | Src/Common/StringUtils.cpp:445-510 | valid UTF-8 becomes its UTF-16BE encoding, surrogate pairs included, also when something bad follows |
| Utf.OthersBecomeSpaces | Src/Common/StringUtils.cpp:482-497 | surrogates and numbers beyond Unicode are written as a space |
| Utf.BothForms | Src/Common/StringUtils.cpp:445-510 | U+1F600 is F0 9F 98 80 and D8 3D DE 00, U+20AC is E2 82 AC and 20 AC |
| Base64.LettersAreValues | Src/Common/StringUtils.cpp:703-730 | decoding a character gives a value exactly for that value's letter |
| Base64.AlphabetIs | Src/Common/StringUtils.cpp:766-776 | the letters are A to Z, a to z, 0 to 9, + and /, in this order |
| Base64.PackedAppend | Src/Common/StringUtils.cpp:740-754 | one more six-bit value completes the pending byte as its place in the group says |
| Base64.Merge | Src/Common/StringUtils.cpp:743-752 | the switch on the bit position keeps the result buffer equal to the packed bits |
| Base64.Decode | Src/Common/StringUtils.cpp:732-762 | the bytes packed from the letters before the first padding character |
| Base64.PutGroup | Src/Common/StringUtils.cpp:780-786 | the shifts give the base-64 digits of the three bytes |
| Base64.PutTail | Src/Common/StringUtils.cpp:788-803 | the remaining bytes come out padded |
| Base64.Encode | Src/Common/StringUtils.cpp:764-807 | the text of RFC 4648; the last write fills the buffer sized beforehand |
| Base64.VectorF | Src/Common/StringUtils.cpp:764-807 | f is Zg== |
| Base64.VectorFo | Src/Common/StringUtils.cpp:764-807 | fo is Zm8= |
| Base64.VectorFooba | Src/Common/StringUtils.cpp:764-807 | foo is Zm9v, fooba is Zm9vYmE= |
| Base64.DecodeEncode | Src/Common/StringUtils.cpp:732-807 | decoding undoes encoding on every byte string |
| Base64.OtherCharactersAreSkipped | Src/Common/StringUtils.cpp:738-757 | texts that differ only in characters outside the alphabet decode alike |
| Base64.PaddingEnds | Src/Common/StringUtils.cpp:738-757 | whatever follows the first padding character does not matter |
| Base64.DecodeAmongOthers | Src/Common/StringUtils.cpp:732-807 | an encoded text decodes to its bytes whatever was put between its characters |
| Log4zQueue.StepKeeps | log4z/log4z.cpp:1542-1648 | every step of every thread keeps the lock, order, view, id and count invariants |
| Log4zQueue.RunKeeps | log4z/log4z.cpp:1897-2030 | so does every run |
| Log4zQueue.FirstInFirstOut | log4z/log4z.cpp:1897-1918 | in every interleaving entries are popped in the order they were queued, none of the queued ones lost or duplicated; the rest are cache then queue |
| Log4zQueue.CountersBalance | log4z/log4z.cpp:1613-1616 | in every interleaving pushed lines equal popped lines plus queued lines, give or take a line in hand |
| Log4zQueue.GuardsNeverFire | log4z/log4z.cpp:1904-1953 | the second look under the lock never finds the queue empty, and no popped entry has a bad id |
| Log4zQueue.StepIsQueueStep | log4z/log4z.cpp:1897-1918 | cache and queue together refine one queue: each step adds at the back, removes at the front, or changes nothing |
| Log4zQueue.ExitFindsNothing | log4z/log4z.cpp:2026-2030 | when the exit test passes, both queues are empty and everything queued was popped |
| Log4zQueue.NothingIsStranded | log4z/log4z.cpp:1542-1616 | after the writer left, the queue stays empty in every continuation exactly when no thread was between its check and its push |
| Log4zQueue.LateThreadsHappen | log4z/log4z.cpp:1492-1500 | a run from the start reaches such a state |
| Log4zQueue.WriterFinishes | log4z/log4z.cpp:1943-2036 | once logging stopped, the writer alone pops everything queued, in order, and leaves |
| Log4zCalls.CallsKeepTheirOrder | log4z/log4z.cpp:1543-1616 | over every run and for each thread: the entries of its accepted calls are, in this order, those of its entries that are popped, in cache and queue, and still with it |
| Log4zCalls.NoCallIsLost | log4z/log4z.cpp:1543-1616 | over every run and for each entry: it was handed to as many accepted calls as it was popped times, is in cache and queue, and is still with threads |
| Log4zCalls.AllCallsArePopped | log4z/log4z.cpp:1936-2036 | once logging stopped and no thread is at work, the writer alone pops exactly the entries of accepted calls |
| Log4zCalls.CallFinishes | log4z/log4z.cpp:1612-1616 | a thread that finds the lock free queues its entry at the back, counts it if it is a line, and releases the lock |
| Log4zCalls.StopEndsCalls | log4z/log4z.cpp:1492-1500 | after stop, in every run no call is accepted any more |
| Log4zCalls.WriterDrains | log4z/log4z.cpp:1943-2036 | while the logger runs, too, the writer alone pops everything queued, in order, and goes on |
| Log4zCalls.LoggersAreNumbered | log4z/log4z.cpp:1465-1470 | loggers are numbered one after the other up to 19 |
| WorkerThread.StepKeeps | Src/Common/ThreadPool.cpp:11-54 | every step of every thread keeps the lock, wake-up, order and phase invariants |
| WorkerThread.TasksRunInOrder | Src/Common/ThreadPool.cpp:19-47 | in every interleaving queued tasks are taken in the order they were queued, at most once, and the counter counts the finished ones modulo 2^32 |
| WorkerThread.NoLostWakeUp | Src/Common/OSSupport/Event.cpp:14-42 | a worker blocked with a task queued or told to terminate always has someone still before its set or its notification |
| WorkerThread.TakesOnlyQueuedTasks | Src/Common/ThreadPool.cpp:23-35 | the assertion that the queue is not empty holds |
| WorkerThread.EveryScheduleEnds | Src/Common/ThreadPool.cpp:11-54 | no schedule of the threads at work goes on forever: its steps are bounded by a measure |
| WorkerThread.RestIsDone | Src/Common/ThreadPool.cpp:11-54 | where no thread can step, all queued tasks have run and the worker sleeps, or it has finished and been joined |
| WorkerThread.TerminatedRun | Src/Common/ThreadPool.cpp:23-31 | in every run after a request to terminate no task is taken any more, and the queue grows by exactly the tasks still pushed |
| WorkerThread.TerminationLeavesTasks | Src/Common/ThreadPool.cpp:11-54 | whatever the schedule, once all threads rest after a request to terminate, every task pushed has run exactly when none was queued at the request and none pushed later; the others are still in the queue |
| WorkerThread.TaskIsLeft | Src/Common/ThreadPool.cpp:11-54 | a run from the start in which the only task pushed is never run |
| WorkerTasks.TasksKeepTheirOrder | Src/Common/ThreadPool.cpp:19-54 | over every run and for each thread: the tasks it handed over are, in this order, those of its tasks that are completed, in hand, in the queue, and still with it |
| WorkerTasks.NoTaskIsLost | Src/Common/ThreadPool.cpp:19-54 | over every run and for each task: it was handed over as often as it is completed, in hand, in the queue, and still with threads |
| WorkerTasks.AllTasksAreDone | Src/Common/ThreadPool.cpp:19-54 | where no thread can step and none asked to terminate, the completed tasks are exactly those handed over |
| WorkerTasks.LeftInTheQueue | Src/Common/ThreadPool.cpp:11-54 | after a request to terminate, those handed over are the completed ones and those left in the queue |
| WorkerTasks.LockIsExclusive | Src/Common/ThreadPool.cpp:19-54 | over every run no two threads hold the lock, and the worker does not while it runs a task or sleeps |
| WorkerTasks.CallFinishes | Src/Common/ThreadPool.cpp:48-53 | a thread that finds the lock free queues its task at the back, sets the event, wakes a blocked worker, and releases the lock |
| FrameAllocator.AllocKeeps | LAVFilters/qsdecoder/base_alllocator.cpp:124-179 | an allocation keeps counts, uniqueness and the ledger of grants and blocks |
| FrameAllocator.FreeKeeps | LAVFilters/qsdecoder/base_alllocator.cpp:182-216 | so does a free |
| FrameAllocator.Ledger | LAVFilters/qsdecoder/base_alllocator.cpp:124-216 | over every run with fresh responses, a shared block's count is its grants less its frees and positive, crop sizes are unique, and a block exists exactly while listed |
| FrameAllocator.ReleasedWithTheLast | LAVFilters/qsdecoder/base_alllocator.cpp:181-216 | a free fails exactly when nothing is outstanding, and releases exactly with the last one |
| FrameAllocator.SameSizeSameFrames | LAVFilters/qsdecoder/base_allocator.h:84-114 | a second decoder request of a listed crop size gets the listed frames, or none if it needs more |
| FrameAllocator.RefusedRequests | LAVFilters/qsdecoder/base_alllocator.cpp:126-132 | a request for no frames fails for want of memory, one that names none of the four components as unsupported; nothing changes |
| FrameAllocator.PrivateAnswers | LAVFilters/qsdecoder/base_alllocator.cpp:154-179 | a request by any of the four components, not both external and from the decoder, gets the answer of AllocImpl and ends the private list; the shared one is untouched |
| FrameAllocator.NewSizeAnswers | LAVFilters/qsdecoder/base_alllocator.cpp:134-170 | an external decoder request of a size not listed gets the answer of AllocImpl and ends the shared list with count 1 |
| FrameAllocator.ListedSizeAnswers | LAVFilters/qsdecoder/base_alllocator.cpp:134-152 | one of a listed size gets the listed frames, counted once more, or fails for want of memory if it needs more |
| FrameAllocator.SharedFree | LAVFilters/qsdecoder/base_alllocator.cpp:186-203 | a shared response handed back is counted down, or released and dropped with the last |
| FrameAllocator.PrivateFree | LAVFilters/qsdecoder/base_alllocator.cpp:205-213 | a private one is released and dropped at once |
| FrameAllocator.UnknownFree | LAVFilters/qsdecoder/base_alllocator.cpp:215-216 | any other is reported as an invalid handle, and nothing changes |
| FrameAllocator.CloseReleasesAll | LAVFilters/qsdecoder/base_alllocator.cpp:218-234 | closing releases everything that exists, once |
| FrameAllocator.CloseAgain | LAVFilters/qsdecoder/base_alllocator.cpp:225-231 | closing twice balances exactly when there were no private responses |
| FrameAllocator.ReleasedTwice | LAVFilters/qsdecoder/base_alllocator.cpp:218-234 | one private response is released twice by two closes |
| FrameAllocator.BaseFrameAllocator.AllocFrames | LAVFilters/qsdecoder/base_alllocator.cpp:124-179 | status, response and lists are those of the specified outcome, and the invariant is kept |
| FrameAllocator.BaseFrameAllocator.FreeFrames | LAVFilters/qsdecoder/base_alllocator.cpp:181-216 | status and lists are those of the specified outcome, and the invariant is kept |
| FrameAllocator.BaseFrameAllocator.Close | LAVFilters/qsdecoder/base_alllocator.cpp:218-234 | every listed block is released in order; only the shared list is cleared |
| FrameAllocator.FindBlock | LAVFilters/qsdecoder/base_allocator.h:116-125 | the first block with the same first handle and frame count |
| FrameAllocator.FindCrop | LAVFilters/qsdecoder/base_allocator.h:106-110 | the first block of the crop size |
| D3D11Allocator.HandlesAreUnique | LAVFilters/qsdecoder/d3d11_allocator.cpp:338-349 | no handle is issued twice while the map lives |
| D3D11Allocator.LookupFindsIssuer | LAVFilters/qsdecoder/d3d11_allocator.cpp:70-83 | a handle leads to the request that issued it and to its own texture, staging texture and subresource, in both texture modes |
| D3D11Allocator.LookupFindsOnlyIssued | LAVFilters/qsdecoder/d3d11_allocator.cpp:70-83 | something is found exactly for the handles of allocated requests |
| D3D11Allocator.NoTwoHandlesShare | LAVFilters/qsdecoder/d3d11_allocator.h:217-228 | distinct handles never share a texture and subresource |
| D3D11Allocator.OthersKeepTheirs | LAVFilters/qsdecoder/d3d11_allocator.cpp:235-259 | a release kills the handles of its request and leaves the others' resources |
| D3D11Allocator.AnswersAreFresh | LAVFilters/qsdecoder/d3d11_allocator.cpp:338-353 | a new response is never one the base class has listed |
| D3D11Allocator.AllocationSucceeds | LAVFilters/qsdecoder/d3d11_allocator.cpp:261-361 | an allocation succeeds exactly for NV12, not as a render target in one texture of more than two frames, and when the device gives all textures; the handles are the next numbers |
| D3D11Allocator.ReleaseAnswers | LAVFilters/qsdecoder/d3d11_allocator.cpp:235-259 | a response without handle or frames is left alone, a handle of no living request is refused with -2, others give up the textures of the whole request, and with the last one the lists start anew |
| D3D11Allocator.AllocatorsTogether | LAVFilters/qsdecoder/d3d11_allocator.cpp:235-361 | over every run of both classes, listed responses exist once, others not at all, and every handle of a listed response resolves |
| D3D11Allocator.D3D11FrameAllocator.AllocImpl | LAVFilters/qsdecoder/d3d11_allocator.cpp:261-361 | the request is listed with consecutive new handles and mapped, or nothing changes and the failure is reported |
| D3D11Allocator.D3D11FrameAllocator.ReleaseResponse | LAVFilters/qsdecoder/d3d11_allocator.cpp:235-259 | the request is marked released, everything is cleared with the last one, an unknown handle is reported |
| D3D11Allocator.D3D11FrameAllocator.GetResourceFromMid | LAVFilters/qsdecoder/d3d11_allocator.cpp:70-83 | the texture, staging texture and subresource of a handle, or nothing |
| AspectRatio.GcdIsGreatest | LAVFilters/qsdecoder/QuickSyncUtils.cpp:274-305 | the result divides both numbers and every common divisor divides it |
| AspectRatio.GCD | LAVFilters/qsdecoder/QuickSyncUtils.cpp:274-305 | the loop computes it, zeros included |
| AspectRatio.OddProduct | LAVFilters/qsdecoder/QuickSyncUtils.cpp:320-326 | an odd reduced size times a nonzero ratio is never zero modulo a power of two that exceeds the ratio |
| AspectRatio.DarNotZero | LAVFilters/qsdecoder/QuickSyncUtils.cpp:319-326 | no nonzero 32-bit arguments make the last divisor of PARtoDAR zero |
| AspectRatio.ParNotZero | LAVFilters/qsdecoder/QuickSyncUtils.cpp:339-375 | no nonzero arguments make the last divisor of DARtoPAR zero, in any of its branches |
| AspectRatio.LowestIsReduced | LAVFilters/qsdecoder/QuickSyncUtils.cpp:323-326 | dividing by the greatest common divisor keeps the ratio and leaves no common divisor, one zero included |
| AspectRatio.AnswersAreReduced | LAVFilters/qsdecoder/QuickSyncUtils.cpp:307-378 | the answers of both conversions have no common divisor |
| AspectRatio.DarIsExact | LAVFilters/qsdecoder/QuickSyncUtils.cpp:319-326 | the display ratio is exactly that of frame size times pixel ratio when both 32-bit products fit |
| AspectRatio.PARtoDAR | LAVFilters/qsdecoder/QuickSyncUtils.cpp:307-329 | the 32-bit display ratio, reduced; zeros are rejected, and no division is by zero |
| AspectRatio.DARtoPAR | LAVFilters/qsdecoder/QuickSyncUtils.cpp:331-378 | the 16-bit pixel ratio by cases, reduced; zeros are rejected, and no division is by zero |
| AspectRatio.DisplayInLowestTerms | LAVFilters/qsdecoder/QuickSyncUtils.cpp:345-363 | the recognised standard ratio is the display ratio in lowest terms |
| AspectRatio.RoundTrip | LAVFilters/qsdecoder/QuickSyncUtils.cpp:307-378 | converting a standard ratio and back gives it in lowest terms exactly when both cross products fit 16 bits |
| AspectRatio.RatioIsLost | LAVFilters/qsdecoder/QuickSyncUtils.cpp:307-378 | 4:3 at 1 x 16384 is cut to a ratio that converting back rejects |
| AspectRatio.OtherRatiosPerMille | LAVFilters/qsdecoder/QuickSyncUtils.cpp:366-375 | for other ratios, where a thousand times the quotient is a whole 16-bit number, the pixel ratio times the frame size is the display ratio |
| BlockCopy.GpuMemcpySse41 | LAVFilters/qsdecoder/QuickSyncUtils.cpp:58-128 | exactly the size bytes are copied and nothing else is written, for every size and either path, by the listed stores |
| BlockCopy.CopyPairs | LAVFilters/qsdecoder/QuickSyncUtils.cpp:82-99 | the 32-byte loop copies its range, repeated stores included |
| BlockCopy.CopyTail | LAVFilters/qsdecoder/QuickSyncUtils.cpp:113-125 | of the last register only the remaining bytes are stored |
| BlockCopy.AnyOrderCopies | LAVFilters/qsdecoder/QuickSyncUtils.cpp:476-480 | stores of the right bytes, all of them, make a copy in any order and however often repeated |
| BlockCopy.GpuStoresCopy | LAVFilters/qsdecoder/QuickSyncUtils.cpp:58-128 | the stores of the register-wise copy, repeated ones included, are of the right bytes and of all of them |
| BlockCopy.HalvesMakeTheCopy | LAVFilters/qsdecoder/QuickSyncUtils.cpp:463-483 | the halves never write the same place, and together make the copy under every schedule |
| BlockCopy.GpuHalvesMakeTheCopy | LAVFilters/qsdecoder/QuickSyncUtils.cpp:463-483 | two register-wise copies of the halves at once make the copy under every schedule of their stores |
| BlockCopy.MtCopy | LAVFilters/qsdecoder/QuickSyncUtils.cpp:463-483 | with either routine and the two halves in either order, or uncut when small, a plain copy |
| NumberText.DecPair | log4z/log4z.h:710-720 | the decimal table holds the two digits of every number below 100 |
| NumberText.HexPair | log4z/log4z.h:722-738 | the hexadecimal table holds the two digits of every number below 256 |
| NumberText.PairsAreText | log4z/log4z.h:751-782 | printing two digits at a time, less one leading zero, is digit-by-digit printing |
| NumberText.Fits64 | log4z/log4z.h:740-791 | the 64 places of the local buffer suffice for every 64-bit number in every base |
| NumberText.PaddedReadsBack | log4z/log4z.h:793-797 | the padded text reads back to the number and has leading zeros only as padding |
| NumberText.DigitsAre | log4z/log4z.h:710-791 | the digits are 0 to 9 and letters from a on, capitals in base 16 alone |
| NumberText.SomeTexts | log4z/log4z.h:740-791 | 1024 in base 10, 2F in base 16 and b in base 12 are printed so |
| LogStream.FillPairs | log4z/log4z.h:751-782 | the table loop fills the buffer from its end with the number's digit pairs |
| LogStream.FillText | log4z/log4z.h:751-782 | less a leading zero, they are the number's digits |
| LogStream.FillDigits | log4z/log4z.h:783-791 | the plain loop gives the digits in any other base |
| LogStream.FormatDigits | log4z/log4z.h:740-800 | the digits padded to the width |
| LogStream.Log4zStream.WriteULongLong | log4z/log4z.h:705-802 | the padded digits are appended when more than 64 places are free, otherwise nothing is |
| LogStream.Log4zStream.WriteLongLong | log4z/log4z.h:694-703 | sign and magnitude are appended, each where it finds room |
| LogStream.Log4zStream.WriteChar | log4z/log4z.h:895-903 | the character is appended unless one place or none is left |
| LogStream.Log4zStream.WriteString | log4z/log4z.h:905-918 | as much of the text as fits is appended |
| LogStream.WholeNumberWritten | log4z/log4z.h:694-802 | the whole number appears exactly when more than 64 places are free besides the sign's; otherwise only a sign or nothing does |
| LogStream.SignAlone | log4z/log4z.h:694-703 | -1 with 65 places free is written as a sign |
| LogStream.SignedReadsBack | log4z/log4z.h:694-802 | a whole number printed at any width up to 64 in any base from 2 to 16 reads back as itself |
| IntegerParsing.ParsePositive | Include/StringUtils.h:141-161 | accepts exactly digits whose value fits; no operation overflows on the way |
| IntegerParsing.ParseNegative | Include/StringUtils.h:162-188 | the same counting downwards, reaching the least value |
| IntegerParsing.StringToInteger | Include/StringUtils.h:126-191 | accepts exactly an optional sign, minus only if signed, then digits in range; otherwise the variable is left alone |
| IntegerParsing.PrintedIsParsed | Include/StringUtils.h:126-191 | what the log stream prints in base 10 is parsed back to the number |
| IntegerParsing.NoDigitsMeansZero | Include/StringUtils.h:126-191 | an empty text or a lone sign means zero |
| IntegerParsing.SignsMean | Include/StringUtils.h:126-191 | a plus sign does not matter, a minus sign negates, for signed types only, down to one more than the maximum |
| IniText.ReadComment | Src/Server/IniFile.cpp:144-155 | a printed comment line adds its comment to the header or the current section |
| IniText.ReadSectionName | Src/Server/IniFile.cpp:123-134 | a printed section line opens a section of that name, closing brackets in it included |
| IniText.ReadValue | Src/Server/IniFile.cpp:136-142 | a printed value line adds its name and value to the current section |
| IniText.ReadSection | Src/Server/IniFile.cpp:78-158 | a printed section is started at the end, and its contents go to the first section of its name |
| IniText.PrintedReadsBack | Src/Server/IniFile.cpp:76-219 | every writable document reads back as its sections added one after the other, with either line end |
| IniText.WritableThenRead | Src/Server/IniFile.cpp:76-219 | that is the document itself exactly when every section with contents is the first of its name |
| IniText.SectionsAreMerged | Src/Server/IniFile.cpp:123-142 | two sections of one name come back as the first with the contents of both and the second empty |
| IniText.ReadMarkedValue | Src/Server/IniFile.cpp:110-157 | a printed value whose name holds a mark is split there, or read as a comment, or as a section named up to the last closing bracket if there is one, or refuses the file |
| IniText.ReadKeepsNames | Src/Server/IniFile.cpp:78-158 | whatever is read has value names that can be written |
| IniText.ReadKeepsFirsts | Src/Server/IniFile.cpp:78-158 | whatever is read has contents only in the first section of each name |
| IniText.FindName | Src/Server/IniFile.cpp:221-232 | the first section whose name matches, ignoring case when asked to |
| IniText.NamesFoldAlike | Src/Server/IniFile.cpp:667-680 | two names match exactly if they are equal, up to the case of A to Z when asked to ignore it |
| IniText.ReadHash | Src/Server/IniFile.cpp:144-155 | a comment may start with # as well |
| IniText.ReadOther | Src/Server/IniFile.cpp:108-119 | a line without a mark changes nothing; one that starts with a character outside 32 to 126 ends the reading |
| IniText.WithoutSection | Src/Server/IniFile.cpp:309-319 | a value read outside every section starts one for it; a comment to a section that is not there is dropped |
| IniText.MarkIsDropped | Src/Server/IniFile.cpp:682-701 | a byte order mark in front of the file is not part of it |
| IniText.PrintedLines | Src/Server/IniFile.cpp:187-215 | the lines printed of a document with one of everything |
| IniRoundTrip.HandleGain | Src/Server/IniFile.cpp:93-157 | no line adds more weight to the document than its own text accounts for |
| IniRoundTrip.PrintedWeighsLess | Src/Server/IniFile.cpp:76-219 | what is read back never weighs more than the document printed, and less if anything in it is not writable |
| IniRoundTrip.PrintThenRead | Src/Server/IniFile.cpp:76-219 | any document comes back from what is printed, comments, sections and values in order, exactly when it is writable and every section with contents is the first of its name |
| IniRoundTrip.MarkedNameIsLost | Src/Server/IniFile.cpp:76-219 | a value named a;b comes back as a comment |
| IniRoundTrip.ReturnIsLost | Src/Server/IniFile.cpp:76-219 | a comment ending in a carriage return loses it when lines end bare |
| IniRoundTrip.RewritingIsStable | Src/Server/IniFile.cpp:76-219 | whatever has been read comes back unchanged if written with carriage returns, and with bare line ends exactly if no text ends in one |
| IniFile.FileRoundTrip | Src/Server/IniFile.cpp:76-219 | through the text of the file the document comes back under the same condition and if no text in it holds a newline, and only then |
| IniFile.LinesOfAFile | Src/Server/IniFile.cpp:78-83 | every line ends with a newline, and nothing else separates lines |
| IniFile.File.FindKey | Src/Server/IniFile.cpp:221-232 | the position of the first matching section, or the no-such-section id |
| IniFile.File.AddKeyName | Src/Server/IniFile.cpp:252-257 | an empty section is added at the end |
| IniFile.File.AddValue | Src/Server/IniFile.cpp:309-319 | the value is added to the first matching section, created if there is none |
| IniFile.File.AddHeaderComment | Src/Server/IniFile.cpp:541-545 | the comment is added to the header |
| IniFile.File.AddKeyComment | Src/Server/IniFile.cpp:596-604 | the comment is added to the first matching section, if any |
| IniFile.File.ReadLine | Src/Server/IniFile.cpp:93-157 | one line changes the document as the line's meaning says |
| IniFile.File.ReadFile | Src/Server/IniFile.cpp:76-172 | the document after all lines; success exactly when no line looks binary and the document is not empty |
| IniFile.File.WriteFile | Src/Server/IniFile.cpp:175-219 | the lines printed are those of the document |

## Left out

- NaluIterator.Iterator.constructor: start-code mode is modelled for an empty buffer or at least four bytes; for one to three bytes the scanner reads past the buffer. Sizes are unbounded naturals, not 64-bit.
- FrameConstructor.Constructor.ConstructFrame: frame sizes below 2^32 only; DVD packet stripping, time stamps and media samples as COM objects are not modelled.
- AvcRuns: what is emitted after a fragment has been lost, when units are cut from the middle of others; empty samples, which change nothing.
- AvcFrameConstructor.AvcConstructor.ConstructFrame: time stamps, and start-code buffers of one to three bytes, as for the iterator.
- AvcFrameConstructor.AvcConstructor.Decode: start-code buffers of one to three bytes, as for the iterator.
- AvcFrameConstructor.AvcConstructor: inheritance from the base constructor is modelled by containment; the sequence-header construction and the VC-1 constructor are not modelled.
- Md5.DigestOfChunks: chunks longer than 2^32 - 64 bytes, as for Update.
- Md5.Context.Update: inputs longer than 2^32 - 64 bytes, for which the 32-bit loop index wraps; the stream and string overloads, the hexadecimal form.
- ByteBuffer.Buffer.ReadVarInt: the value of an encoding so long that the shift reaches the integer width, which is undefined.
- ByteBuffer.Buffer.ReadToByteBuffer: a transfer from a buffer to itself.
- ByteBuffer.Buffer.ReadVarUTF8String: encodings of the length longer than ten bytes; the log message for long strings.
- ByteBuffer.Buffer.WriteBE: the signed variants, which reinterpret the same bytes.
- ByteBuffer.Buffer.ReadBE: the signed variants, likewise.
- ByteBuffer: floating-point, boolean and little-endian codecs and UTF-16 strings, which only wrap the byte operations.
- Bit operations on disjoint bits are written as sums and products; network byte order as big-endian digits.
- Utf: UTF-16 to UTF-8 conversion, case mapping, splitting and trimming, URL decoding, hex dumps.
- Log4zQueue: filters by level and the settings themselves (a filtered entry is simply not queued), file output, synchronous output, back-pressure by sleeping, restarting after a stop; counters are unbounded, and reads of the queue without the lock are single steps although the program has a data race there. The lines that the writer thread logs at its start count as those of a logging thread.
- WorkerThread: starting the thread, exceptions and task destruction; a pool picks a worker at random, so its workers are independent.
- FrameAllocator.BaseFrameAllocator.AllocFrames: reference counts are unbounded instead of 32-bit; null arguments are not modelled.
- FrameAllocator.BaseFrameAllocator.FreeFrames: a response is a value with its first handle, so reading a freed handle list through a stale response is not modelled.
- D3D11Allocator.D3D11FrameAllocator.AllocImpl: texture descriptions; textures created before a failure are not tracked further, and the program does not release them. The stricter request check for video memory, mapping for the CPU and read-write handle flags are left out, as is Close.
- AspectRatio.DARtoPAR: the floating-point quotient for other ratios is an input, as the 16-bit number it is converted to; where the quotient does not fit 16 bits, as for 100:1 at 1 x 1, that conversion is undefined in the program.
- LogStream.Log4zStream.WriteULongLong: widths above 64, for which the padding loop would leave its buffer; bases outside 2 to 16; floating-point, pointer and binary output.
- LogStream.Log4zStream.WriteLongLong: the negation of the least number is undefined in the program and taken as its magnitude here; widths and bases as for WriteULongLong.
- LogStream.SignedReadsBack: widths and bases as for WriteULongLong.
- LogStream.FormatDigits: widths and bases as for WriteULongLong.
- LogStream.FillPairs: the two table loops, which differ in table and base, are one method with the base as argument.
- D3D11Allocator.D3D11FrameAllocator.GetResourceFromMid: handles that carry read-write flags.
- IniFile.File.WriteFile: opening the file and its failure.
- IniFile.File.ReadFile: opening files, the example file fallback, and typed getters and setters; characters are single bytes.
- BlockCopy.GpuMemcpySse41: null pointers and memory ordering instructions; the last register is loaded beyond the source range, up to the next multiple of 16, so that much of the source must be readable.
- BlockCopy.MtCopy: the halves run one after the other here, and under any schedule of byte stores in GpuHalvesMakeTheCopy; the AVX2 routine is not modelled.
- The inverse-telecine time manager, the two-event queue, sockets, settings repositories, Direct3D and Media SDK calls, and everything else that is I/O or configuration.
