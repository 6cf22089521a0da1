# Verified model of the scale and label-printing edge service

This project models the algorithms and protocols of the edge service that reads a serial scale,
decides when a weight is stable, builds labels and drives a label printer, and proves what they
promise over every input and every run. `dafny verify dfyconfig.toml` checks all of it.

## The parts

**From serial text to a stable weight.** `ScaleFrame`, `ScaleParser`, `ScaleWeight`, `ScaleStream`
and `ScaleChunking` follow the text from the serial port to readings: the framer with its bounded
buffer, the weight pattern as a greedy scanner proved equal to leftmost-first backtracking, the
ranked choice among its matches, the stateful decoder, and what cutting the stream into chunks can
change. `ScaleSim` models the simulator that writes such text and proves that the decoder undoes
it over whole runs; `ScaleSigns` reads the sign and weight of every match, and the stability marker of
every frame, off their characters; `StableTracker` decides when a weight has been held;
`ScalePipeline` joins the three: every sample is answered with its weight and the state it asks for,
a Ready verdict comes from samples that were really held, and held samples become Ready.

**Codes.** `Epc` models the code generator with 32-bit words as bit sequences, states exactly when
codes repeat, and proves that the normaliser accepts what the generator prints.

**Pictures.** `Bitmap`, `Bmp` and `Qr` take a QR symbol's modules through drawing, ink cropping and
the one-bit BMP file, and read the symbol back from the bytes, each pixel through the file's colour
table. A byte here is a number below 256.

**Label text.** `Wrap` models the two-pass word wrapper and proves its lines optimal in characters;
`WrapDots` proves the same in printer dots, from the wrapper's arguments alone.

**Printing.** `PrintActivity` models one print request and the busy guard as code; `PrintExclusion`
the same as a state machine whose steps are those of concurrent handlers, interleaved in any order.
`Godex` models the printer dialogue over a transport that may fail at any call, and the device's
reading of what it was sent; `GodexWire` spells out the bytes of a whole run and the part of it that
an error names; `GodexDelivery` models calls that deliver only part of their bytes.
`PrintDevice` joins handlers and device: in every interleaving the device holds one job's bytes
after another's.

**Codecs.** `HttpFraming` reads a request in pieces of any size, and `HttpMessage` proves that a
request as a client writes it, its lines ended by CR LF or by LF alone and its length written in any
way the reader takes, comes out whole; `ScanPayload` escapes and decodes
the text behind the QR code, `TxtRecord` encodes the service announcement. In these modules, in
`Godex` and in the scale modules a character stands for one byte.

`Text` holds what the modules share: characters, digits, and two small schemes, a search for the
first hit and a stateful step folded over a list.

Code that changes state in the repository is a class or a method with loops here, proved against a
specification function; the theorems are lemmas about those functions. Clocks, randomness and
devices are parameters: a time is an argument, a salt a constructor argument, a device an
append-only text, and whether a call succeeds is left open.

## What the code does that its documentation or a standard does not say

- A frame without a unit: the scale contract gives both the default unit and the last parsed unit
  as the fallback (docs/scale_contract.md, lines 146 and 176). The code uses the default whenever
  it is not blank, and overwrites the last unit with it (`ScaleChunking.UnitlessFrame`).
- The number of readings depends on where chunks are cut: a chunk that opens with CR or LF while
  nothing is pending adds a zero weight once a weight has been seen. `ReadingsIgnoreChunking`
  states exactly when the output is independent of the cuts.
- When more than 1024 characters are pending, the line that was cut is read from the cut on, so a
  weight may lose its leading digits; every later line is read as in the whole stream
  (`ScaleStream.OverflowReads`).
- "lbs" is reported as "lb", because "lb" is tried first (`ScaleSim.LbsIsNeverReported`). A minus
  sign belongs to the number before it even when a blank and another number follow
  (`ScaleSigns.SignBelongsToNumberBefore`), and a letter N before a number makes it negative
  (`ScaleSigns.LetterNegates`).
- A negative tolerance means no weight is ever Ready (`StableTracker.NegativeToleranceNeverReady`).
- EPC codes of a run whose clock readings lie within 2^56 ns and that does not open at zero are all
  distinct exactly when the clock never stands still for more than 2^25 calls and never returns to a
  moment it has left (`Epc.UniqueIffNoReturn`); stepping back to a new moment repeats nothing. A run
  that opens at zero, which the generator takes for its last moment, may in addition come back there
  for a single call, if the opening had fewer than 2^25 calls (`Epc.UniqueIff`).
- The wrapper never ends on a non-empty text when its width is zero (`Wrap.ChoppingEndsIff`).
- When a GoDEX run answers Ok, what is on the device reads back as the calls that arrived whole
  exactly when no print command itself looks like an announcement and every failed delete had put
  nothing on the device or its whole line (`GodexDelivery.DeviceReadsBackIff`). A delete's failure is
  ignored, so a torn one runs into the announcement behind it (`GodexDelivery.TornDeleteHappens`).
- `percent_decode` takes a plus sign for a hexadecimal digit's sign: "%+F" is one byte. It agrees
  with section 2.1 of RFC 3986 on exactly the texts without such a group
  (`ScanPayload.DecodesAsStandardIff`).
- Behind a head whose lines end with LF alone, the body handed on is the one written exactly when it
  holds no CR LF CR LF; otherwise only what follows the first of these (`HttpMessage.LfBodyReadsBackIff`).
  A length that is no number counts as none, even when a good one follows
  (`HttpMessage.BadLengthMeansNoBody`).
- Bytes read past one HTTP message depend on the sizes of the reads
  (`HttpFraming.ReadSizesDoNotMatterIff`).
- The TXT encoder accepts keys that section 6.4 of RFC 6763 does not: empty ones, control characters
  and DEL (`TxtRecord.ForbiddenKeysEncode`, and `TxtRecord.KeysAreStandardIff` for all lists). A
  reader of the standard gets the properties back exactly when every key is there and no two are the
  same but for case (`TxtRecord.StandardReadsBackIff`).

## Model

| member | source | states |
|---|---|---|
| ScaleFrame.PopSplits | src/scale/frame.rs:1-15 | the frame is what stands before the first CR or LF, the rest what follows the whole run of them: the only such reading of the buffer |
| ScaleFrame.PopSerialFrame | src/scale/frame.rs:1-15 | the two loops compute that split, and give nothing exactly when there is no delimiter |
| ScaleFrame.AppendRaw | src/scale/frame.rs:17-23 | the buffer never passes its limit, nothing is lost exactly when the sum fits, and otherwise the last `max` characters of the sum are kept |
| ScaleFrame.DrainIsLines | src/scale/stream.rs:37-42 | draining a buffer gives the stream's non-empty lines, as read one character at a time, with one zero-length frame in front exactly when the chunk opens with a delimiter and nothing is pending |
| ScaleParser.MatchAtTakesAll | src/scale/parser.rs:4-7 | the scanner's match is a reading of the pattern in which every part takes all it can |
| ScaleParser.MatchAtIsFirstTried | src/scale/parser.rs:4-7 | wherever the pattern can be read at all, the scanner without backtracking finds a match, and no reading comes before it in a backtracking matcher's order |
| ScaleParser.GreedyMatchIsUnique | src/scale/parser.rs:4-7 | there is only one greedy reading at a place, the scanner's |
| ScaleParser.NextMatchIsLeftmost | src/scale/parser.rs:37 | a search finds the leftmost place where a match starts |
| ScaleParser.Matches | src/scale/parser.rs:37 | the matches of a frame are non-empty, ordered and disjoint, and the scan ends |
| ScaleParser.EveryDigitIsInAMatch | src/scale/parser.rs:37 | no digit of a frame is skipped by the scan |
| ScaleWeight.NormalizeMinus | src/scale/parser.rs:179-181 | the three Unicode dashes become minus signs and nothing else changes |
| ScaleWeight.ParseWeight | src/scale/parser.rs:33-92 | the loop over matches gives the best in-range candidate with the frame's stability flag |
| ScaleWeight.BestBeatsTheRest | src/scale/parser.rs:109-134 | the winner of the scored fold beats every other candidate in the order: minus sign, unit, plus sign, later start |
| ScaleWeight.CandidatesFromFrame | src/scale/parser.rs:47-75 | candidates are in range, carry consistent sign flags and stand at increasing places |
| ScaleWeight.ParseMeaning | src/scale/parser.rs:33-92 | no weight exactly when no candidate is in range; else the one that beats all others, within one million, and never positive when any candidate has a minus sign |
| ScaleSigns.SignOfMatch | src/scale/parser.rs:47-52 | for every match: negative exactly when '-', 'N' or 'n' stands before the number or '-' behind it, positive exactly when not negative and '+' stands on a side; the weight is minus or plus the number accordingly |
| ScaleSigns.NumberIs | src/scale/parser.rs:48 | the number is its whole part plus its fraction, a decimal place for each digit of it |
| ScaleStream.SerialStreamDecoder.constructor | src/scale/stream.rs:17-31 | starts with nothing pending and the default unit in lower case, kilograms when blank |
| ScaleStream.SerialStreamDecoder.FrameToReading | src/scale/stream.rs:47-72 | one frame's reading and the new last unit and seen flag, blank and unparsable frames included |
| ScaleStream.SerialStreamDecoder.PushChunk | src/scale/stream.rs:33-45 | after every push at most 1024 characters without a delimiter are pending, and the readings and memory are those of the buffer's frames in order |
| ScaleStream.PushAll | src/scale/stream.rs:33-45 | pushing chunk after chunk decodes the frames of the whole run |
| ScaleStream.ReadingsAppend | src/scale/stream.rs:37-42 | decoding two lists of frames one after the other is decoding their concatenation |
| ScaleStream.FramesIgnoreChunking | src/scale/stream.rs:33-45 | however a stream is cut into chunks that fit, its non-empty frames and unread text are those of the uncut stream; only zero-length frames vary, and they are counted exactly |
| ScaleStream.MemoryIs | src/scale/stream.rs:60-63 | after any frames the last unit is that of the last frame with a weight and a unit, and a weight was seen exactly when some frame had one |
| ScaleStream.ReadingOverHistory | src/scale/stream.rs:47-72 | the reading of each frame told by the frames before it: nothing or a zero for a blank one, the text alone without a weight, else its weight, flag and text with the last unit |
| ScaleStream.OverflowReads | src/scale/stream.rs:33-42 | when text overflows the buffer, the line that was cut keeps only what follows the cut, and every later line and the unread text are as in the whole stream |
| ScaleStream.OverflowWaits | src/scale/stream.rs:33-42 | when the kept text has no line end nothing is read and all of it stays pending |
| ScaleChunking.ReadingsIgnoreChunking | src/scale/stream.rs:33-68 | any cutting leaves the same memory and the same readings for frames of non-zero length; the whole output is the same exactly when no chunk opens with a delimiter on an empty buffer after a weight was seen |
| ScaleChunking.SplitCrLfAddsZero | src/scale/stream.rs:49-54 | cutting a CR LF pair in two adds a zero weight, for every line |
| ScaleChunking.ShortLinesFit | src/scale/serial/reader.rs:99-106 | chunks fit the buffer whenever lines leave room for them |
| ScaleChunking.FramesAreLines | src/scale/stream.rs:33-45 | without blank lines the frames are the lines under every chunking |
| ScaleChunking.UnitlessFrame | src/scale/stream.rs:60-62 | a frame without a unit keeps the last unit exactly when the default is blank or equal to it |
| ScaleSigns.BareNumberIsUnitless | src/scale/parser.rs:61-65 | every number alone is a frame without a unit, read as its value |
| ScaleSigns.LetterNegates | src/scale/parser.rs:144-150 | a letter N before a number, in either case, makes it negative |
| ScaleSigns.PlusBeforeKeeps | src/scale/parser.rs:144-151 | a plus sign before any number leaves it as it is |
| ScaleSigns.SignBehindNumber | src/scale/parser.rs:144-151 | a sign behind any number: minus negates it, plus leaves it as it is |
| ScaleSigns.UnstableMarkerWins | src/scale/parser.rs:79-80 | US or UNSTABLE as a word, in any case and wherever it stands, says unstable, whatever else is there |
| ScaleSigns.StableMarkerCounts | src/scale/parser.rs:81-82 | ST or STABLE as a word, in any case, says stable where no letter U stands around it |
| ScaleSigns.NoMarker | src/scale/parser.rs:83-84 | a text without S and U says nothing |
| ScaleSigns.MarkerInsideWord | src/scale/parser.rs:9-13 | a text of letters, digits and underscores alone says something only when it is itself a marker |
| ScaleSigns.SignBelongsToNumberBefore | src/scale/parser.rs:5 | a minus sign between two numbers belongs to the first, which is chosen |
| ScaleSim.BodyParses | src/bin/rp-scale-sim-scale.rs:316-319 | a printed frame parses to its weight, unit and flag exactly when the weight is within one million, and to nothing otherwise |
| ScaleSim.FrameSpelled | src/bin/rp-scale-sim-scale.rs:316-319 | the printed frame, character by character: sign, whole part, point, three decimals, blank, unit, blank, marker, CR |
| ScaleSim.LbsIsNeverReported | src/scale/parser.rs:5 | the unit list's "lbs" is never chosen |
| ScaleSim.SimulatorRoundTrip | src/bin/rp-scale-sim-scale.rs:316-319 | whatever the decoder remembers and however the text is cut into chunks that fit the buffer, it gives one reading per sample, in order, with the same weight, unit and flag |
| ScaleSim.SmallChunksFit | src/scale/stream.rs:34 | chunks of up to 1004 characters always fit |
| ScaleSim.ExpansionAt | src/bin/rp-scale-sim-scale.rs:146-155 | the copies of a sample stand together after those of the samples before it |
| ScaleSim.SampleSequencer.constructor | src/bin/rp-scale-sim-scale.rs:130-136 | starts at the first place of the samples' expansion |
| ScaleSim.SampleSequencer.Next | src/bin/rp-scale-sim-scale.rs:138-156 | gives the sample at its place in the expansion and moves to the next, wrapping at the end; a fixed sample when there is none |
| ScaleSim.SampleSequencer.Take | src/bin/rp-scale-sim-scale.rs:138-156 | any number of calls reads on through the endless repetition of the expansion |
| ScaleSim.EndlessIsCyclic | src/bin/rp-scale-sim-scale.rs:152-154 | call i from the start gives the expansion's entry i modulo its length |
| StableTracker.StableTracker.constructor | src/scale/stable.rs:47-61 | starts with nothing held |
| StableTracker.StableTracker.Apply | src/scale/stable.rs:63-92 | one reading's verdict, snapshot and new hold; which of Error, NoWeight, Moving and the two stable states it is, told by the reading, and the weight shown |
| StableTracker.StableTracker.Reset | src/scale/stable.rs:98-108 | drops the hold and reports the given state |
| StableTracker.StableTracker.Snap | src/scale/stable.rs:110-125 | the returned snapshot is the stored one and the hold is untouched |
| StableTracker.ApplyAll | src/scale/stable.rs:63-92 | a fresh tracker applied to reading after reading answers each as the history up to it determines |
| StableTracker.AnswerOverHistory | src/scale/stable.rs:63-125 | every field of every answer over a whole history: Error when there is one, else NoWeight, else Moving, else Ready or Holding as the anchor has lasted; the weight unless there is none or an error, the anchor's time, the unit and the time of the reading |
| StableTracker.HeldIsAnchored | src/scale/stable.rs:63-92 | what the tracker holds after any history is the weight and time of the anchor the history alone determines |
| StableTracker.ReadyIffHeld | src/scale/stable.rs:84-91 | Ready exactly when the hold began at an earlier reading and has lasted the hold time |
| StableTracker.ReadyIsSound | src/scale/stable.rs:63-92 | behind every Ready all readings since some earlier one were stable, free of errors and close to it for the hold time, so any two differ by at most twice the tolerance |
| StableTracker.SameWeightBecomesReady | src/scale/stable.rs:63-92 | from any hold that began no later than the first of them, two or more equal stable readings spanning the hold time end in Ready |
| StableTracker.ReachableIsHeldBy | src/scale/stable.rs:63-92 | on a clock that does not go back, every history leaves such a hold |
| StableTracker.HeldWeightBecomesReady | src/scale/stable.rs:63-92 | after any history at all, two or more equal stable readings spanning the hold time end in Ready, as long as the clock does not go back |
| StableTracker.NegativeToleranceNeverReady | src/scale/stable.rs:127-132 | no reading is Ready under a negative tolerance |
| StableTracker.WindowReanchorsAtMostOnce | src/scale/stable.rs:76-80 | a window of weights pairwise within tolerance changes the held weight at most once |
| ScalePipeline.ReadyComesFromSamples | src/scale/stable.rs:63-92 | simulator, decoder and tracker together: a Ready verdict implies stable samples within tolerance for the hold time, under every chunking |
| ScalePipeline.HeldSamplesBecomeReady | src/scale/stable.rs:63-92 | a stable sample repeated over the hold time ends in Ready, whatever the decoder remembers and whatever the tracker has seen before |
| ScalePipeline.EverySampleIsAnswered | src/scale/stable.rs:63-92 | simulator, decoder and tracker, sample by sample: an unstable one is answered Moving and a stable one Holding or Ready, each with its weight and unit |
| Epc.EpcReadsBack | src/print/epc.rs:56-62 | a code is 24 upper-case hexadecimal digits after "30" from which the clock modulo 2^56 and the tail read back |
| Epc.EpcEqualIff | src/print/epc.rs:56-62 | two codes agree exactly when clock modulo 2^56 and tail agree |
| Epc.TailBit | src/print/epc.rs:57-60 | every bit of the tail told by arithmetic on the microseconds, the clock, the sequence number and the salt; the lowest is one |
| Epc.TailsAgreeIff | src/print/epc.rs:59-60 | at one moment the tail tells every bit of the sequence number but bit 25 |
| Epc.SameMomentCollision | src/print/epc.rs:56-62 | at one moment two sequence numbers collide exactly when equal or 2^25 apart by that one bit |
| Epc.EpcGenerator.constructor | src/print/epc.rs:24-32 | starts at time zero, count zero, with an odd salt |
| Epc.EpcGenerator.NextAtUnixNs | src/print/epc.rs:38-47 | a new moment restarts the sequence, the same one advances it modulo 2^32 |
| Epc.EpcGenerator.Issue | src/print/epc.rs:38-47 | a run of calls issues the codes the clock readings alone determine |
| Epc.CountsCalls | src/print/epc.rs:40-45 | while the clock stands still the sequence number counts the calls modulo 2^32 |
| Epc.UniqueIff | src/print/epc.rs:24-62 | on any clock whose readings lie within 2^56 ns, all codes are distinct exactly when the clock never stands still for more than 2^25 calls and never returns to a moment it left, but for one call back at an opening zero |
| Epc.UniqueIffNoReturn | src/print/epc.rs:38-62 | for a run that does not open at zero, exactly when there is no such standstill and no return at all |
| Epc.UniqueIffNoMomentOverused | src/print/epc.rs:38-62 | on a clock that never goes back, exactly when no moment is asked for more than 2^25 codes |
| Epc.LongStretchRepeats | src/print/epc.rs:38-62 | more than 2^25 calls at one moment repeat a code, whatever the clock does elsewhere |
| Epc.ReturnRepeats | src/print/epc.rs:40-43 | a return that repeats no code is a single call back at an opening zero of fewer than 2^25 calls |
| Epc.ClockSteppingBackRepeats | src/print/epc.rs:40-43 | the smallest repeating run: a moment other than zero, another, and the first again |
| Epc.ClockSteppingBackMaySpare | src/print/epc.rs:24-43 | two runs whose clock steps back and whose codes are distinct |
| Epc.AcceptedUnchanged | src/print/zebra/epc.rs:1-24 | a text is accepted as it is exactly when it is upper-case hexadecimal of whole 16-bit words, 8 to 64 digits |
| Epc.NormalizeIsIdempotent | src/print/zebra/epc.rs:1-24 | normalising an accepted text twice is normalising it once |
| Epc.GeneratedIsAccepted | src/print/zebra/epc.rs:1-24 | every generated code is accepted unchanged |
| Epc.WrittenIsCleaned | src/print/zebra/epc.rs:2-6 | a code in either case, with 0x, 0X or neither in front, blanks or dashes between its digits and white space around it, is cleaned to its upper-case digits |
| Epc.WrittenIsNormalized | src/print/zebra/epc.rs:1-24 | what such a code is answered with, every error included, by the number of its digits alone |
| Epc.OtherCharacterIsRefused | src/print/zebra/epc.rs:11-13 | a code with any other character left is answered with that error |
| Bitmap.MonoBitmap.Filled | src/print/godex/bmp.rs:13-19 | a picture of one colour |
| Bitmap.MonoBitmap.CopyOf | src/print/godex/bmp.rs:53-55 | a copy with its own buffer |
| Bitmap.MonoBitmap.SetLight | src/print/godex/bmp.rs:29-34 | changes that pixel and no other, and nothing outside the picture |
| Bitmap.MonoBitmap.IsLight | src/print/godex/bmp.rs:67-69 | the pixel of the picture the flat buffer stands for |
| Bitmap.MonoBitmap.FindInk | src/print/godex/bmp.rs:37-55 | the scan finds the tight box of the ink, and finds one exactly when there is ink |
| Bitmap.MonoBitmap.CopyBox | src/print/godex/bmp.rs:58-64 | copies exactly the box |
| Bitmap.MonoBitmap.CropInk | src/print/godex/bmp.rs:36-65 | the tight ink box widened by a column on each side where there is one; an inkless picture unchanged |
| Bitmap.InkBoxIsUnique | src/print/godex/bmp.rs:42-52 | a picture has one tight ink box |
| Bitmap.CropIsUnique | src/print/godex/bmp.rs:36-65 | cropping has one possible result |
| Bitmap.CropKeepsInk | src/print/godex/bmp.rs:36-65 | every drop of ink survives, moved by the corner cut away, and no other ink appears |
| Bitmap.CropTwice | src/print/godex/bmp.rs:36-65 | cropping twice is cropping once |
| Bitmap.CropMargins | src/print/godex/bmp.rs:57-65 | the cropped picture begins and ends with a row of ink, and has one light column beside the ink on each side where the source had a column there |
| Bmp.PackRow | src/print/godex/bmp.rs:101-106 | one row's bytes hold its pixels from the left, top bit first, zeros after them |
| Bmp.EncodeMonoBmp | src/print/godex/bmp.rs:72-110 | the file is the header, the colour table and the packed rows from the bottom up |
| Bmp.FileLength | src/print/godex/bmp.rs:73-76 | the file has 62 + 4 ceil(w/32) h bytes |
| Bmp.HeaderReadsBack | src/print/godex/bmp.rs:79-98 | below the 32-bit limits the magic, file size, data offset, header size, planes, depth and data size read back from the header |
| Bmp.SizesReadBack | src/print/godex/bmp.rs:86-87 | width and height read back from the header |
| Bmp.OtherFieldsReadBack | src/print/godex/bmp.rs:81-95 | compression, reserved words and resolution read back as zero, both colour counts as two |
| Bmp.LittleEndian | src/print/godex/bmp.rs:112-122 | what reading a field means, byte by byte |
| Bmp.ColourTable | src/print/godex/bmp.rs:97-98 | the table at bytes 54 to 61 is black, then white |
| Bmp.ColourShown | src/print/godex/bmp.rs:97-108 | a reader that looks each pixel's bit up in the colour table sees white exactly where the pixel is light, and black elsewhere |
| Bmp.PixelBit | src/print/godex/bmp.rs:100-108 | pixel (x, y) is light exactly when bit 7 - x mod 8 of byte 62 + (h-1-y) row_bytes + x/8 is set |
| Bmp.PaddingIsClear | src/print/godex/bmp.rs:101 | bits past the width are zero |
| Bmp.DecodeInvertsEncode | src/print/godex/bmp.rs:72-110 | a reader of sizes, bits and the colour table recovers the picture from the bytes |
| Bmp.EncodingIsInjective | src/print/godex/bmp.rs:72-110 | equal files exactly when equal pictures |
| Qr.FillSquare | src/print/godex/qr.rs:29-35 | inks the dots of one module's square inside the picture and no others |
| Qr.DrawMatrix | src/print/godex/qr.rs:15-37 | a dot is ink exactly when the module it falls in exists and is dark |
| Qr.ScaleAndCentre | src/print/godex/qr.rs:18-21 | in a box of at least the module count a module takes the most dots that fit, and the space left before and behind the drawing differs by at most one dot; in a smaller box one dot from the edge |
| Qr.ScaleIsUnique | src/print/godex/qr.rs:19 | there is only one such number of dots |
| Qr.ScaledIsLaidOut | src/print/godex/qr.rs:18-21 | any scale and margin with these properties are the ones drawn with |
| Qr.ModuleIsSquare | src/print/godex/qr.rs:24-37 | every module of the picture is a square of the most dots that fit, all ink or all light as the module is dark or not, told from the box alone |
| Qr.InkIsInSquares | src/print/godex/qr.rs:24-37 | there is no ink but in the squares of dark modules |
| Qr.SmallBoxPicture | src/print/godex/qr.rs:19-37 | in a box too small for the quiet zones a module is the one dot four places in |
| Qr.RenderQrGraphic | src/print/godex/qr.rs:5-40 | the three errors in their order, otherwise the BMP file of that picture |
| Qr.ClippedIff | src/print/godex/qr.rs:19-21 | no module is clipped exactly when the box has room for the modules and one quiet zone |
| Qr.QuietZone | src/print/godex/qr.rs:17-21 | in a box of at least the module count, four modules' width on every side stays light (section 6.3.8 of ISO/IEC 18004:2015) |
| Qr.MatrixRecovered | src/print/godex/qr.rs:15-39 | sampling the file's decoded picture recovers the whole module matrix |
| Wrap.WordsOfJoin | src/print/godex/text.rs:6 | splitting a joined line at white space gives its words back |
| Wrap.SanitizedIsClean | src/print/godex/text.rs:3-7 | clean text has no CR, LF, caret or tilde, and cleaning it again changes nothing |
| Wrap.WrapWordsByCharCount | src/print/godex/wrap.rs:23-59 | the loop over words gives the specified lines, long words kept or cut |
| Wrap.PlaceWord | src/print/godex/wrap.rs:27-49 | one turn of the loop: the word joins the line, starts the next, or is cut |
| Wrap.Chop | src/print/godex/wrap.rs:44-49 | cuts a long word into full pieces and a remainder |
| Wrap.WrapTextForEzpl | src/print/godex/wrap.rs:3-21 | the lines are the first pass's when every word fits, else the second's; no line is longer than the width |
| Wrap.FirstPassIsGreedy | src/print/godex/wrap.rs:27-43 | the first pass's lines are the greedy groups of the words |
| Wrap.FirstPassFitsIff | src/print/godex/wrap.rs:16-19 | the first pass keeps within the width exactly when every word does |
| Wrap.SecondPassFits | src/print/godex/wrap.rs:44-49 | the second pass always keeps within the width |
| Wrap.WrapKeepsText | src/print/godex/wrap.rs:23-59 | the characters other than white space stay, in order |
| Wrap.JoinedLinesAreTheText | src/print/godex/wrap.rs:23-59 | joining the first pass's lines with blanks gives the clean text back |
| Wrap.GreedyStaysAhead | src/print/godex/wrap.rs:27-43 | greedy has fewer lines than any grouping, or as many with no more words on the last |
| Wrap.GreedyIsOptimal | src/print/godex/wrap.rs:27-43 | when every word fits, the lines are a grouping of the words and no grouping within the width uses fewer |
| Wrap.ChoppingEndsIff | src/print/godex/wrap.rs:45-48 | the chopping loop ends exactly when the width is at least one or there is nothing to chop |
| WrapDots.WrapInDots | src/print/godex/wrap.rs:3-21 | in dots, from the arguments alone: no line takes more than the greater of the width and the dots of `min_chars` characters, no character is lost, and when every word fits that many dots, no grouping of the words within them uses fewer lines |
| WrapDots.WidthIs | src/print/godex/wrap.rs:14-15 | a line is no longer than the width in characters exactly when it takes no more dots than a line may |
| WrapDots.OneCharacterFitsIff | src/print/godex/wrap.rs:14-15 | the width is at least one exactly when one character fits the dots of a line |
| WrapDots.SecondPassIsOptimal | src/print/godex/wrap.rs:37-49 | the lines of the second pass are a grouping of the words and the pieces of long ones, and none of these within the width uses fewer |
| WrapDots.SanitizedKeepsText | src/print/godex/text.rs:3-7 | cleaning keeps every character but white space and the four replaced ones, in order |
| PrintActivity.PrintActivityState.constructor | src/service/print_activity.rs:50-56 | starts idle |
| PrintActivity.PrintActivityState.TryStart | src/service/print_activity.rs:66-84 | a busy state is handed back unchanged; an idle one shows the job, field by field |
| PrintActivity.PrintActivityState.Clear | src/service/print_activity.rs:86-104 | dropping the guard leaves the state idle |
| PrintActivity.Executor.Execute | src/service/http.rs:359-362 | a call is recorded with its outcome and report |
| PrintActivity.DriverPrintResponse | src/service/http.rs:287-395 | statuses 400, 422 and 409 leave state, log and reports unchanged; an admitted request logs a whole job, answers 200, 503 or 500 as its last call was printed, unavailable or failed, with the last report when done, and leaves the state idle |
| PrintExclusion.StepKeeps | src/service/http.rs:287-378 | every step of every handler keeps the invariant of guard, log and phases |
| PrintExclusion.RunKeeps | src/service/http.rs:287-378 | every state of every interleaving satisfies it |
| PrintExclusion.BusyIffOneGuard | src/service/print_activity.rs:66-104 | in every interleaving busy means exactly one live guard, whose job is shown field by field; without one the state is idle |
| PrintExclusion.LogIsJobBlocks | src/service/http.rs:357-378 | the executor's log is one whole block per admitted handler in order of admission, unfinished only for the live one; handlers answered 400, 409 or 422 add nothing |
| PrintExclusion.GuardGetsDropped | src/service/http.rs:357-378 | the handler with the guard can always step, and its steps lead to dropping it |
| PrintDevice.ActKeeps | src/service/http.rs:357-378 | every step of a handler and every use of the transport keeps the invariant of handlers, jobs and device |
| PrintDevice.DeviceHoldsWholeJobs | src/service/http.rs:339-378 | in every interleaving the device holds one job's bytes per admitted handler, in order of admission, and behind them only those of the running call; a job answered 200 is its number of copies, each an Ok run of the handler's sequence |
| Godex.Transport.Perform | src/service/driver_print_runtime.rs:121-150 | a successful call appends its bytes to the device, a failed one a front part of them, and what each delivered is recorded |
| Godex.DownloadGraphic | src/print/godex/executor.rs:72-93 | delete, announce and write in order, stopping at the first failure that counts; nothing for an empty name or graphic |
| Godex.ExecutePackRender | src/print/godex/executor.rs:38-70 | the calls made are the whole sequence or end at its first failure that is not a delete's; Ok exactly when there is none, the error names the failing part, and the device has received what each call delivered |
| Godex.SendCommands | src/print/godex/executor.rs:59-65 | print commands are sent in order up to the first failure, whose number is reported |
| Godex.AnnouncementSize | src/print/godex/executor.rs:82-88 | the announced size reads back as the graphic's length, whatever the name |
| Godex.ReceiveCalls | src/service/driver_print_runtime.rs:152-156 | a reader of lines and announced data recovers any well-formed list of calls from its bytes |
| Godex.AnnouncingCommandIsMisread | src/print/godex/executor.rs:59-65 | a print command that looks like an announcement is misread |
| Godex.StreamIsSelfDelimiting | src/print/godex/executor.rs:38-93 | for single-line commands and names, delivered whole, the reader recovers all commands and both graphics exactly when no print command looks like an announcement |
| GodexWire.WireSpelled | src/print/godex/executor.rs:42-69 | the text a run of single-line commands puts on the wire, spelled out from the render |
| GodexWire.WholeRunSpelled | src/print/godex/executor.rs:38-70 | a run without a failure adds exactly that text to the device |
| GodexWire.LineEndsAreTrimmed | src/service/driver_print_runtime.rs:152-156 | line ends a command brings along are replaced by one CR LF |
| GodexWire.BlameNamesCall | src/print/godex/executor.rs:42-69 | the error after a failed call names it: the buzzer command, a use of the text or QR graphic, a print command by its number, or the status query |
| GodexWire.BlameInOrder | src/print/godex/executor.rs:46-65 | the text graphic is blamed before the QR graphic and print commands in their order |
| GodexDelivery.WholeWrites | src/service/driver_print_runtime.rs:146-150 | when no call is torn the device holds the bytes of those that arrived |
| GodexDelivery.OkRunWentWell | src/print/godex/executor.rs:38-93 | a run that answers Ok made every call, and only deletes may have failed |
| GodexDelivery.TornIsMisread | src/print/godex/executor.rs:81-88 | a delete that put part of its line on the device keeps the stream from being read as meant |
| GodexDelivery.DeviceReadsBackIff | src/print/godex/executor.rs:38-93 | what the device holds after an Ok run reads back as the calls that arrived whole exactly when no print command looks like an announcement and no delete is torn |
| GodexDelivery.TornDeleteHappens | src/print/godex/executor.rs:81 | the Ok run in which five bytes of a failed delete run into the announcement |
| HttpFraming.HeaderEndOffset | src/service/http_runtime.rs:113-117 | the end of the head lies inside the text |
| HttpFraming.Find | src/service/http_runtime.rs:132-136 | the first place where the needle stands, or that there is none |
| HttpFraming.ReadHttpRequest | src/service/http_runtime.rs:85-111 | the two loops read head and body as specified, up to the end of the stream |
| HttpFraming.BodyFollowsHead | src/service/http_runtime.rs:78-83 | the body handed on is exactly what follows the head, and empty without one |
| HttpFraming.HeaderEndInPrefix | src/service/http_runtime.rs:113-117 | a prefix shows the end of the head exactly when it reaches past the first blank line |
| HttpFraming.LengthSettles | src/service/http_runtime.rs:119-130 | an announced length does not change when more text arrives |
| HttpFraming.ReadSizesDoNotMatterIff | src/service/http_runtime.rs:85-111 | every way of cutting the reads returns the whole stream exactly when it holds no more than one message (sections 6.2 and 6.3 of RFC 9112) |
| HttpFraming.OverlongIsCut | src/service/http_runtime.rs:104-108 | read at its ends, a longer stream is returned only to the end of the message |
| HttpFraming.HeadlessIsReadWhole | src/service/http_runtime.rs:91-97 | a stream without a blank line is read to its end |
| HttpMessage.RequestReadsBack | src/service/http_runtime.rs:78-130 | a request that says the length of its body, in any way the reader takes and with either kind of line ends, is read exactly, in pieces of any size; behind CR LF the body handed on is the one written, whatever its bytes |
| HttpMessage.BodyReadsBack | src/service/http_runtime.rs:78-83 | behind a head with CR LF the body handed on is the one written, whatever its bytes |
| HttpMessage.LfBodyReadsBackIff | src/service/http_runtime.rs:78-83 | behind a head with LF alone it is exactly when the body holds no CR LF CR LF |
| HttpMessage.HeadAnnounces | src/service/http_runtime.rs:119-130 | the announced length is what the first header of that name says, whatever headers stand around it |
| HttpMessage.NumberReads | src/service/http_runtime.rs:126 | digits below 2^64, with leading zeros, a plus sign and white space allowed, are read as their value |
| HttpMessage.BadNumberIsNone | src/service/http_runtime.rs:126 | an empty value, another character, a sign alone or a value of 2^64 and more is no length |
| HttpMessage.BadLengthMeansNoBody | src/service/http_runtime.rs:101-103 | a length that is no number means that no body is waited for, even when a good one follows |
| HttpMessage.NextRequestIsLeft | src/service/http_runtime.rs:101-111 | bytes behind such a request are left alone when reads end where it ends |
| ScanPayload.QueryEscape | src/core/label.rs:116-128 | the loop over bytes gives the escaped text |
| ScanPayload.EscapedLength | src/core/label.rs:118-126 | escaping never shortens a text, and leaves it alone exactly when it has only letters, digits and the marks - _ . ~ |
| ScanPayload.EscapedIsClean | src/core/label.rs:116-128 | escaped text has only unreserved characters, plus and percent signs |
| ScanPayload.PercentDecode | src/service/http.rs:419-437 | the loop over positions gives the decoded text, unreadable escapes copied |
| ScanPayload.EscapeIsByte | src/service/http.rs:424-432 | a percent sign and two digits of either case are the byte they spell, here and by the standard |
| ScanPayload.OthersAreKept | src/service/http.rs:433-434 | any other character is kept, a percent sign too when no escape follows |
| ScanPayload.DecodeOfEscape | src/service/http.rs:419-437 | decoding an escaped text gives it back with its spaces turned into plus signs |
| ScanPayload.DecodeInvertsEscapeIff | src/service/http.rs:419-437 | decoding undoes escaping exactly on texts without a space |
| ScanPayload.EncodeScanPayload | src/core/label.rs:43-55 | the address followed by the five escaped fields with slashes between them |
| ScanPayload.PayloadAddress | src/core/label.rs:5-54 | every payload begins with the address, spelled out |
| ScanPayload.PayloadReadsBack | src/core/label.rs:43-55 | splitting at slashes, reading plus as space and decoding recovers all five fields, for arbitrary bytes |
| ScanPayload.PayloadIsInjective | src/core/label.rs:43-55 | different fields give different payloads |
| ScanPayload.SignedEscapesShorten | src/service/http.rs:424-430 | every percent sign followed by a plus sign and a digit makes the result two characters shorter than the standard reading |
| ScanPayload.DecodesAsStandardIff | src/service/http.rs:424-430 | the decoder agrees with section 2.1 of RFC 3986 exactly on texts without such a group |
| ScanPayload.SignIsRead | src/service/http.rs:424-430 | the smallest such text, and what it decodes to |
| TxtRecord.TxtRecordBytes | src/service/bonjour.rs:91-105 | the loop over properties gives the encoding or the first error |
| TxtRecord.EncodesIff | src/service/bonjour.rs:94-100 | encoding succeeds exactly when every key is ASCII without an equals sign and every item has at most 255 bytes |
| TxtRecord.BytesOfOne | src/service/bonjour.rs:97-102 | one property's bytes: a byte for its size, then key, equals sign and value |
| TxtRecord.EncodingFailsIff | src/service/bonjour.rs:94-100 | encoding fails exactly when some property is at fault, with the error of the first one, its key checked before its size |
| TxtRecord.ItemsReadBack | src/service/bonjour.rs:91-105 | reading the length-prefixed items and cutting each at its first equals sign gives the properties back (sections 6.1 and 6.4 of RFC 6763) |
| TxtRecord.EncodingIsInjective | src/service/bonjour.rs:91-105 | different property lists have different encodings |
| TxtRecord.EncodeInvertsDecode | src/service/bonjour.rs:91-105 | on well-formed data the encoder undoes the decoder |
| TxtRecord.EncodedIsWellFormed | src/service/bonjour.rs:91-105 | every encoding is well-formed data |
| TxtRecord.KeysAreStandardIff | src/service/bonjour.rs:94-96 | the keys in the bytes are all allowed by section 6.4 of RFC 6763 exactly when every key given is non-empty and printable |
| TxtRecord.StandardReadsBackIff | src/service/bonjour.rs:91-105 | a reader that ignores missing and repeated keys, as that section asks, gets the properties back exactly when each has a key and no two are the same but for case |
| TxtRecord.ForbiddenKeysEncode | src/service/bonjour.rs:94-96 | keys the encoder takes and the standard does not |

## Left out

- Wrap.WrapTextForEzpl: requires a width of at least one when there is text to wrap, because the code does not return otherwise; `Wrap.ChoppingEndsIff` states this.
- ScaleWeight.ParseWeight: weights are exact decimals, so rounding to a binary floating-point number is not captured.
- ScaleStream.SerialStreamDecoder.PushChunk: the port, baud rate, source and clock stamp of a reading are not kept; the time goes to the tracker as an argument.
- StableTracker.StableTracker.constructor: the clock read at start is a parameter.
- PrintActivity.PrintActivityState.TryStart: a poisoned lock and the unlocked look at the snapshot are not modelled.
- PrintActivity.Executor.Execute: the executor's own lock is not a step of its own, as the guard already admits one handler at a time.
- Godex.Transport.Perform: pauses between commands are not modelled.
- PrintDevice.DeviceHoldsWholeJobs: one GoDEX device serves every handler; the Zebra path, a single write, is not modelled.
- ScanPayload.PercentDecode: the closing conversion to text, which replaces bytes that are not valid UTF-8, is not modelled; it changes nothing when the decoded bytes are a valid text, as those of an escaped text are.
- HttpFraming.ReadHttpRequest: read errors and time-outs, the 8192-byte read limit and a length that together with the head passes the machine's address size are not modelled.
- Qr.RenderQrGraphic: what the QR library makes of a payload is a parameter.
- Bitmap.MonoBitmap.Filled: a pixel count beyond the machine's address size is not modelled.
- TxtRecord.TxtRecordBytes: the wording of error texts is not modelled.
- Characters of more than one byte: Unicode digits and spaces in the weight pattern, compatibility normalisation of label text, and buffer cuts inside a character.
- Machine-width overflow of the wrapper's dot arithmetic.
- Ramps, hold repeats and rounding of command-line weights in the simulator: they only build the list of samples.
- Serial ports, pseudo-terminals, sockets, service registration, file writing and event streams: input and output only.
- JSON shapes, request routing, capability lists and configuration: constant data and single-branch choices.
- Selection, receipt and tare checks: straight-line conditions that would only add easy members.
- Label layout, glyph tables, ZPL templates and the receipt-strip renderers: mostly constants, and one renderer uses a name it does not bind.
