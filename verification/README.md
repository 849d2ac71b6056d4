# STOMP frame codec and ring buffer

This project models two sequential parts of a small .NET STOMP client library and proves properties of them.

**The frame codec.** Each of the seven frame classes becomes a row of a static table:

- `CONNECT`, `CONNECTED`, `SEND`, `MESSAGE`, `SUBSCRIBE`, `ACK` and `NACK` are the classes.
- `Kinds.Slots` lists, for each class, the header fields reflection finds on it. It gives each field's
  keyword, whether it is optional, its initializer, and whether reflection on the concrete class sees it.
- A frame (`Frames.Frame`) holds its class, one value per field, the `AdditionalHeaders` list and, for the
  two bodied classes, the body bytes.
- Property getters and setters, the `StompBodiedFrame` body accessors and each class's public
  constructors are pure functions over frames.
- `Codec.Serialize` writes the upper-cased keyword line, the emitted fields, the additional headers and,
  for a bodied frame with a body, a blank line and the raw body.
- `Codec.Build` decodes the packet and looks up the keyword line in a fixed registry. It then starts from
  the class's parameterless constructor, routes each `key:value` line to a field or to the additional
  headers, and takes the bytes after the consumed header text as the body.
- `RoundTrip.SerializeBuild` proves that `Build` undoes `Serialize` for every frame satisfying
  `RoundTrip.RoundTripSafe`. That predicate leaves out:
  - `MESSAGE` and `SUBSCRIBE` frames, which `Build` cannot instantiate;
  - frames missing a mandatory field, which `Serialize` refuses;
  - frames with a field that is not written but differs from its initializer;
  - line breaks in written values and additional values, and colons or line breaks in additional keys;
  - additional keys that name a field of the class;
  - frames that write no header line at all;
  - bodied frames without a body, or whose body starts with CR or LF.

**The ring buffer.** `StompRingBuffer<T>` is modelled twice:

- `RingModel.Ring` is a value with a pure function per operation.
- `RingBuffers.RingBuffer` is a class with an array and the five counters. Each method follows the C#
  statement by statement, and its contract says it agrees with the value model.

The model follows the code as written: Read's guard, the wrap-around copy of Write, the two clamps of Seek
and the unreduced read pointer of DistanceTo. `RingFacts` states where this departs from what the doc
comments announce, and under which extra conditions the announced behaviour holds. For DistanceTo,
`RingFacts.ReadPositionPastArray` and `RingFacts.ReadPositionLeavesArray` show that the read position
leaves the array after a capacity's worth of reads. From then on `DistanceTo` indexes past the end of the
array, and the model's `DistanceTo` excludes that case by its precondition.

STOMP 1.2 lets every frame line end in LF or in CR LF (an optional carriage return before the line
feed). The code's header loop stops as soon as the run of line breaks after a header is two characters
long. That is the blank line
between LF-terminated headers and the body, but a single CR LF is such a run too. On CR LF text the loop
therefore reads only the first header line. Later header lines are not assigned, and in a SEND frame
they become the start of the body. The model follows the code (`LineEnds.CrLfKeepsFirstHeaderOnly`). For
example, in `ACK` with `id:1` and `receipt:2`, all lines ending in CR LF, the receipt is lost
(`LineEnds.CrLfLosesReceipt`).

The comments in the ring buffer source describe Seek as "limited seeking" through previously read data.
The code does not limit a rewind: `Seek(-1000)` after four elements were read returns -1000. The model
follows the code (`RingFacts.SeekRewindUnclamped`).

## Model

| member | source | states |
|---|---|---|
| Kinds.Lookup | Frames/StompFrame.cs:142-145 | the type dictionary answers exactly the seven upper-case keywords, each with the class registered under it; any other word is unknown |
| Kinds.LookupKeyword | Frames/StompFrame.cs:142-145 | every class is found again under its own keyword, so the registry inverts the keyword table |
| Kinds.FindSlot | Frames/StompFrame.cs:126-130 | the header search filter finds a field that reflection sees and whose keyword equals the key exactly, and finds nothing when no such field exists |
| Kinds.FindOwnSlot | Frames/StompFrame.cs:156-159 | looking up the keyword of a visible field finds that very field, because keywords are distinct within a class |
| Kinds.DefaultsPresentOrAbsent | Frames/StompConnectedFrame.cs:6-16 | every field initializer is either null or a value that is not blank |
| Frames.Fresh | Frames/StompSendFrame.cs:54-57 | the parameterless constructor leaves every field at its initializer, with no additional headers and no body |
| Frames.FieldsDeclared | Frames/StompConnectFrame.cs:26-54 | a class has a property exactly when it declares the property's field, and the property reads the field declared with that keyword (Version is `accept-version` on CONNECT) |
| Frames.GetSet | Frames/StompAckFrame.cs:12-22 | a property reads back what its setter stored, and setting one property leaves every property backed by another field unchanged |
| Frames.GetReadsDeclaredField | Frames/StompAckFrame.cs:9-17 | a getter returns the field declared with its property's keyword: looking that keyword up among all fields of the class finds the getter's field |
| Frames.Set | Frames/StompConnectFrame.cs:26-54 | a setter changes no field other than its own, and leaves the class, additional headers and body alone |
| Frames.ContentTypeIndex | Frames/StompBodiedFrame.cs:12-13 | a bodied class has a mandatory `content-type` field |
| Frames.ContentLengthIndex | Frames/StompBodiedFrame.cs:15-16 | a bodied class has an optional `content-length` field |
| Frames.BodyText | Frames/StompBodiedFrame.cs:25-28 | the text body is null exactly when no body bytes are stored |
| Frames.BodyTextRoundTrip | Frames/StompBodiedFrame.cs:40-45 | text written through `BodyText` reads back unchanged, and `ContentLengthBytes` then reports its UTF-8 byte count |
| Frames.SetBodyText | Frames/StompBodiedFrame.cs:30-46 | null clears the body and content type and sets the length to `0`; text stores its UTF-8 bytes and their count, and sets the content type to `text/plain` unless it already starts with `text`; no other field changes |
| Frames.TextContentType | Frames/StompBodiedFrame.cs:42-43 | a content type that starts with `text` is kept; a null one or any other is replaced by `text/plain` |
| Frames.BodyTextCleared | Frames/StompBodiedFrame.cs:32-37 | after `BodyText = null` the body reads as null and `ContentLengthBytes` as 0 |
| Frames.SetBodyData | Frames/StompBodiedFrame.cs:58-62 | assigning bytes stores them and sets `content-length` to their count in decimal, touching no other field; assigning null fails |
| Frames.BodyDataLength | Frames/StompBodiedFrame.cs:58-62 | after `BodyData = b`, `ContentLengthBytes` reports the length of `b` |
| Frames.ContentLengthBytes | Frames/StompBodiedFrame.cs:85-90 | a non-blank `content-length` is parsed; a blank one gives the body length, or -1 without a body |
| Frames.SetContentLengthBytes | Frames/StompBodiedFrame.cs:91-94 | the setter writes only the decimal rendering of the number into `content-length` |
| Frames.ContentLengthRoundTrip | Frames/StompBodiedFrame.cs:83-94 | the `ContentLengthBytes` getter returns what its setter stored |
| Text.ParseDecimal | Frames/StompBodiedFrame.cs:89-93 | `int.Parse` reads back every `int.ToString()` rendering |
| Text.DecimalNotBlank | Frames/StompBodiedFrame.cs:93 | a decimal rendering is never blank and holds no line break, so `content-length` is always emitted once set |
| Frames.NewConnect | Frames/StompConnectFrame.cs:11-15 | a new CONNECT has `accept-version` 1.2 and no host, with no additional headers and no body |
| Frames.NewConnected | Frames/StompConnectedFrame.cs:6-16 | a new CONNECTED has heartbeat `0,0`, no session, server `Unknown/1.0` and version 1.2 |
| Frames.NewSend | Frames/StompSendFrame.cs:33-37 | `SEND(dest)` has the destination, an empty non-null body, content type `text/plain` and length `0` |
| Frames.NewSendWithBody | Frames/StompSendFrame.cs:48-52 | `SEND(dest, body)` has the UTF-8 body, `text/plain` and the byte count; a null body leaves no body and no content type and sets the length to `0`; receipt and transaction stay null |
| Frames.NewMessage | Frames/StompMessageFrame.cs:81-87 | the constructor stores subscription, destination and ack as given and the message id as decimal text, and leaves the content type null |
| Frames.NewSubscribe | Frames/StompSubscribeFrame.cs:68-72 | the constructor sets destination and id, and the acknowledgement mode keeps `client-individual` |
| Frames.NewAck | Frames/StompAckFrame.cs:27-30 | a new ACK has no id |
| Frames.NewNAck | Frames/StompNAckFrame.cs:7-10 | a new NACK has no id |
| Frames.NewNAckFor | Frames/StompNAckFrame.cs:12-15 | the id of a NACK built for a message is the message's ack value |
| Codec.FieldLines | Frames/StompFrame.cs:69-99 | the field loop fails exactly when some visible mandatory field is blank, naming such a field; otherwise it writes `keyword:value` for each visible non-blank field in table order |
| Codec.Serialize | Frames/StompFrame.cs:58-124 | serialization fails exactly when a mandatory field is blank; otherwise it yields the UTF-8 of the keyword line and the emitted lines, followed by a blank line and the raw body exactly when a bodied frame has a body |
| Codec.Assign | Frames/StompFrame.cs:155-180 | a header whose key names a field reflection sees sets that field and nothing else; any other header is appended to the additional headers |
| RoundTrip.CommandLineOf | Frames/StompFrame.cs:139-140 | a packet starting with a keyword line yields that keyword, and the reader stands on the first character after its LF |
| RoundTrip.HeaderStepAt | Frames/StompFrame.cs:151-181 | one pass over a line `key:value` followed by LF stores the pair, then skips the whole run of line breaks that starts at the LF and reports its length |
| RoundTrip.ReadHeadersNext | Frames/StompFrame.cs:181-183 | after a header line followed directly by another, the loop goes on at the next line |
| RoundTrip.ReadLastLine | Frames/StompFrame.cs:181-183 | after the last header line the loop stops, either at the end of the text or just past the blank line that precedes a body |
| RoundTrip.ReadLines | Frames/StompFrame.cs:149-183 | the header loop consumes well-formed lines one per pass, assigning each in order, and stops after the last one |
| LineEnds.CrLfCommandLine | Frames/StompFrame.cs:139-140 | a keyword line ending in CR LF yields the keyword, and the reader stands on the first character after the LF |
| LineEnds.CrLfStopsLoop | Frames/StompFrame.cs:151-183 | a header line ending in CR LF followed by a character other than a line break stores its pair and ends the header loop, with the reader on that character |
| LineEnds.CrLfKeepsFirstHeaderOnly | Frames/StompFrame.cs:132-194 | a packet with CR LF line ends yields the fresh frame with only its first header assigned; in a SEND frame every byte after that header line is the body |
| LineEnds.CrLfLosesReceipt | Frames/StompFrame.cs:132-194 | `ACK`, `id:1`, `receipt:2` with CR LF line ends parses to an ACK frame with id `1`, no receipt and no additional headers |
| LineEnds.AckWithIdOnly | Frames/StompAckFrame.cs:9-22 | an ACK frame that has read only `id:1` has id `1`, no receipt and no additional headers |
| Codec.Build | Frames/StompFrame.cs:132-195 | an unknown keyword fails naming the upper-cased first line; a registered class without a parameterless constructor fails naming that class; a success has the registered class, which is instantiable; a bodied frame's body is a suffix of the packet, and a non-bodied frame has no body |
| Utf8.DecodeEncode | Frames/StompFrame.cs:134 | decoding the UTF-8 encoding of text gives the text back |
| Utf8.DecodeEncodeAppend | Frames/StompFrame.cs:112-116 | decoding encoded header text followed by body bytes gives the header text followed by the decoded body |
| Utf8.DecodeStartsWithBreak | Frames/StompFrame.cs:181 | decoded text starts with CR or LF exactly when the bytes do |
| Utf8.EncodeAscii | Frames/StompFrame.cs:188 | on ASCII text the byte count equals the character count and each byte is the code point |
| StringReader.Reader.ReadUntil | Frames/StompFrame.cs:151 | the text read contains no stop character, and the cursor rests on a stop character or at the end |
| StringReader.Reader.SkipThrough | Frames/StompFrame.cs:181 | skips exactly the maximal run of the given characters and reports its length |
| StringReader.Reader.Shuttle | Frames/StompFrame.cs:152 | steps over one character, staying put at the end of the text |
| RoundTrip.SerializeBuild | Frames/StompFrame.cs:58-194 | for a frame with clean keys and values, non-blank mandatory fields, omitted fields at their initializers, extra keys distinct from field keywords, at least one header line and a body not starting with a line break, `Build(Serialize(f)) == f` |
| RoundTrip.HeaderText | Frames/StompFrame.cs:139-183 | parsing serialized text finds the frame's keyword, rebuilds every field and additional header, and stops right after the blank line before a body |
| RoundTrip.BodyOffset | Frames/StompFrame.cs:186-191 | re-encoding the consumed header text of a serialized bodied frame lands exactly on the first body byte |
| RoundTrip.PacketText | Frames/StompFrame.cs:109-123 | the decoded packet is the keyword line, the header lines and then either nothing or a blank line followed by the decoded body |
| RoundTrip.FoldEmitted | Frames/StompFrame.cs:156-179 | assigning a frame's emitted header lines one after the other to a fresh frame of its class gives the frame back |
| Variants.FreshConnectNeedsHost | Frames/StompConnectFrame.cs:14-15 | a fresh CONNECT cannot be serialized: `host` is missing |
| Variants.ConnectWithHost | Frames/StompConnectFrame.cs:26-30 | once Hostname is non-blank, CONNECT serializes |
| Variants.FreshConnectedLines | Frames/StompConnectedFrame.cs:6-16 | a fresh CONNECTED serializes to the heartbeat, server and version lines and no session line |
| Variants.FreshEmits | Frames/StompFrame.cs:87-98 | in a freshly constructed frame a field is written out exactly when reflection sees it and its initializer is not null |
| Variants.ParsedConnectedKeepsVersion | Frames/StompConnectedFrame.cs:15-16 | a parsed CONNECTED packet without a version line has Version 1.2 |
| Variants.ParsedKeepsDefault | Frames/StompFrame.cs:145-146 | any field that no parsed header line names keeps its initializer |
| Variants.BuildLines | Frames/StompFrame.cs:132-194 | a packet made of an instantiable non-bodied keyword line and clean header lines builds the fresh frame with those lines assigned in order |
| Variants.UnknownKeywordRefused | Frames/StompFrame.cs:137-141 | a first line that is no registered keyword is refused with `UnknownFrameType` naming that line, before any frame is created, whatever follows it |
| Variants.UnknownKeywordLine | Frames/StompFrame.cs:137-141 | the packet `FOO` followed by a blank line is read as the keyword `FOO`, which no frame type registers, and refused as `FOO` |
| Variants.MessageNotBuilt | Frames/StompMessageFrame.cs:81 | every packet whose first line names MESSAGE fails with NotInstantiable: the class has no parameterless constructor |
| Variants.MessageKeywordLine | Frames/StompFrame.cs:137-144 | the packet `MESSAGE` followed by a blank line is looked up as MESSAGE and refused |
| Variants.MessageNeedsContentType | Frames/StompMessageFrame.cs:81-87 | a constructed MESSAGE fails on the missing content type, and one without an ack value cannot be serialized either |
| Variants.SubscribeNotBuilt | Frames/StompSubscribeFrame.cs:68-72 | every packet whose first line names SUBSCRIBE fails with NotInstantiable: the class has no parameterless constructor |
| Variants.SubscribeWritesAck | Frames/StompSubscribeFrame.cs:9-16 | a constructed SUBSCRIBE with non-blank destination and id writes exactly those and `ack:client-individual` |
| Variants.AckNeedsId | Frames/StompAckFrame.cs:9-10 | a fresh ACK cannot be serialized until its id is set |
| Variants.NAckHidesId | Frames/StompNAckFrame.cs:5 | a NACK never writes an `id` line, a fresh one serializes, and a parsed `id` header lands in the additional headers |
| Variants.NeverEmitted | Frames/StompFrame.cs:87-98 | a key that no visible field carries never appears among the written field lines |
| Variants.RepeatedKey | Frames/StompFrame.cs:155-180 | a later line with a field's key overwrites the earlier value; a repeated unknown key is kept twice, in order |
| RingModel.New | StompRingBuffer.cs:27-31 | a new buffer of the given size has that much room to write, nothing to read, and every cell at the default value |
| RingModel.Ring.Write | StompRingBuffer.cs:58-85 | fails exactly when more than AvailableWrite elements are offered; otherwise advances the write counters by the length, keeps the invariant and clamps a rewind to the free region |
| RingModel.Ring.Stored | StompRingBuffer.cs:65-76 | a write that fits copies the data to the write pointer and changes no other cell; a wrapping one fills the front from index `spill` of the data |
| RingModel.Ring.Seek | StompRingBuffer.cs:115-134 | a positive target offset commits the smaller of itself and the unread span minus itself; the second clamp moves the offset only when the read counter has overtaken the write counter; the new offset is returned |
| RingModel.Ring.ReadFrom | StompRingBuffer.cs:175 | when C#'s truncating `%` gives a non-negative index, it is the read position reduced modulo the capacity |
| RingModel.CsRem | StompRingBuffer.cs:175 | C#'s `%` lies strictly between -n and n, agrees with the Euclidean remainder when not negative, and is negative exactly for a negative dividend that is not a multiple of n |
| RingModel.Ring.Peek | StompRingBuffer.cs:173-192 | returns `amount` elements, element `i` being the one `i` places after the read position, wrapping |
| RingModel.Ring.PeekOne | StompRingBuffer.cs:200-203 | returns the element at the read position |
| RingModel.Ring.Read | StompRingBuffer.cs:145-162 | fails exactly when the amount exceeds the capacity minus AvailableRead; otherwise returns what Peek returns, advances the read position by the amount and leaves the offset non-positive |
| RingModel.DistanceTo | StompRingBuffer.cs:215-231 | -1 exactly when no element equal to the value lies between the read position and the write pointer; otherwise the distance to the first such element |
| RingModel.Scan | StompRingBuffer.cs:222-228 | the remaining loop from any step finds the first matching element before the write pointer, or -1 |
| RingFacts.WriteCapacityExample | StompRingBuffer.cs:36 | with capacity 8, after writing 5 and reading 3, a write of 6 is accepted and one of 7 refused |
| RingFacts.OversizedWriteRefused | StompRingBuffer.cs:60-63 | a write longer than AvailableWrite fails with Full whatever the data, and no copy bound is demanded of it |
| RingFacts.WrapWriteFromShortData | StompRingBuffer.cs:65-71 | a wrapping write of six elements at capacity 8 and write pointer 4 succeeds from five-element data, since its copies read only up to index 4 of the data |
| RingFacts.WriteLaysOutData | StompRingBuffer.cs:65-76 | a write that does not wrap, or wraps at exactly twice the room left, lays the data out contiguously from the write pointer |
| RingFacts.WrapWriteTakesWrongElements | StompRingBuffer.cs:70 | a wrapping write stores the wrong element at the front of the array |
| RingFacts.ReadFromEmptyAccepted | StompRingBuffer.cs:147-148 | an empty buffer accepts a read of up to its capacity |
| RingFacts.ReadFromFullRefused | StompRingBuffer.cs:147-148 | a full buffer refuses to read even one element |
| RingFacts.ReadThenPeek | StompRingBuffer.cs:145-162 | reading `a` elements and then peeking `b` sees the last `b` of a peek at `a + b` |
| RingFacts.PeekOneIsFirst | StompRingBuffer.cs:200-203 | `Peek()` is the first element of `Peek(1)` |
| RingFacts.WritePeekRoundTrip | StompRingBuffer.cs:58-192 | writing into an empty buffer and peeking at as many elements returns the data, when the write does not wrap or wraps at exactly half its length |
| RingFacts.SeekPastEndMovesBack | StompRingBuffer.cs:120-123 | seeking past the unread elements moves the read pointer back |
| RingFacts.SeekRewindUnclamped | StompRingBuffer.cs:128-131 | after four elements are written and read, `Seek(-1000)` returns -1000 and reports 1000 elements readable |
| RingFacts.RewoundPeekReadsFront | StompRingBuffer.cs:173-203 | after write 4, read 4 and `Seek(-1004)` on capacity 8, the read position is -1000, and Peek and `Peek()` read from index 0 |
| RingFacts.SeekClampsOnlyWhenOvertaken | StompRingBuffer.cs:128-133 | while the read counter has not overtaken the write counter, a rewind is returned as asked |
| RingFacts.DistanceScansUnread | StompRingBuffer.cs:222 | when fewer than capacity elements are unread, DistanceTo looks at exactly the unread elements |
| RingFacts.DistanceOnFullBuffer | StompRingBuffer.cs:222-230 | a full buffer read from offset zero answers -1 for every value |
| RingFacts.DistanceExample | StompRingBuffer.cs:215-231 | with `[10, 20, 30, 40]` unread, 30 lies two elements ahead and 99 is absent |
| RingFacts.ReadPositionPastArray | StompRingBuffer.cs:154-158 | once a capacity's worth of elements has been read and no seek is pending, the read position lies outside the array |
| RingFacts.ReadPositionLeavesArray | StompRingBuffer.cs:145-162 | on capacity 4, write two, read two, write two and read two leaves the read position at 4, past the last index |
| RingBuffers.RingBuffer.Write | StompRingBuffer.cs:58-85 | the method fails with `Full` and leaves the state alone exactly when the model's Write fails, and otherwise reaches the model's state |
| RingBuffers.RingBuffer.AvailableWrite | StompRingBuffer.cs:36 | the class reports the same free space as the value model |
| RingBuffers.RingBuffer.AvailableRead | StompRingBuffer.cs:41-47 | the class reports the same unread count as the value model |
| RingBuffers.RingBuffer.Store | StompRingBuffer.cs:65-76 | the one or two array copies leave the array as the model's `Stored` |
| RingBuffers.RingBuffer.Seek | StompRingBuffer.cs:115-134 | the method reaches the model's state and returns the model's offset |
| RingBuffers.RingBuffer.Read | StompRingBuffer.cs:145-162 | the method fails with `PastEnd` exactly when the model's Read fails, and otherwise returns the model's data and reaches the model's state |
| RingBuffers.RingBuffer.Peek | StompRingBuffer.cs:173-192 | the two array copies into a fresh array return the model's Peek |
| RingBuffers.RingBuffer.PeekOne | StompRingBuffer.cs:200-203 | indexing with C#'s truncating `%` returns the model's element at the read position |
| RingBuffers.RingBuffer.DistanceTo | StompRingBuffer.cs:218-231 | the loop stepping from the read position to the write pointer returns the model's DistanceTo |

## Left out

- Reflection (`GetCustomAttribute`, `FindMembers`, `Activator.CreateInstance`) is modelled only by its
  consequences: the static per-class field tables, a visibility flag per field and an "instantiable" flag
  per class.
- Field order within a frame: .NET does not specify the order `FindMembers` returns base and derived
  members in. Each class gets one fixed order: its own fields, then those of `StompBodiedFrame`, then
  `receipt` and `transaction`. No order across classes is proved.
- The type dictionary: Support.cs enumerates frame classes by reflection over the assembly. It is
  replaced by the fixed seven-entry registry `Kinds.Lookup`.
- `StompStringReader`, `StompHeaderIdentifier`, `StompFrameType` and `StompFrameDirection` are not part
  of this model.
  - The reader's operations are defined by the behaviour the parser assumes of them.
  - `Shuttle(1)` at the end of the text is assumed to stay put.
  - A one-argument `StompHeaderIdentifier` is taken as mandatory.
  - The direction tag has no behaviour here.
- Serialize's exception for a class without a frame type attribute cannot arise: every modelled class
  has one.
- Exception types and messages are collapsed into the `FrameError` and `RingError` variants. The
  messages from `int.Parse` and a null `BodyData` are plain strings.
- State changed before an exception (for instance the fields already assigned when `Build` throws) is
  not modelled: a failing operation just returns its error.
- Utf8.Decode: replaces each byte of a malformed sequence by U+FFFD, where .NET replaces each maximal
  invalid subpart. Only well-formed encodings are reasoned about.
- Text.Upper: only ASCII letters are upper-cased. Culture-sensitive `ToUpper` and `StartsWith` are not
  modelled; the ordinal comparison is used.
- Text.ParseInt: values beyond 32 bits are not rejected, because integers are unbounded here.
- RingModel.Ring: the counters are unbounded integers. 32-bit wrap-around after 2^31 elements is not
  modelled.
- Frames.BodyTextRoundTrip: covers well-formed text only. A model string is a sequence of Unicode scalar
  values, while a C# string is UTF-16 and may hold a lone surrogate. `Encoding.UTF8.GetBytes` replaces
  such a surrogate with EF BF BD, so setting and reading `BodyText` does not give it back; the model has
  no such strings.
- Utf8.DecodeEncode: the same restriction. Decoding inverts encoding for strings of Unicode scalar values,
  and C# strings holding a lone surrogate are not modelled.
- RingModel.Ring.Valid: a buffer of capacity 0 is excluded, because the source divides by the capacity.
- RingModel.Ring.Write: when the guard passes, the `Array.Copy` argument exceptions are the precondition
  `CanWrite` instead of being modelled as errors. This covers a negative length, a single copy reading
  past the end of the data, a wrapping first copy reading past the end of the data, and a wrapping
  second copy running past the data or the array. A write the guard refuses needs nothing and fails
  with `Full`.
- RingModel.Ring.Peek: `Array.Copy` argument exceptions are the precondition `CanPeek`. This covers a
  negative amount, a start index that C#'s truncating `%` makes negative, or an amount reaching past a
  second lap. A read position whose sum with the capacity is a negative multiple of it gives index 0
  and is accepted (`RingFacts.RewoundPeekReadsFront`).
- RingModel.Ring.PeekOne: the index-out-of-range exception of a negative truncated remainder is the
  precondition `ReadIndexed`.
- RingModel.Ring.Read: under `CanRead`, Peek's preconditions are required whenever the guard passes.
- RingModel.DistanceTo: the index-out-of-range exception of a read position outside the array is a
  precondition.
- RingModel.New: `default(T)` is the parameter `blank`.
- `Object.Equals` is Dafny equality on `T`.
- The `Write(T[])` overload is `Write(data, |data|)`.
- Transport, sockets, heart-beat timers, the NUL frame terminator and header value escaping are not
  implemented by this code and are not modelled.
