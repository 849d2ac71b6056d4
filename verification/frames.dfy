/** Frame values and their accessors: the header fields of `StompFrame`, `StompBodiedFrame` and the seven
    concrete classes, the body properties, and each class's public constructors. */
module Frames {
  import opened Results
  import opened Text
  import Utf8
  import opened Kinds

  type byte = Utf8.byte

  /** An additional header: key and value, as stored in `AdditionalHeaders`. */
  type Header = (string, string)

  /** A frame object: its class, one value per header field of `Slots(kind)` (in that order), the
      `AdditionalHeaders` list and, for bodied classes, `_PacketData`. */
  datatype RawFrame = RawFrame(kind: Kind, slots: seq<Option<string>>, extra: seq<Header>, body: Option<seq<byte>>) {
    predicate WellFormed() {
      |slots| == |Slots(kind)| && (body.Some? ==> Bodied(kind))
    }
  }

  type Frame = f: RawFrame | f.WellFormed() witness RawFrame(Ack, [None, None, None], [], None)

  /** The field initializers of class `k`. */
  function Defaults(k: Kind): (d: seq<Option<string>>)
    ensures |d| == |Slots(k)|
    ensures forall i | 0 <= i < |d| :: d[i] == Slots(k)[i].default
  {
    seq(|Slots(k)|, i requires 0 <= i < |Slots(k)| => Slots(k)[i].default)
  }

  /** A frame of class `k` straight out of its parameterless constructor: every field at its initializer,
      no additional headers, no body. */
  function Fresh(k: Kind): (f: Frame)
    ensures f.kind == k && f.extra == [] && f.body == None
    ensures forall i | 0 <= i < |Slots(k)| :: f.slots[i] == Slots(k)[i].default
  {
    RawFrame(k, Defaults(k), [], None)
  }

  /** The frame with header field `i` replaced by `v` and nothing else changed. */
  function WithSlot(f: Frame, i: nat, v: Option<string>): (g: Frame)
    requires i < |f.slots|
    ensures g.kind == f.kind && g.extra == f.extra && g.body == f.body
    ensures g.slots[i] == v
    ensures forall j | 0 <= j < |f.slots| && j != i :: g.slots[j] == f.slots[j]
  {
    f.(slots := f.slots[i := v])
  }

  /** The string properties of the frame classes, each a getter (and usually a setter) of one field. */
  datatype Property =
    | Receipt | TransactionId | ContentType
    | Hostname | Username | Password | Heartbeat | Version
    | Session | ServerInfo
    | Destination | SubscriptionId | MessageId | MessageAck | AckSetting | Id

  /** The keyword of the field a property of class `k` reads and writes, if `k` has that property. */
  function Field(k: Kind, p: Property): Option<string> {
    match p
    case Receipt => Some("receipt")
    case TransactionId => Some("transaction")
    case ContentType => if Bodied(k) then Some("content-type") else None
    case Hostname => if k == Connect then Some("host") else None
    case Username => if k == Connect then Some("login") else None
    case Password => if k == Connect then Some("password") else None
    case Heartbeat =>
      if k == Connect then Some("heart-beat") else if k == Connected then Some("heartbeat") else None
    case Version =>
      if k == Connect then Some("accept-version") else if k == Connected then Some("version") else None
    case Session => if k == Connected then Some("session") else None
    case ServerInfo => if k == Connected then Some("server") else None
    case Destination => if k == Send || k == Message || k == Subscribe then Some("destination") else None
    case SubscriptionId => if k == Message then Some("subscription") else None
    case MessageId => if k == Message then Some("message-id") else None
    case MessageAck => if k == Message then Some("ack") else None
    case AckSetting => if k == Subscribe then Some("ack") else None
    case Id => if k == Subscribe || k == Ack || k == NAck then Some("id") else None
  }

  /** Position in `Slots(k)` of the field behind property `p` of class `k`. */
  function FieldIndex(k: Kind, p: Property): (r: Option<nat>)
    ensures r.Some? ==> r.value < |Slots(k)|
  {
    match p
    case Receipt => Some(|Slots(k)| - 2)
    case TransactionId => Some(|Slots(k)| - 1)
    case ContentType => if k == Send then Some(1) else if k == Message then Some(4) else None
    case Hostname => if k == Connect then Some(1) else None
    case Username => if k == Connect then Some(2) else None
    case Password => if k == Connect then Some(3) else None
    case Heartbeat => if k == Connect then Some(4) else if k == Connected then Some(0) else None
    case Version => if k == Connect then Some(0) else if k == Connected then Some(3) else None
    case Session => if k == Connected then Some(1) else None
    case ServerInfo => if k == Connected then Some(2) else None
    case Destination => if k == Send || k == Subscribe then Some(0) else if k == Message then Some(1) else None
    case SubscriptionId => if k == Message then Some(0) else None
    case MessageId => if k == Message then Some(2) else None
    case MessageAck => if k == Message then Some(3) else None
    case AckSetting => if k == Subscribe then Some(2) else None
    case Id => if k == Subscribe then Some(1) else if k == Ack || k == NAck then Some(0) else None
  }

  predicate HasProperty(k: Kind, p: Property) {
    FieldIndex(k, p).Some?
  }

  /** Only `StompSubscribeFrame.AckSetting` lacks a setter. */
  predicate Settable(k: Kind, p: Property) {
    HasProperty(k, p) && p != AckSetting
  }

  /** Each property a class exposes reads and writes the one field declared with the property's keyword. */
  lemma FieldsDeclared(k: Kind, p: Property)
    ensures HasProperty(k, p) <==> Field(k, p).Some?
    ensures HasProperty(k, p) ==> Slots(k)[FieldIndex(k, p).value].keyword == Field(k, p).value
  {
  }

  function Index(k: Kind, p: Property): (i: nat)
    requires HasProperty(k, p)
    ensures i < |Slots(k)|
  {
    FieldIndex(k, p).value
  }

  /** A property getter: the value of its field. */
  function Get(f: Frame, p: Property): Option<string>
    requires HasProperty(f.kind, p)
  {
    f.slots[Index(f.kind, p)]
  }

  /** A getter reads the field declared under the property's keyword: looking that keyword up among all
      the fields of the class, visible or not, finds the getter's field. */
  lemma GetReadsDeclaredField(f: Frame, p: Property)
    requires HasProperty(f.kind, p)
    ensures SlotIndex(f.kind, Field(f.kind, p).value) == Some(Index(f.kind, p))
    ensures Get(f, p) == f.slots[SlotIndex(f.kind, Field(f.kind, p).value).value]
  {
    FieldsDeclared(f.kind, p);
    SlotsDistinct(f.kind);
    var i := Index(f.kind, p);
    var key := Field(f.kind, p).value;
    assert Slots(f.kind)[i].keyword == key;
    var r := SlotIndex(f.kind, key);
    assert r.Some?;
    assert r.value == i;
  }

  /** A property setter: writes its field and nothing else. */
  function Set(f: Frame, p: Property, v: Option<string>): (g: Frame)
    requires Settable(f.kind, p)
    ensures g.kind == f.kind && g.extra == f.extra && g.body == f.body
    ensures forall j | 0 <= j < |f.slots| && j != Index(f.kind, p) :: g.slots[j] == f.slots[j]
  {
    WithSlot(f, Index(f.kind, p), v)
  }

  /** Reading a property back after setting it gives the value set, and a property backed by another
      field is unaffected. */
  lemma GetSet(f: Frame, p: Property, q: Property, v: Option<string>)
    requires Settable(f.kind, p) && HasProperty(f.kind, q)
    ensures Get(Set(f, p, v), p) == v
    ensures Field(f.kind, q) != Field(f.kind, p) ==> Get(Set(f, p, v), q) == Get(f, q)
  {
    FieldsDeclared(f.kind, p);
    FieldsDeclared(f.kind, q);
  }

  // ---- StompBodiedFrame ----

  function ContentTypeIndex(k: Kind): (i: nat)
    requires Bodied(k)
    ensures i < |Slots(k)| && Slots(k)[i].keyword == "content-type" && !Slots(k)[i].optional
  {
    if k == Send then 1 else 4
  }

  function ContentLengthIndex(k: Kind): (i: nat)
    requires Bodied(k)
    ensures i < |Slots(k)| && Slots(k)[i].keyword == "content-length" && Slots(k)[i].optional
  {
    if k == Send then 2 else 5
  }

  /** `BodyText` getter: the body decoded as UTF-8, or null when there is no body. */
  function BodyText(f: Frame): (t: Option<string>)
    ensures t.None? <==> f.body.None?
  {
    match f.body
    case None => None
    case Some(b) => Some(Utf8.Decode(b))
  }

  /** `ContentLengthBytes` setter: stores the decimal rendering of `n` in the `content-length` field. */
  function SetContentLengthBytes(f: Frame, n: int): (g: Frame)
    requires Bodied(f.kind)
    ensures g.kind == f.kind && g.extra == f.extra && g.body == f.body
    ensures g.slots[ContentLengthIndex(f.kind)] == Some(Decimal(n))
    ensures forall j | 0 <= j < |f.slots| && j != ContentLengthIndex(f.kind) :: g.slots[j] == f.slots[j]
  {
    WithSlot(f, ContentLengthIndex(f.kind), Some(Decimal(n)))
  }

  /** `ContentLengthBytes` getter: the parsed `content-length` field when it is not blank; otherwise the
      body's length, or -1 without a body. A field `int.Parse` rejects is a failure. */
  function ContentLengthBytes(f: Frame): (r: Result<int, string>)
    requires Bodied(f.kind)
    ensures IsBlank(f.slots[ContentLengthIndex(f.kind)]) && f.body.Some? ==> r == Success(|f.body.value|)
    ensures IsBlank(f.slots[ContentLengthIndex(f.kind)]) && f.body.None? ==> r == Success(-1)
    ensures !IsBlank(f.slots[ContentLengthIndex(f.kind)]) ==> r == ParseInt(f.slots[ContentLengthIndex(f.kind)].value)
  {
    var cl := f.slots[ContentLengthIndex(f.kind)];
    if IsBlank(cl) then Success(if f.body.Some? then |f.body.value| else -1)
    else ParseInt(cl.value)
  }

  /** `BodyData` setter: stores the bytes and sets `content-length` to their count; null is a failure. */
  function SetBodyData(f: Frame, data: Option<seq<byte>>): (r: Result<Frame, string>)
    requires Bodied(f.kind)
    ensures r.Failure? <==> data.None?
    ensures r.Success? ==> r.value.kind == f.kind && r.value.extra == f.extra && r.value.body == data
    ensures r.Success? ==> r.value.slots[ContentLengthIndex(f.kind)] == Some(Decimal(|data.value|))
    ensures r.Success? ==> forall j | 0 <= j < |f.slots| && j != ContentLengthIndex(f.kind) :: r.value.slots[j] == f.slots[j]
  {
    match data
    case None => Failure("object reference not set to an instance of an object")
    case Some(b) => Success(SetContentLengthBytes(f.(body := Some(b)), |b|))
  }

  /** The content type `BodyText` leaves in place: `text/plain` unless the current one starts with `text`. */
  function TextContentType(current: Option<string>): (r: string)
    ensures current.Some? && StartsWith(current.value, "text") ==> r == current.value
    ensures !(current.Some? && StartsWith(current.value, "text")) ==> r == "text/plain"
  {
    if current.None? || !StartsWith(current.value, "text") then "text/plain" else current.value
  }

  /** `BodyText` setter. Null clears the body and the content type and sets `content-length` to `0`;
      otherwise the body becomes the UTF-8 bytes of `text`, `content-length` their count, and the content
      type becomes `text/plain` unless it already starts with `text`. */
  function SetBodyText(f: Frame, text: Option<string>): (g: Frame)
    requires Bodied(f.kind)
    ensures g.kind == f.kind && g.extra == f.extra
    ensures text.None? ==> g.body == None && g.slots[ContentTypeIndex(f.kind)] == None
    ensures text.None? ==> g.slots[ContentLengthIndex(f.kind)] == Some("0")
    ensures text.Some? ==> g.body == Some(Utf8.Encode(text.value))
    ensures text.Some? ==> g.slots[ContentLengthIndex(f.kind)] == Some(Decimal(|Utf8.Encode(text.value)|))
    ensures text.Some? ==> g.slots[ContentTypeIndex(f.kind)] == Some(TextContentType(f.slots[ContentTypeIndex(f.kind)]))
    ensures forall j | 0 <= j < |f.slots| && j != ContentTypeIndex(f.kind) && j != ContentLengthIndex(f.kind) ::
              g.slots[j] == f.slots[j]
  {
    var ct := ContentTypeIndex(f.kind);
    match text
    case None =>
      WithSlot(SetContentLengthBytes(f, 0).(body := None), ct, None)
    case Some(s) =>
      var bytes := Utf8.Encode(s);
      var g1 := f.(body := Some(bytes));
      var g2 := WithSlot(g1, ct, Some(TextContentType(f.slots[ct])));
      SetContentLengthBytes(g2, |bytes|)
  }

  /** Text written through `BodyText` reads back unchanged, and `ContentLengthBytes` then reports its
      UTF-8 byte count. */
  lemma BodyTextRoundTrip(f: Frame, s: string)
    requires Bodied(f.kind)
    ensures BodyText(SetBodyText(f, Some(s))) == Some(s)
    ensures ContentLengthBytes(SetBodyText(f, Some(s))) == Success(|Utf8.Encode(s)|)
  {
    Utf8.DecodeEncode(s);
    ParseDecimal(|Utf8.Encode(s)|);
    DecimalNotBlank(|Utf8.Encode(s)|);
  }

  /** Clearing `BodyText` leaves no body and a length of zero. */
  lemma BodyTextCleared(f: Frame)
    requires Bodied(f.kind)
    ensures BodyText(SetBodyText(f, None)) == None
    ensures ContentLengthBytes(SetBodyText(f, None)) == Success(0)
  {
    ParseDecimal(0);
    DecimalNotBlank(0);
  }

  /** After `BodyData` is set, `ContentLengthBytes` reports the number of bytes stored. */
  lemma BodyDataLength(f: Frame, b: seq<byte>)
    requires Bodied(f.kind)
    ensures SetBodyData(f, Some(b)).Success?
    ensures ContentLengthBytes(SetBodyData(f, Some(b)).value) == Success(|b|)
  {
    ParseDecimal(|b|);
    DecimalNotBlank(|b|);
  }

  /** `ContentLengthBytes` setter followed by the getter gives the number back. */
  lemma ContentLengthRoundTrip(f: Frame, n: int)
    requires Bodied(f.kind)
    ensures ContentLengthBytes(SetContentLengthBytes(f, n)) == Success(n)
  {
    ParseDecimal(n);
    DecimalNotBlank(n);
  }

  // ---- public constructors ----

  /** `new StompConnectFrame()`. */
  function NewConnect(): (f: Frame)
    ensures f.kind == Connect && f.extra == [] && f.body == None
    ensures Get(f, Version) == Some("1.2") && Get(f, Hostname) == None
  {
    Fresh(Connect)
  }

  /** `new StompConnectedFrame()`. */
  function NewConnected(): (f: Frame)
    ensures f.kind == Connected && f.extra == [] && f.body == None
    ensures Get(f, Version) == Some("1.2") && Get(f, Heartbeat) == Some("0,0")
    ensures Get(f, Session) == None && Get(f, ServerInfo) == Some("Unknown/1.0")
  {
    Fresh(Connected)
  }

  /** `new StompSendFrame(Destination)`: an empty text body. */
  function NewSend(destination: Option<string>): (f: Frame)
    ensures f.kind == Send && f.extra == []
    ensures Get(f, Destination) == destination
    ensures f.body == Some([])
    ensures Get(f, ContentType) == Some("text/plain")
    ensures f.slots[ContentLengthIndex(Send)] == Some("0")
  {
    NewSendWithBody(destination, Some(""))
  }

  /** `new StompSendFrame(Destination, Body)`. */
  function NewSendWithBody(destination: Option<string>, body: Option<string>): (f: Frame)
    ensures f.kind == Send && f.extra == []
    ensures Get(f, Destination) == destination
    ensures body.None? ==> f.body == None && Get(f, ContentType) == None
    ensures body.None? ==> f.slots[ContentLengthIndex(Send)] == Some("0")
    ensures body.Some? ==> f.body == Some(Utf8.Encode(body.value)) && Get(f, ContentType) == Some("text/plain")
    ensures body.Some? ==> f.slots[ContentLengthIndex(Send)] == Some(Decimal(|Utf8.Encode(body.value)|))
    ensures Get(f, Receipt) == None && Get(f, TransactionId) == None
  {
    SetBodyText(Set(Fresh(Send), Destination, destination), body)
  }

  /** `new StompMessageFrame(SubscriptionId, Destination, MessageId, Ack)`; the id is stored as decimal text. */
  function NewMessage(subscription: Option<string>, destination: Option<string>, messageId: int, ack: Option<string>): (f: Frame)
    ensures f.kind == Message && f.extra == [] && f.body == None
    ensures Get(f, SubscriptionId) == subscription && Get(f, Destination) == destination
    ensures Get(f, MessageId) == Some(Decimal(messageId)) && Get(f, MessageAck) == ack
    ensures Get(f, ContentType) == None
  {
    RawFrame(Message, [subscription, destination, Some(Decimal(messageId)), ack, None, None, None, None], [], None)
  }

  /** `new StompSubscribeFrame(Destination, Id)`; the acknowledgement mode keeps its initializer. */
  function NewSubscribe(destination: Option<string>, id: Option<string>): (f: Frame)
    ensures f.kind == Subscribe && f.extra == [] && f.body == None
    ensures Get(f, Destination) == destination && Get(f, Id) == id
    ensures Get(f, AckSetting) == Some("client-individual")
  {
    Set(Set(Fresh(Subscribe), Destination, destination), Id, id)
  }

  /** `new StompAckFrame()`. */
  function NewAck(): (f: Frame)
    ensures f.kind == Ack && f.extra == [] && Get(f, Id) == None
  {
    Fresh(Ack)
  }

  /** `new StompNAckFrame()`. */
  function NewNAck(): (f: Frame)
    ensures f.kind == NAck && f.extra == [] && Get(f, Id) == None
  {
    Fresh(NAck)
  }

  /** `new StompNAckFrame(message)`: the id is the message's `ack` value. */
  function NewNAckFor(message: Frame): (f: Frame)
    requires message.kind == Message
    ensures f.kind == NAck && f.extra == []
    ensures Get(f, Id) == Get(message, MessageAck)
  {
    Set(Fresh(NAck), Id, Get(message, MessageAck))
  }
}
