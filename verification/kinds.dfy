/** The seven frame variants as static header tables: the `StompFrameType` keyword of each class, the
    `StompHeaderIdentifier` fields reflection finds on it, and the registry keyed by keyword. */
module Kinds {
  import opened Results
  import opened Text

  datatype Kind = Connect | Connected | Send | Message | Subscribe | Ack | NAck

  /** One header field: its wire keyword, whether it may be left blank, the value its field initializer
      gives it, and whether reflection on the concrete class sees it. */
  datatype Slot = Slot(keyword: string, optional: bool, default: Option<string>, visible: bool)

  function Mandatory(keyword: string, default: Option<string>): Slot {
    Slot(keyword, false, default, true)
  }

  function Optional(keyword: string, default: Option<string>): Slot {
    Slot(keyword, true, default, true)
  }

  /** The `StompFrameType` keyword of each frame class. */
  function Keyword(k: Kind): string {
    match k
    case Connect => "CONNECT"
    case Connected => "CONNECTED"
    case Send => "SEND"
    case Message => "MESSAGE"
    case Subscribe => "SUBSCRIBE"
    case Ack => "ACK"
    case NAck => "NACK"
  }

  /** Frames deriving from `StompBodiedFrame`. */
  predicate Bodied(k: Kind) {
    k == Send || k == Message
  }

  /** Whether `Activator.CreateInstance(type, true)` finds a parameterless constructor. */
  predicate Instantiable(k: Kind) {
    k != Message && k != Subscribe
  }

  /** The `receipt` and `transaction` fields every frame inherits from `StompFrame`. */
  const BaseSlots: seq<Slot> := [Optional("receipt", None), Optional("transaction", None)]

  /** The `content-type` (mandatory) and `content-length` (optional) fields of `StompBodiedFrame`. */
  const BodySlots: seq<Slot> := [Mandatory("content-type", None), Optional("content-length", None)]

  /** The header fields of each class in the one order fixed for it: the class's own fields in declaration
      order, then those of `StompBodiedFrame`, then those of `StompFrame`. The `id` field of ACK is private
      to `StompAckFrame`, so reflection on `StompNAckFrame` does not see it. */
  function Slots(k: Kind): seq<Slot> {
    match k
    case Connect =>
      [Mandatory("accept-version", Some("1.2")), Mandatory("host", None), Optional("login", None),
       Optional("password", None), Optional("heart-beat", None)] + BaseSlots
    case Connected =>
      [Optional("heartbeat", Some("0,0")), Optional("session", None), Optional("server", Some("Unknown/1.0")),
       Mandatory("version", Some("1.2"))] + BaseSlots
    case Send => [Mandatory("destination", None)] + BodySlots + BaseSlots
    case Message =>
      [Mandatory("subscription", None), Mandatory("destination", None), Mandatory("message-id", None),
       Mandatory("ack", None)] + BodySlots + BaseSlots
    case Subscribe =>
      [Mandatory("destination", None), Mandatory("id", None), Optional("ack", Some("client-individual"))]
      + BaseSlots
    case Ack => [Mandatory("id", None)] + BaseSlots
    case NAck => [Slot("id", false, None, false)] + BaseSlots
  }

  /** The frame type dictionary: upper-case keyword to frame class. */
  function Lookup(word: string): (r: Option<Kind>)
    ensures r.Some? ==> Keyword(r.value) == word
    ensures r.None? ==> forall k: Kind :: Keyword(k) != word
  {
    if word == "CONNECT" then Some(Connect)
    else if word == "CONNECTED" then Some(Connected)
    else if word == "SEND" then Some(Send)
    else if word == "MESSAGE" then Some(Message)
    else if word == "SUBSCRIBE" then Some(Subscribe)
    else if word == "ACK" then Some(Ack)
    else if word == "NACK" then Some(NAck)
    else None
  }

  /** `HeaderSearchFilter` applied to a class: the first field reflection sees whose keyword equals `key`
      exactly (case-sensitively). */
  function FindSlot(k: Kind, key: string): (r: Option<nat>)
    ensures r.Some? ==> r.value < |Slots(k)| && Slots(k)[r.value].visible && Slots(k)[r.value].keyword == key
    ensures r.None? ==> forall i | 0 <= i < |Slots(k)| :: !(Slots(k)[i].visible && Slots(k)[i].keyword == key)
  {
    FindFrom(Slots(k), key, 0)
  }

  function FindFrom(slots: seq<Slot>, key: string, i: nat): (r: Option<nat>)
    requires i <= |slots|
    ensures r.Some? ==> i <= r.value < |slots| && slots[r.value].visible && slots[r.value].keyword == key
    ensures r.Some? ==> forall j | i <= j < r.value :: !(slots[j].visible && slots[j].keyword == key)
    ensures r.None? ==> forall j | i <= j < |slots| :: !(slots[j].visible && slots[j].keyword == key)
    decreases |slots| - i
  {
    if i == |slots| then None
    else if slots[i].visible && slots[i].keyword == key then Some(i)
    else FindFrom(slots, key, i + 1)
  }

  /** Position of the first field, visible or not, whose keyword is `key`. */
  function Position(slots: seq<Slot>, key: string, i: nat): (r: Option<nat>)
    requires i <= |slots|
    ensures r.Some? ==> i <= r.value < |slots| && slots[r.value].keyword == key
    ensures r.None? ==> forall j | i <= j < |slots| :: slots[j].keyword != key
    decreases |slots| - i
  {
    if i == |slots| then None
    else if slots[i].keyword == key then Some(i)
    else Position(slots, key, i + 1)
  }

  /** The field of class `k` declared with keyword `key`, whatever its visibility. */
  function SlotIndex(k: Kind, key: string): (r: Option<nat>)
    ensures r.Some? ==> r.value < |Slots(k)| && Slots(k)[r.value].keyword == key
    ensures r.None? ==> forall j | 0 <= j < |Slots(k)| :: Slots(k)[j].keyword != key
  {
    Position(Slots(k), key, 0)
  }

  /** Within one class the keywords are pairwise distinct. */
  predicate DistinctKeywords(slots: seq<Slot>) {
    forall i, j | 0 <= i < j < |slots| :: slots[i].keyword != slots[j].keyword
  }

  /** Every table declares each keyword once. */
  lemma SlotsDistinct(k: Kind)
    ensures DistinctKeywords(Slots(k))
  {
    var s := Slots(k);
    forall i, j | 0 <= i < j < |s| ensures s[i].keyword != s[j].keyword {
      assert s[i].keyword[..] != s[j].keyword[..];
    }
  }

  /** Looking a visible field's keyword up finds that very field. */
  lemma FindOwnSlot(k: Kind, i: nat)
    requires i < |Slots(k)| && Slots(k)[i].visible
    ensures FindSlot(k, Slots(k)[i].keyword) == Some(i)
  {
    SlotsDistinct(k);
  }

  /** The registry is the inverse of the keyword table, and every keyword is already upper case. */
  lemma LookupKeyword(k: Kind)
    ensures Lookup(Keyword(k)) == Some(k)
  {
  }

  /** Each field initializer is either null or a value that is not blank, so a visible field left at
      its initializer is written out exactly when that initializer is present. */
  lemma DefaultsPresentOrAbsent(k: Kind, i: nat)
    requires i < |Slots(k)|
    ensures Slots(k)[i].default.Some? ==> !IsBlank(Slots(k)[i].default)
  {
    var d := Slots(k)[i].default;
    if d.Some? {
      assert !IsWhiteSpace(d.value[0]);
    }
  }
}
