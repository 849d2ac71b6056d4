/** What the seven frame classes' tables, defaults and constructors mean for `Serialize` and `Build`:
    which fresh frames can be written, which lines they write, what a parsed frame starts from, and how
    the hidden `id` of NACK behaves. */
module Variants {
  import opened Results
  import opened Text
  import Utf8
  import opened Kinds
  import opened Frames
  import opened StringReader
  import opened Codec
  import opened RoundTrip

  /** A string with a character that is not white space is not blank. */
  lemma NotBlank(s: string, i: nat)
    requires i < |s| && !IsWhiteSpace(s[i])
    ensures !IsBlank(Some(s))
  {
  }

  /** A fresh CONNECT has no host, and host is mandatory, so it cannot be written. */
  lemma FreshConnectNeedsHost()
    ensures Serialize(NewConnect()) == Failure(MissingRequiredHeader("host"))
  {
    var f := NewConnect();
    NotBlank("1.2", 0);
    assert Missing(Connect, f.slots, 1);
    assert forall i | 0 <= i < |f.slots| && i != 1 :: !Missing(Connect, f.slots, i);
  }

  /** ... and once Hostname holds a non-blank value it can. */
  lemma ConnectWithHost(host: string)
    requires !IsBlank(Some(host))
    ensures Serialize(Set(NewConnect(), Hostname, Some(host))).Success?
  {
    var f := Set(NewConnect(), Hostname, Some(host));
    NotBlank("1.2", 0);
    assert f.slots[0] == Some("1.2") && f.slots[1] == Some(host);
    assert !MissingMandatory(f);
  }

  /** A fresh CONNECTED can be written, and writes exactly its heartbeat, server and version defaults,
      in that order, and no session line. */
  lemma FreshConnectedLines()
    ensures Serialize(NewConnected()).Success?
    ensures Emitted(NewConnected()) == [("heartbeat", "0,0"), ("server", "Unknown/1.0"), ("version", "1.2")]
  {
    var f := NewConnected();
    ConnectedSlots();
    ConnectedChecked(f.slots);
    ConnectedFields(f.slots);
    assert Emitted(f) == EmittedFrom(Connected, f.slots, 0) + [];
  }

  /** The table and the initial field values of CONNECTED. */
  lemma ConnectedSlots()
    ensures Slots(Connected) ==
              [Optional("heartbeat", Some("0,0")), Optional("session", None), Optional("server", Some("Unknown/1.0")),
               Mandatory("version", Some("1.2")), Optional("receipt", None), Optional("transaction", None)]
    ensures NewConnected().slots == [Some("0,0"), None, Some("Unknown/1.0"), Some("1.2"), None, None]
  {
    var s := NewConnected().slots;
    assert |s| == 6 && s[1] == None && s[4] == None && s[5] == None;
  }

  /** No initial field value of CONNECTED stops `Serialize`. */
  lemma ConnectedChecked(s: seq<Option<string>>)
    requires Slots(Connected) ==
               [Optional("heartbeat", Some("0,0")), Optional("session", None), Optional("server", Some("Unknown/1.0")),
                Mandatory("version", Some("1.2")), Optional("receipt", None), Optional("transaction", None)]
    requires s == [Some("0,0"), None, Some("Unknown/1.0"), Some("1.2"), None, None]
    ensures forall i | 0 <= i < |s| :: !Missing(Connected, s, i)
  {
    NotBlank("1.2", 0);
  }

  /** The lines `Serialize` writes for the initial field values of CONNECTED. */
  lemma ConnectedFields(s: seq<Option<string>>)
    requires Slots(Connected) ==
               [Optional("heartbeat", Some("0,0")), Optional("session", None), Optional("server", Some("Unknown/1.0")),
                Mandatory("version", Some("1.2")), Optional("receipt", None), Optional("transaction", None)]
    requires s == [Some("0,0"), None, Some("Unknown/1.0"), Some("1.2"), None, None]
    ensures EmittedFrom(Connected, s, 0) == [("heartbeat", "0,0"), ("server", "Unknown/1.0"), ("version", "1.2")]
  {
    NotBlank("0,0", 0);
    NotBlank("Unknown/1.0", 0);
    NotBlank("1.2", 0);
    SkipsAt(Connected, s, 5);
    SkipsAt(Connected, s, 4);
    EmitsAt(Connected, s, 3);
    EmitsAt(Connected, s, 2);
    SkipsAt(Connected, s, 1);
    EmitsAt(Connected, s, 0);
  }

  /** In a freshly constructed frame a field is written out exactly when reflection sees it and its
      initializer is not null. */
  lemma FreshEmits(k: Kind, i: nat)
    requires i < |Slots(k)|
    ensures Emits(k, Fresh(k).slots, i) <==> Slots(k)[i].visible && Slots(k)[i].default.Some?
  {
    DefaultsPresentOrAbsent(k, i);
  }

  /** A packet of a header-only frame type whose text is its keyword line, well-formed header lines and a
      blank line parses to the fresh frame of that type with the lines folded in, in order. */
  lemma {:induction false} BuildLines(packet: seq<Utf8.byte>, k: Kind, lines: seq<Header>)
    requires Instantiable(k) && !Bodied(k) && |lines| > 0 && CleanLines(lines)
    requires Utf8.Decode(packet) == Keyword(k) + "\n" + (Join(lines) + "\n")
    ensures Build(packet) == Success(Fold(Fresh(k), lines))
  {
    var text := Utf8.Decode(packet);
    var c := |Keyword(k)| + 1;
    JoinNonEmpty(lines);
    CommandLineOf(k, Join(lines) + "\n");
    LookupKeyword(k);
    assert text[c..] == Join(lines) + "\n";
    LayoutOf(text, c, lines, "\n");
    ReadLines(text, c, Fresh(k), lines, "\n");
    BuildFrom(packet, k, Fold(Fresh(k), lines), c + |Join(lines)| + 1);
  }

  /** Folding header lines leaves field `i` alone when no line carries its keyword. */
  lemma {:induction false} FoldKeeps(f: Frame, lines: seq<Header>, i: nat)
    requires i < |f.slots|
    requires forall j | 0 <= j < |lines| :: lines[j].0 != Slots(f.kind)[i].keyword
    ensures Fold(f, lines).kind == f.kind && Fold(f, lines).slots[i] == f.slots[i]
    decreases |lines|
  {
    if |lines| > 0 {
      var g := Assign(f, lines[0].0, lines[0].1);
      assert g.slots[i] == f.slots[i] by {
        if FindSlot(f.kind, lines[0].0).Some? {
          assert FindSlot(f.kind, lines[0].0).value != i;
        }
      }
      assert forall j | 0 <= j < |lines| - 1 :: lines[1..][j] == lines[j + 1];
      FoldKeeps(g, lines[1..], i);
    }
  }

  /** A field that no header line of the packet names keeps the initializer of the frame's class. */
  lemma {:induction false} ParsedKeepsDefault(packet: seq<Utf8.byte>, k: Kind, lines: seq<Header>, i: nat)
    requires Instantiable(k) && !Bodied(k) && |lines| > 0 && CleanLines(lines) && i < |Slots(k)|
    requires forall j | 0 <= j < |lines| :: lines[j].0 != Slots(k)[i].keyword
    requires Utf8.Decode(packet) == Keyword(k) + "\n" + (Join(lines) + "\n")
    ensures Build(packet).Success? && Build(packet).value.kind == k
    ensures Build(packet).value.slots[i] == Slots(k)[i].default
  {
    BuildLines(packet, k, lines);
    FoldKeeps(Fresh(k), lines, i);
  }

  /** In particular, a CONNECTED packet without a `version` line parses to a frame whose Version is the
      initializer `1.2`. */
  lemma {:induction false} ParsedConnectedKeepsVersion(packet: seq<Utf8.byte>, lines: seq<Header>) returns (f: Frame)
    requires |lines| > 0 && CleanLines(lines)
    requires forall j | 0 <= j < |lines| :: lines[j].0 != "version"
    requires Utf8.Decode(packet) == Keyword(Connected) + "\n" + (Join(lines) + "\n")
    ensures Build(packet) == Success(f) && f.kind == Connected && HasProperty(f.kind, Version)
    ensures Get(f, Version) == Some("1.2")
  {
    VersionSlot();
    ParsedKeepsDefault(packet, Connected, lines, 3);
    f := Build(packet).value;
  }

  /** Version is field 3 of CONNECTED, keyword `version`, initializer `1.2`. */
  lemma VersionSlot()
    ensures HasProperty(Connected, Version) && Index(Connected, Version) == 3
    ensures Slots(Connected)[3].keyword == "version" && Slots(Connected)[3].default == Some("1.2")
  {
    ConnectedSlots();
  }

  /** A first line that names no registered frame type is refused with that (upper-cased) line, whatever
      follows it. */
  lemma UnknownKeywordRefused(packet: seq<Utf8.byte>)
    requires Lookup(CommandLine(Utf8.Decode(packet)).0).None?
    ensures Build(packet) == Failure(UnknownFrameType(CommandLine(Utf8.Decode(packet)).0))
  {
  }

  /** For example, the packet `FOO` followed by a blank line is refused as `FOO`. */
  lemma UnknownKeywordLine(packet: seq<Utf8.byte>)
    requires Utf8.Decode(packet) == "FOO\n\n"
    ensures CommandLine(Utf8.Decode(packet)).0 == "FOO" && Lookup("FOO").None?
    ensures Build(packet) == Failure(UnknownFrameType("FOO"))
  {
    var text := Utf8.Decode(packet);
    FirstOfAt(text, 0, LineBreaks, 3);
    assert text[..3] == "FOO";
    assert Upper("FOO") == "FOO";
  }

  /** MESSAGE and SUBSCRIBE have no parameterless constructor, so `Build` cannot make either: every
      packet whose first line names one of them fails, whatever follows. */
  lemma MessageNotBuilt(packet: seq<Utf8.byte>)
    requires Lookup(CommandLine(Utf8.Decode(packet)).0) == Some(Message)
    ensures Build(packet) == Failure(NotInstantiable(Message))
  {
  }

  lemma SubscribeNotBuilt(packet: seq<Utf8.byte>)
    requires Lookup(CommandLine(Utf8.Decode(packet)).0) == Some(Subscribe)
    ensures Build(packet) == Failure(NotInstantiable(Subscribe))
  {
  }

  /** The packet `MESSAGE` followed by a blank line is such a packet. */
  lemma MessageKeywordLine(packet: seq<Utf8.byte>)
    requires Utf8.Decode(packet) == "MESSAGE\n\n"
    ensures Lookup(CommandLine(Utf8.Decode(packet)).0) == Some(Message)
    ensures Build(packet) == Failure(NotInstantiable(Message))
  {
    var text := Utf8.Decode(packet);
    FirstOfAt(text, 0, LineBreaks, 7);
    assert text[..7] == Keyword(Message);
    UpperKeyword(Message);
  }

  /** A MESSAGE made by its constructor has no content type, so it cannot be written even with every
      other field set; without an Ack it cannot be written either. */
  lemma MessageNeedsContentType(subscription: string, destination: string, id: int, ack: string)
    requires !IsBlank(Some(subscription)) && !IsBlank(Some(destination)) && !IsBlank(Some(ack))
    ensures Serialize(NewMessage(Some(subscription), Some(destination), id, Some(ack))) ==
              Failure(MissingRequiredHeader("content-type"))
    ensures Serialize(NewMessage(Some(subscription), Some(destination), id, None)).Failure?
  {
    var f := NewMessage(Some(subscription), Some(destination), id, Some(ack));
    DecimalNotBlank(id);
    assert Missing(Message, f.slots, 4);
    assert forall i | 0 <= i < |f.slots| && i != 4 :: !Missing(Message, f.slots, i);
    var g := NewMessage(Some(subscription), Some(destination), id, None);
    assert Missing(Message, g.slots, 3);
  }

  /** A SUBSCRIBE made by its constructor with a destination and an id can be written, and writes the
      `ack:client-individual` line its getter-only AckSetting always carries. */
  lemma SubscribeWritesAck(destination: string, id: string)
    requires !IsBlank(Some(destination)) && !IsBlank(Some(id))
    ensures Serialize(NewSubscribe(Some(destination), Some(id))).Success?
    ensures Emitted(NewSubscribe(Some(destination), Some(id))) ==
              [("destination", destination), ("id", id), ("ack", "client-individual")]
  {
    var f := NewSubscribe(Some(destination), Some(id));
    SubscribeSlots(destination, id);
    SubscribeFields(f.slots, destination, id);
    assert Emitted(f) == EmittedFrom(Subscribe, f.slots, 0) + [];
  }

  /** The lines and the check of `Serialize` over the field values of the SUBSCRIBE above. */
  lemma SubscribeFields(s: seq<Option<string>>, destination: string, id: string)
    requires Slots(Subscribe) ==
               [Mandatory("destination", None), Mandatory("id", None), Optional("ack", Some("client-individual")),
                Optional("receipt", None), Optional("transaction", None)]
    requires !IsBlank(Some(destination)) && !IsBlank(Some(id))
    requires s == [Some(destination), Some(id), Some("client-individual"), None, None]
    ensures forall i | 0 <= i < |s| :: !Missing(Subscribe, s, i)
    ensures EmittedFrom(Subscribe, s, 0) == [("destination", destination), ("id", id), ("ack", "client-individual")]
  {
    NotBlank("client-individual", 0);
    SkipsAt(Subscribe, s, 4);
    SkipsAt(Subscribe, s, 3);
    EmitsAt(Subscribe, s, 2);
    EmitsAt(Subscribe, s, 1);
    EmitsAt(Subscribe, s, 0);
  }

  /** The table and the field values of the SUBSCRIBE above. */
  lemma SubscribeSlots(destination: string, id: string)
    ensures Slots(Subscribe) ==
              [Mandatory("destination", None), Mandatory("id", None), Optional("ack", Some("client-individual")),
               Optional("receipt", None), Optional("transaction", None)]
    ensures NewSubscribe(Some(destination), Some(id)).slots ==
              [Some(destination), Some(id), Some("client-individual"), None, None]
  {
    var s := NewSubscribe(Some(destination), Some(id)).slots;
    assert |s| == 5 && s[3] == None && s[4] == None;
  }

  /** One step of `EmittedFrom` over a field that is written ... */
  lemma EmitsAt(k: Kind, slots: seq<Option<string>>, i: nat)
    requires |slots| == |Slots(k)| && i < |slots| && Emits(k, slots, i)
    ensures EmittedFrom(k, slots, i) == [(Slots(k)[i].keyword, slots[i].value)] + EmittedFrom(k, slots, i + 1)
  {
  }

  /** ... and over one that is not. */
  lemma SkipsAt(k: Kind, slots: seq<Option<string>>, i: nat)
    requires |slots| == |Slots(k)| && i < |slots| && !Emits(k, slots, i)
    ensures EmittedFrom(k, slots, i) == EmittedFrom(k, slots, i + 1)
  {
  }

  /** A fresh ACK cannot be written until its Id is set. */
  lemma AckNeedsId(id: string)
    requires !IsBlank(Some(id))
    ensures Serialize(NewAck()) == Failure(MissingRequiredHeader("id"))
    ensures Serialize(Set(NewAck(), Id, Some(id))).Success?
  {
    var f := NewAck();
    assert Missing(Ack, f.slots, 0);
    assert forall i | 0 <= i < |f.slots| && i != 0 :: !Missing(Ack, f.slots, i);
    assert !MissingMandatory(Set(NewAck(), Id, Some(id)));
  }

  /** NACK's `id` is invisible to reflection: no NACK ever writes an `id` line from its field, a NACK
      without an id is written without complaint, and an `id` line read back lands among the
      additional headers. */
  lemma NAckHidesId(f: Frame, v: string)
    requires f.kind == NAck
    ensures forall j | 0 <= j < |EmittedFrom(NAck, f.slots, 0)| :: EmittedFrom(NAck, f.slots, 0)[j].0 != "id"
    ensures Serialize(NewNAck()).Success?
    ensures Assign(f, "id", v) == f.(extra := f.extra + [("id", v)])
  {
    NeverEmitted(NAck, f.slots, 0, "id");
    assert !MissingMandatory(NewNAck());
  }

  /** A key that no field from `i` on which reflection sees carries is never written from those fields. */
  lemma {:induction false} NeverEmitted(k: Kind, slots: seq<Option<string>>, i: nat, key: string)
    requires |slots| == |Slots(k)| && i <= |slots|
    requires forall m | i <= m < |slots| :: Slots(k)[m].visible ==> Slots(k)[m].keyword != key
    ensures forall j | 0 <= j < |EmittedFrom(k, slots, i)| :: EmittedFrom(k, slots, i)[j].0 != key
    decreases |slots| - i
  {
    if i < |slots| {
      NeverEmitted(k, slots, i + 1, key);
      var e, rest := EmittedFrom(k, slots, i), EmittedFrom(k, slots, i + 1);
      if Emits(k, slots, i) {
        assert e == [(Slots(k)[i].keyword, slots[i].value)] + rest;
        assert forall j | 1 <= j < |e| :: e[j] == rest[j - 1];
      } else {
        assert e == rest;
      }
    }
  }

  /** A later header line for a visible field overwrites the earlier one; a later line for any other
      key is appended after it. */
  lemma RepeatedKey(f: Frame, key: string, v1: string, v2: string)
    ensures FindSlot(f.kind, key).Some? ==> Assign(Assign(f, key, v1), key, v2) == Assign(f, key, v2)
    ensures FindSlot(f.kind, key).None? ==>
              Assign(Assign(f, key, v1), key, v2) == f.(extra := f.extra + [(key, v1), (key, v2)])
  {
  }
}
