/** `StompFrame.Serialize` and `StompFrame.Build`: the frame encoder and parser. */
module Codec {
  import opened Results
  import opened Text
  import Utf8
  import opened Kinds
  import opened Frames
  import opened StringReader

  type byte = Utf8.byte

  datatype FrameError =
    | MissingRequiredHeader(keyword: string)  // a mandatory field is null or white space
    | UnknownFrameType(word: string)          // the first line is not a registered keyword
    | NotInstantiable(kind: Kind)             // the class has no parameterless constructor
    | BodyOutOfRange                          // the re-encoded header text is longer than the packet

  /** One header line on the wire. */
  function Line(h: Header): string {
    h.0 + ":" + h.1 + "\n"
  }

  /** The given pairs as consecutive `key:value` lines; also the loop over `AdditionalHeaders` in
      `Serialize`. */
  function Join(lines: seq<Header>): string
    decreases |lines|
  {
    if |lines| == 0 then "" else Line(lines[0]) + Join(lines[1..])
  }

  /** Field `i` of a frame is written out: reflection sees it and it is not blank. */
  predicate Emits(k: Kind, slots: seq<Option<string>>, i: nat)
    requires |slots| == |Slots(k)| && i < |slots|
  {
    Slots(k)[i].visible && !IsBlank(slots[i])
  }

  /** Field `i` stops serialization: reflection sees it, it is mandatory, and it is blank. */
  predicate Missing(k: Kind, slots: seq<Option<string>>, i: nat)
    requires |slots| == |Slots(k)| && i < |slots|
  {
    Slots(k)[i].visible && !Slots(k)[i].optional && IsBlank(slots[i])
  }

  /** The (keyword, value) pairs of the fields from `i` on that are written out, in table order. */
  function EmittedFrom(k: Kind, slots: seq<Option<string>>, i: nat): seq<Header>
    requires |slots| == |Slots(k)| && i <= |slots|
    decreases |slots| - i
  {
    if i == |slots| then []
    else if Emits(k, slots, i) then [(Slots(k)[i].keyword, slots[i].value)] + EmittedFrom(k, slots, i + 1)
    else EmittedFrom(k, slots, i + 1)
  }

  /** Every header line a frame writes: its emitted fields, then its additional headers. */
  function Emitted(f: Frame): seq<Header> {
    EmittedFrom(f.kind, f.slots, 0) + f.extra
  }

  /** Some field of the frame stops serialization. */
  predicate MissingMandatory(f: Frame) {
    exists i | 0 <= i < |f.slots| :: Missing(f.kind, f.slots, i)
  }

  /** A bodied frame with a non-null body: only these get a blank line and body bytes. */
  predicate WritesBody(f: Frame) {
    Bodied(f.kind) && f.body.Some?
  }

  /** The loop over the header fields in `Serialize`, from field `i` on: a blank optional field is
      skipped, a blank mandatory one aborts, any other appends `keyword:value`. */
  function FieldLines(k: Kind, slots: seq<Option<string>>, i: nat): (r: Result<string, FrameError>)
    requires |slots| == |Slots(k)| && i <= |slots|
    ensures r.Failure? <==> exists j | i <= j < |slots| :: Missing(k, slots, j)
    ensures r.Failure? ==> exists j | i <= j < |slots| ::
              Missing(k, slots, j) && r.error == MissingRequiredHeader(Slots(k)[j].keyword)
    ensures r.Success? ==> r.value == Join(EmittedFrom(k, slots, i))
    decreases |slots| - i
  {
    if i == |slots| then Success("")
    else
      var s := Slots(k)[i];
      if !s.visible then FieldLines(k, slots, i + 1)
      else if IsBlank(slots[i]) then
        if !s.optional then
          assert Missing(k, slots, i);
          Failure(MissingRequiredHeader(s.keyword))
        else FieldLines(k, slots, i + 1)
      else
        var rest :- FieldLines(k, slots, i + 1);
        Success(s.keyword + ":" + slots[i].value + "\n" + rest)
  }

  /** `StompFrame.Serialize`. The upper-cased keyword line, the header fields, the additional headers,
      and for a bodied frame with a body a blank line followed by the raw body bytes. */
  function Serialize(f: Frame): (r: Result<seq<byte>, FrameError>)
    ensures r.Failure? <==> MissingMandatory(f)
    ensures r.Failure? ==> exists i | 0 <= i < |f.slots| ::
              Missing(f.kind, f.slots, i) && r.error == MissingRequiredHeader(Slots(f.kind)[i].keyword)
    ensures r.Success? && WritesBody(f) ==>
              r.value == Utf8.Encode(Keyword(f.kind) + "\n" + Join(Emitted(f)) + "\n") + f.body.value
    ensures r.Success? && !WritesBody(f) ==>
              r.value == Utf8.Encode(Keyword(f.kind) + "\n" + Join(Emitted(f)))
  {
    var fields :- FieldLines(f.kind, f.slots, 0);
    var header := Upper(Keyword(f.kind)) + "\n" + fields + Join(f.extra);
    UpperKeyword(f.kind);
    JoinAppend(EmittedFrom(f.kind, f.slots, 0), f.extra);
    assert header == Keyword(f.kind) + "\n" + Join(Emitted(f));
    if WritesBody(f) then Success(Utf8.Encode(header + "\n") + f.body.value)
    else Success(Utf8.Encode(header))
  }

  /** The registered keywords are already upper case. */
  lemma UpperKeyword(k: Kind)
    ensures Upper(Keyword(k)) == Keyword(k)
  {
  }

  lemma {:induction false} JoinAppend(a: seq<Header>, b: seq<Header>)
    ensures Join(a + b) == Join(a) + Join(b)
    decreases |a|
  {
    if |a| > 0 {
      assert (a + b)[1..] == a[1..] + b;
      JoinAppend(a[1..], b);
    } else {
      assert a + b == b;
    }
  }

  /** The header branch of `Build`: a key that names a field reflection sees sets that field; any other
      key is appended to the additional headers. */
  function Assign(f: Frame, key: string, value: string): (g: Frame)
    ensures g.kind == f.kind && g.body == f.body
    ensures FindSlot(f.kind, key).Some? ==>
              g.extra == f.extra && g.slots == f.slots[FindSlot(f.kind, key).value := Some(value)]
    ensures FindSlot(f.kind, key).None? ==> g.slots == f.slots && g.extra == f.extra + [(key, value)]
  {
    match FindSlot(f.kind, key)
    case Some(i) => WithSlot(f, i, Some(value))
    case None => f.(extra := f.extra + [(key, value)])
  }

  /** One pass of the header loop of `Build`: read the key up to `:`, step over the colon, read the value
      up to a line break, store it, then skip the run of line breaks. Yields the updated frame, the
      length of that run and the reader after it. */
  function HeaderStep(r: Reader, f: Frame): (res: (Frame, nat, Reader))
    requires r.Valid()
    ensures res.2.Valid() && res.2.text == r.text && r.cursor <= res.2.cursor
    ensures res.0.kind == f.kind && res.0.body == f.body && |f.extra| <= |res.0.extra|
  {
    var (key, r1) := r.ReadUntil({':'});
    var r2 := r1.Shuttle();
    var (value, r3) := r2.ReadUntil(LineBreaks);
    var (run, r4) := r3.SkipThrough(LineBreaks);
    (Assign(f, key, value), run, r4)
  }

  /** The header loop of `Build`: it goes on while the run of line breaks after a header is shorter
      than two and input remains. */
  function ReadHeaders(r: Reader, f: Frame): (res: (Frame, Reader))
    requires r.Valid()
    ensures res.1.Valid() && res.1.text == r.text && r.cursor <= res.1.cursor
    ensures res.0.kind == f.kind && res.0.body == f.body
    ensures |f.extra| <= |res.0.extra|
    decreases |r.text| - r.cursor
  {
    var (g, run, next) := HeaderStep(r, f);
    if run < 2 && !next.EOF() then ReadHeaders(next, g) else (g, next)
  }

  /** The first line of the decoded packet, upper-cased, and the reader positioned after its line breaks. */
  function CommandLine(text: string): (res: (string, Reader))
    ensures res.1.Valid() && res.1.text == text
  {
    var (first, r1) := Reader(text, 0).ReadUntil(LineBreaks);
    var (_, r2) := r1.SkipThrough(LineBreaks);
    (Upper(first), r2)
  }

  /** `StompFrame.Build`. Decode the packet, look up the upper-cased first line, instantiate the class
      with its parameterless constructor, read the headers, and for a bodied class take every byte after
      the consumed header text as the body. */
  function Build(packet: seq<byte>): (r: Result<Frame, FrameError>)
    ensures Lookup(CommandLine(Utf8.Decode(packet)).0).None? <==> r == Failure(UnknownFrameType(CommandLine(Utf8.Decode(packet)).0))
    ensures r.Success? ==> Lookup(CommandLine(Utf8.Decode(packet)).0) == Some(r.value.kind) && Instantiable(r.value.kind)
    ensures forall k: Kind | Lookup(CommandLine(Utf8.Decode(packet)).0) == Some(k) && !Instantiable(k) ::
              r == Failure(NotInstantiable(k))
    ensures r.Success? && Bodied(r.value.kind) ==> r.value.body.Some? && |r.value.body.value| <= |packet| && r.value.body.value == packet[|packet| - |r.value.body.value|..]
    ensures r.Success? && !Bodied(r.value.kind) ==> r.value.body.None?
  {
    var text := Utf8.Decode(packet);
    var (word, r2) := CommandLine(text);
    match Lookup(word)
    case None => Failure(UnknownFrameType(word))
    case Some(kind) =>
      if !Instantiable(kind) then Failure(NotInstantiable(kind))
      else
        var (frame, r3) := ReadHeaders(r2, Fresh(kind));
        if Bodied(kind) then
          var bytePtr := |Utf8.Encode(text[..r3.cursor])|;
          if bytePtr > |packet| then Failure(BodyOutOfRange)
          else Success(frame.(body := Some(packet[bytePtr..])))
        else Success(frame)
  }
}
