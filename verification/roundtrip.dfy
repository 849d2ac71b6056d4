/** `Build` undoes `Serialize`: the frame parser reads back every field, additional header and body the
    encoder wrote, for every frame satisfying `RoundTripSafe`. */
module RoundTrip {
  import opened Results
  import opened Text
  import Utf8
  import opened Kinds
  import opened Frames
  import opened StringReader
  import opened Codec

  /** A header key the parser reads back whole: no colon, no line break. */
  predicate CleanKey(key: string) {
    forall i | 0 <= i < |key| :: key[i] != ':' && key[i] !in LineBreaks
  }

  predicate CleanLines(lines: seq<Header>) {
    forall j | 0 <= j < |lines| :: CleanKey(lines[j].0) && !HasLineBreak(lines[j].1)
  }

  /** The state the header loop of `Build` reaches after the given lines, one `Assign` per line. */
  function Fold(f: Frame, lines: seq<Header>): Frame
    decreases |lines|
  {
    if |lines| == 0 then f else Fold(Assign(f, lines[0].0, lines[0].1), lines[1..])
  }

  /** What a frame must satisfy to come back unchanged from `Build(Serialize(f))`:
      - its class can be instantiated by `Build` and nothing mandatory is blank;
      - a field that is not written out (blank, or hidden from reflection) holds its initializer;
      - written values and additional values hold no line break, additional keys no colon or line
        break, and no additional key names a visible field;
      - at least one header line is written;
      - a bodied frame has a body, and the body does not start with CR or LF. */
  predicate RoundTripSafe(f: Frame) {
    && Instantiable(f.kind)
    && !MissingMandatory(f)
    && (forall i | 0 <= i < |f.slots| :: !Emits(f.kind, f.slots, i) ==> f.slots[i] == Slots(f.kind)[i].default)
    && (forall i | 0 <= i < |f.slots| :: Emits(f.kind, f.slots, i) ==> !HasLineBreak(f.slots[i].value))
    && (forall j | 0 <= j < |f.extra| ::
          CleanKey(f.extra[j].0) && !HasLineBreak(f.extra[j].1) && FindSlot(f.kind, f.extra[j].0).None?)
    && |Emitted(f)| > 0
    && (Bodied(f.kind) ==> f.body.Some? && (|f.body.value| > 0 ==> f.body.value[0] != 0x0A && f.body.value[0] != 0x0D))
  }

  // ---- text layout ----

  /** `text` holds, from position `c` on, the given header lines one after another and then `rest`. */
  predicate Layout(text: string, c: nat, lines: seq<Header>, rest: string)
    decreases |lines|
  {
    if |lines| == 0 then c <= |text| && text[c..] == rest
    else
      && c + |Line(lines[0])| <= |text|
      && text[c..c + |Line(lines[0])|] == Line(lines[0])
      && Layout(text, c + |Line(lines[0])|, lines[1..], rest)
  }

  lemma {:induction false} LayoutOf(text: string, c: nat, lines: seq<Header>, rest: string)
    requires c <= |text| && text[c..] == Join(lines) + rest
    ensures Layout(text, c, lines, rest)
    decreases |lines|
  {
    if |lines| > 0 {
      var h := lines[0];
      assert Join(lines) + rest == Line(h) + (Join(lines[1..]) + rest);
      SliceSplit(text, c, Line(h), Join(lines[1..]) + rest);
      LayoutOf(text, c + |Line(h)|, lines[1..], rest);
    }
  }

  lemma SliceSplit(text: string, c: nat, a: string, b: string)
    requires c <= |text| && text[c..] == a + b
    ensures c + |a| <= |text| && text[c..c + |a|] == a && text[c + |a|..] == b
  {
    assert text[c..c + |a|] == text[c..][..|a|];
    assert text[c + |a|..] == text[c..][|a|..];
  }

  lemma LineLayout(text: string, c: nat, h: Header)
    requires c + |Line(h)| <= |text| && text[c..c + |Line(h)|] == Line(h)
    ensures forall j | 0 <= j < |h.0| :: text[c + j] == h.0[j]
    ensures text[c + |h.0|] == ':'
    ensures forall j | 0 <= j < |h.1| :: text[c + |h.0| + 1 + j] == h.1[j]
    ensures text[c + |h.0| + 1 + |h.1|] == '\n'
  {
    var w := text[c..c + |Line(h)|];
    assert w == h.0 + ":" + h.1 + "\n";
    forall j | 0 <= j < |h.0| ensures text[c + j] == h.0[j] {
      assert text[c + j] == w[j];
    }
    assert text[c + |h.0|] == w[|h.0|];
    forall j | 0 <= j < |h.1| ensures text[c + |h.0| + 1 + j] == h.1[j] {
      assert text[c + |h.0| + 1 + j] == w[|h.0| + 1 + j];
    }
    assert text[c + |h.0| + 1 + |h.1|] == w[|h.0| + 1 + |h.1|];
  }

  /** A header line with a clean key starts with neither CR nor LF. */
  lemma LineStart(h: Header)
    requires CleanKey(h.0)
    ensures |Line(h)| > 0 && Line(h)[0] !in LineBreaks
  {
    if |h.0| > 0 {
      assert Line(h)[0] == h.0[0];
    } else {
      assert Line(h)[0] == ':';
    }
  }

  lemma JoinNonEmpty(lines: seq<Header>)
    requires |lines| > 0 && CleanLines(lines)
    ensures |Join(lines)| > 0 && Join(lines)[0] !in LineBreaks
  {
    LineStart(lines[0]);
    assert Join(lines) == Line(lines[0]) + Join(lines[1..]);
    assert Join(lines)[0] == Line(lines[0])[0];
  }

  /** One pass of the header loop over a well-formed line `key:value\n`: it stores the pair and then
      skips the line breaks that start at the line's final LF. */
  lemma HeaderStepAt(text: string, c: nat, f: Frame, h: Header)
    requires c + |Line(h)| <= |text| && text[c..c + |Line(h)|] == Line(h)
    requires CleanKey(h.0) && !HasLineBreak(h.1)
    ensures text[c + |Line(h)| - 1] == LF
    ensures HeaderStep(Reader(text, c), f).0 == Assign(f, h.0, h.1)
    ensures HeaderStep(Reader(text, c), f).2
         == Reader(text, Reader.PastRun(text, c + |Line(h)| - 1, LineBreaks))
    ensures HeaderStep(Reader(text, c), f).1
         == Reader.PastRun(text, c + |Line(h)| - 1, LineBreaks) - (c + |Line(h)| - 1)
  {
    LineLayout(text, c, h);
    var e1 := c + |h.0|;
    var e3 := e1 + 1 + |h.1|;
    KeyRead(text, c, h);
    ValueRead(text, c, h);
    var (key, r1) := Reader(text, c).ReadUntil({':'});
    assert r1.Shuttle() == Reader(text, e1 + 1);
  }

  /** The key of a well-formed line is read up to its colon. */
  lemma KeyRead(text: string, c: nat, h: Header)
    requires c + |Line(h)| <= |text| && text[c..c + |Line(h)|] == Line(h) && CleanKey(h.0)
    ensures Reader(text, c).ReadUntil({':'}) == (h.0, Reader(text, c + |h.0|))
  {
    LineLayout(text, c, h);
    var e1 := c + |h.0|;
    forall k | c <= k < e1 ensures text[k] !in {':'} {
      assert text[c + (k - c)] == h.0[k - c];
    }
    FirstOfAt(text, c, {':'}, e1);
    assert text[c..e1] == h.0 by {
      forall j | 0 <= j < |h.0| ensures text[c..e1][j] == h.0[j] {
        assert text[c..e1][j] == text[c + j];
      }
    }
  }

  /** The value of a well-formed line is read from after the colon up to its LF. */
  lemma ValueRead(text: string, c: nat, h: Header)
    requires c + |Line(h)| <= |text| && text[c..c + |Line(h)|] == Line(h) && !HasLineBreak(h.1)
    ensures Reader(text, c + |h.0| + 1).ReadUntil(LineBreaks) == (h.1, Reader(text, c + |h.0| + 1 + |h.1|))
  {
    LineLayout(text, c, h);
    var e1 := c + |h.0|;
    var e3 := e1 + 1 + |h.1|;
    forall j | e1 + 1 <= j < e3 ensures text[j] !in LineBreaks {
      assert text[e1 + 1 + (j - e1 - 1)] == h.1[j - e1 - 1];
    }
    FirstOfAt(text, e1 + 1, LineBreaks, e3);
    assert text[e1 + 1..e3] == h.1 by {
      forall j | 0 <= j < |h.1| ensures text[e1 + 1..e3][j] == h.1[j] {
        assert text[e1 + 1..e3][j] == text[e1 + 1 + j];
      }
    }
  }

  /** The header loop of `Build` consumes well-formed header lines one per iteration and stops after the
      last one: at the end of the text, or on the blank line before a body that does not start with a
      line break. */
  lemma {:induction false} ReadLines(text: string, c: nat, f: Frame, lines: seq<Header>, rest: string)
    requires Layout(text, c, lines, rest)
    requires |lines| > 0 && CleanLines(lines)
    requires rest == "" || (rest[0] == LF && (|rest| == 1 || rest[1] !in LineBreaks))
    ensures ReadHeaders(Reader(text, c), f).0 == Fold(f, lines)
    ensures ReadHeaders(Reader(text, c), f).1 == Reader(text, c + |Join(lines)| + (if rest == "" then 0 else 1))
    decreases |lines|
  {
    var h := lines[0];
    var n := |Line(h)|;
    CleanTail(lines);
    assert Layout(text, c + n, lines[1..], rest);
    assert |Join(lines)| == n + |Join(lines[1..])|;
    if |lines| > 1 {
      var g := Assign(f, h.0, h.1);
      LayoutStart(text, c + n, lines[1..], rest);
      ReadHeadersNext(text, c, f, h);
      ReadLines(text, c + n, g, lines[1..], rest);
    } else {
      assert lines[1..] == [];
      ReadLastLine(text, c, f, h, rest);
    }
  }

  lemma CleanTail(lines: seq<Header>)
    requires |lines| > 0 && CleanLines(lines)
    ensures CleanKey(lines[0].0) && !HasLineBreak(lines[0].1) && CleanLines(lines[1..])
  {
    forall j | 0 <= j < |lines| - 1 ensures CleanKey(lines[1..][j].0) && !HasLineBreak(lines[1..][j].1) {
      assert lines[1..][j] == lines[j + 1];
    }
  }

  /** The first header line starts with neither CR nor LF, so it is not taken for the end of the headers. */
  lemma LayoutStart(text: string, c: nat, lines: seq<Header>, rest: string)
    requires Layout(text, c, lines, rest) && |lines| > 0 && CleanKey(lines[0].0)
    ensures c < |text| && text[c] !in LineBreaks
  {
    LineStart(lines[0]);
    assert text[c] == text[c..c + |Line(lines[0])|][0];
  }

  /** A header line followed by another one: the loop stores the pair and goes on at the next line. */
  lemma ReadHeadersNext(text: string, c: nat, f: Frame, h: Header)
    requires c + |Line(h)| < |text| && text[c..c + |Line(h)|] == Line(h)
    requires CleanKey(h.0) && !HasLineBreak(h.1)
    requires text[c + |Line(h)|] !in LineBreaks
    ensures ReadHeaders(Reader(text, c), f).0 == ReadHeaders(Reader(text, c + |Line(h)|), Assign(f, h.0, h.1)).0
    ensures ReadHeaders(Reader(text, c), f).1 == ReadHeaders(Reader(text, c + |Line(h)|), Assign(f, h.0, h.1)).1
  {
    HeaderStepAt(text, c, f, h);
    PastRunAt(text, c + |Line(h)| - 1, LineBreaks, c + |Line(h)|);
  }

  /** After the last header line the loop stops: at the end of the text, or after the blank line. */
  lemma ReadLastLine(text: string, c: nat, f: Frame, h: Header, rest: string)
    requires c + |Line(h)| <= |text| && text[c..c + |Line(h)|] == Line(h) && text[c + |Line(h)|..] == rest
    requires CleanKey(h.0) && !HasLineBreak(h.1)
    requires rest == "" || (rest[0] == LF && (|rest| == 1 || rest[1] !in LineBreaks))
    ensures ReadHeaders(Reader(text, c), f).0 == Assign(f, h.0, h.1)
    ensures ReadHeaders(Reader(text, c), f).1 == Reader(text, c + |Line(h)| + (if rest == "" then 0 else 1))
  {
    HeaderStepAt(text, c, f, h);
    var p := c + |Line(h)| - 1;
    assert |text| == p + 1 + |rest|;
    if rest == "" {
      PastRunAt(text, p, LineBreaks, p + 1);
    } else {
      assert text[p + 1] == rest[0];
      if |rest| > 1 {
        assert text[p + 2] == rest[1];
      }
      PastRunAt(text, p, LineBreaks, p + 2);
    }
  }

  /** The first line is the keyword; the reader then stands on the first header line. */
  lemma CommandLineOf(k: Kind, tail: string)
    requires |tail| > 0 && tail[0] !in LineBreaks
    ensures CommandLine(Keyword(k) + "\n" + tail) == (Keyword(k), Reader(Keyword(k) + "\n" + tail, |Keyword(k)| + 1))
  {
    var text := Keyword(k) + "\n" + tail;
    var n := |Keyword(k)|;
    assert forall j | 0 <= j < n :: text[j] == Keyword(k)[j] && text[j] !in LineBreaks;
    assert text[n] == LF;
    assert text[n + 1] == tail[0];
    FirstOfAt(text, 0, LineBreaks, n);
    PastRunAt(text, n, LineBreaks, n + 1);
    assert text[..n] == Keyword(k);
    UpperKeyword(k);
  }

  // ---- folding the header lines into a frame ----

  lemma {:induction false} FoldAppend(g: Frame, a: seq<Header>, b: seq<Header>)
    ensures Fold(g, a + b) == Fold(Fold(g, a), b)
    decreases |a|
  {
    if |a| > 0 {
      assert (a + b)[1..] == a[1..] + b;
      FoldAppend(Assign(g, a[0].0, a[0].1), a[1..], b);
    } else {
      assert a + b == b;
    }
  }

  /** `res` holds the emitted fields of `s` from `i` on and the values of `base` elsewhere. */
  predicate Overlaid(res: seq<Option<string>>, k: Kind, s: seq<Option<string>>, base: seq<Option<string>>, i: nat)
    requires |s| == |Slots(k)|
  {
    |res| == |s| && |base| == |s|
    && forall j | 0 <= j < |s| :: res[j] == (if i <= j && Emits(k, s, j) then s[j] else base[j])
  }

  /** Assigning the emitted fields from `i` on writes exactly those fields. */
  lemma {:induction false} FoldFields(f: Frame, g: Frame, i: nat)
    requires g.kind == f.kind && i <= |f.slots|
    ensures Fold(g, EmittedFrom(f.kind, f.slots, i)).kind == g.kind
    ensures Fold(g, EmittedFrom(f.kind, f.slots, i)).extra == g.extra
    ensures Fold(g, EmittedFrom(f.kind, f.slots, i)).body == g.body
    ensures Overlaid(Fold(g, EmittedFrom(f.kind, f.slots, i)).slots, f.kind, f.slots, g.slots, i)
    decreases |f.slots| - i
  {
    if i < |f.slots| {
      var rest := EmittedFrom(f.kind, f.slots, i + 1);
      if Emits(f.kind, f.slots, i) {
        var g' := FoldFieldStep(f, g, i);
        FoldFields(f, g', i + 1);
        OverlaidEmit(Fold(g', rest).slots, f.kind, f.slots, g.slots, i);
      } else {
        assert EmittedFrom(f.kind, f.slots, i) == rest;
        FoldFields(f, g, i + 1);
        OverlaidSkip(Fold(g, rest).slots, f.kind, f.slots, g.slots, i);
      }
    } else {
      assert EmittedFrom(f.kind, f.slots, i) == [];
      assert Fold(g, []) == g;
    }
  }

  lemma OverlaidEmit(res: seq<Option<string>>, k: Kind, s: seq<Option<string>>, base: seq<Option<string>>, i: nat)
    requires |s| == |Slots(k)| && |base| == |s| && i < |s| && Emits(k, s, i)
    requires Overlaid(res, k, s, base[i := s[i]], i + 1)
    ensures Overlaid(res, k, s, base, i)
  {
  }

  lemma OverlaidSkip(res: seq<Option<string>>, k: Kind, s: seq<Option<string>>, base: seq<Option<string>>, i: nat)
    requires |s| == |Slots(k)| && i < |s| && !Emits(k, s, i)
    requires Overlaid(res, k, s, base, i + 1)
    ensures Overlaid(res, k, s, base, i)
  {
  }

  /** One emitted field: its line sets that field and folding goes on with the rest. */
  lemma FoldFieldStep(f: Frame, g: Frame, i: nat) returns (g': Frame)
    requires g.kind == f.kind && i < |f.slots| && Emits(f.kind, f.slots, i)
    ensures g'.kind == g.kind && g'.extra == g.extra && g'.body == g.body
    ensures g'.slots == g.slots[i := f.slots[i]]
    ensures Fold(g, EmittedFrom(f.kind, f.slots, i)) == Fold(g', EmittedFrom(f.kind, f.slots, i + 1))
  {
    var rest := EmittedFrom(f.kind, f.slots, i + 1);
    var kw := Slots(f.kind)[i].keyword;
    var h: Header := (kw, f.slots[i].value);
    assert EmittedFrom(f.kind, f.slots, i) == [h] + rest;
    FindOwnSlot(f.kind, i);
    g' := Assign(g, kw, f.slots[i].value);
    assert ([h] + rest)[1..] == rest;
  }

  /** Additional headers whose keys name no visible field are appended in order. */
  lemma {:induction false} FoldExtras(g: Frame, extra: seq<Header>)
    requires forall j | 0 <= j < |extra| :: FindSlot(g.kind, extra[j].0).None?
    ensures Fold(g, extra) == g.(extra := g.extra + extra)
    decreases |extra|
  {
    if |extra| > 0 {
      var g' := Assign(g, extra[0].0, extra[0].1);
      assert g' == g.(extra := g.extra + [extra[0]]);
      assert Fold(g, extra) == Fold(g', extra[1..]);
      FoldExtras(g', extra[1..]);
      assert g.extra + [extra[0]] + extra[1..] == g.extra + extra;
    } else {
      assert g.extra + extra == g.extra;
    }
  }

  /** Reading back every emitted line into a fresh frame rebuilds the frame's fields and additional
      headers. */
  lemma FoldEmitted(f: Frame)
    requires RoundTripSafe(f)
    ensures Fold(Fresh(f.kind), Emitted(f)) == f.(body := None)
  {
    var fields := EmittedFrom(f.kind, f.slots, 0);
    FoldAppend(Fresh(f.kind), fields, f.extra);
    FoldFields(f, Fresh(f.kind), 0);
    var g := Fold(Fresh(f.kind), fields);
    assert Overlaid(g.slots, f.kind, f.slots, Fresh(f.kind).slots, 0);
    assert g.slots == f.slots;
    FoldExtras(g, f.extra);
  }

  lemma CleanEmitted(f: Frame)
    requires RoundTripSafe(f)
    ensures CleanLines(Emitted(f))
  {
    CleanFields(f, 0);
  }

  lemma {:induction false} CleanFields(f: Frame, i: nat)
    requires RoundTripSafe(f) && i <= |f.slots|
    ensures CleanLines(EmittedFrom(f.kind, f.slots, i))
    ensures CleanLines(EmittedFrom(f.kind, f.slots, i) + f.extra)
    decreases |f.slots| - i
  {
    if i < |f.slots| {
      CleanFields(f, i + 1);
      if Emits(f.kind, f.slots, i) {
        KeywordsClean(f.kind, i);
      }
    }
  }

  /** No declared keyword contains a colon or a line break: they are lower-case words joined by hyphens. */
  lemma KeywordsClean(k: Kind, i: nat)
    requires i < |Slots(k)|
    ensures CleanKey(Slots(k)[i].keyword)
  {
    KeywordListed(k, i);
    KeywordSetClean();
  }

  lemma KeywordListed(k: Kind, i: nat)
    requires i < |Slots(k)|
    ensures Slots(k)[i].keyword in KeywordSet
  {
  }

  lemma KeywordSetClean()
    ensures forall w | w in KeywordSet :: CleanKey(w)
  {
    ConnectWordsClean();
    ReplyWordsClean();
    OtherWordsClean();
  }

  lemma ConnectWordsClean()
    ensures forall w | w in ConnectWords :: CleanKey(w)
  {
    forall w | w in ConnectWords ensures CleanKey(w) {
      assert forall j | 0 <= j < |w| :: 'a' <= w[j] <= 'z' || w[j] == '-';
    }
  }

  lemma ReplyWordsClean()
    ensures forall w | w in ReplyWords :: CleanKey(w)
  {
    forall w | w in ReplyWords ensures CleanKey(w) {
      assert forall j | 0 <= j < |w| :: 'a' <= w[j] <= 'z' || w[j] == '-';
    }
  }

  lemma OtherWordsClean()
    ensures forall w | w in OtherWords :: CleanKey(w)
  {
    forall w | w in OtherWords ensures CleanKey(w) {
      assert forall j | 0 <= j < |w| :: 'a' <= w[j] <= 'z' || w[j] == '-';
    }
  }

  /** Every keyword of the seven tables. */
  const KeywordSet: set<string> := ConnectWords + ReplyWords + OtherWords

  const ConnectWords: set<string> := {"accept-version", "host", "login", "password", "heart-beat", "receipt"}

  const ReplyWords: set<string> := {"transaction", "heartbeat", "session", "server", "version", "destination"}

  const OtherWords: set<string> := {"content-type", "content-length", "subscription", "message-id", "ack", "id"}

  // ---- the round trip ----

  /** What `Build` finds after the header lines of a serialized frame: a blank line and the decoded
      body when the frame writes one, nothing otherwise. */
  function RestOf(f: Frame): string {
    if WritesBody(f) then "\n" + Utf8.Decode(f.body.value) else ""
  }

  /** The decoded text of a serialized frame: keyword line, header lines, then `RestOf(f)`, which ends
      the header loop. */
  lemma PacketText(f: Frame)
    requires !MissingMandatory(f)
    requires WritesBody(f) && |f.body.value| > 0 ==> f.body.value[0] != 0x0A && f.body.value[0] != 0x0D
    ensures Serialize(f).Success?
    ensures Utf8.Decode(Serialize(f).value) == Keyword(f.kind) + "\n" + (Join(Emitted(f)) + RestOf(f))
    ensures RestOf(f) == "" || (RestOf(f)[0] == LF && (|RestOf(f)| == 1 || RestOf(f)[1] !in LineBreaks))
  {
    var packet := Serialize(f).value;
    if WritesBody(f) {
      BodyText(Keyword(f.kind), Join(Emitted(f)), f.body.value);
    } else {
      HeaderOnlyText(Keyword(f.kind), Join(Emitted(f)));
    }
  }

  /** Decoding the header text, the blank line and a body that does not start with a line break. */
  lemma BodyText(word: string, headers: string, body: seq<byte>)
    requires |body| > 0 ==> body[0] != 0x0A && body[0] != 0x0D
    ensures Utf8.Decode(Utf8.Encode(word + "\n" + headers + "\n") + body)
         == word + "\n" + (headers + ("\n" + Utf8.Decode(body)))
    ensures |body| > 0 ==> |Utf8.Decode(body)| > 0 && Utf8.Decode(body)[0] !in LineBreaks
  {
    Utf8.DecodeEncodeAppend(word + "\n" + headers + "\n", body);
    assert word + "\n" + headers + "\n" + Utf8.Decode(body) == word + "\n" + (headers + ("\n" + Utf8.Decode(body)));
    if |body| > 0 {
      Utf8.DecodeStartsWithBreak(body);
    }
  }

  /** Decoding the header text of a frame without a body. */
  lemma HeaderOnlyText(word: string, headers: string)
    ensures Utf8.Decode(Utf8.Encode(word + "\n" + headers)) == word + "\n" + (headers + "")
  {
    Utf8.DecodeEncode(word + "\n" + headers);
    assert headers + "" == headers;
  }

  /** Parsing that text: the keyword line names the frame's class and the header loop rebuilds every
      field and additional header, stopping just past the blank line when there is a body. */
  lemma HeaderText(f: Frame, text: string)
    requires RoundTripSafe(f)
    requires text == Keyword(f.kind) + "\n" + (Join(Emitted(f)) + RestOf(f))
    requires RestOf(f) == "" || (RestOf(f)[0] == LF && (|RestOf(f)| == 1 || RestOf(f)[1] !in LineBreaks))
    ensures CommandLine(text).0 == Keyword(f.kind)
    ensures CommandLine(text).1 == Reader(text, |Keyword(f.kind)| + 1)
    ensures ReadHeaders(Reader(text, |Keyword(f.kind)| + 1), Fresh(f.kind)).0 == f.(body := None)
    ensures ReadHeaders(Reader(text, |Keyword(f.kind)| + 1), Fresh(f.kind)).1
         == Reader(text, |Keyword(f.kind)| + 1 + |Join(Emitted(f))| + (if WritesBody(f) then 1 else 0))
  {
    var lines := Emitted(f);
    var rest := RestOf(f);
    CleanEmitted(f);
    JoinNonEmpty(lines);
    var c0 := |Keyword(f.kind)| + 1;
    CommandLineOf(f.kind, Join(lines) + rest);
    SliceSplit(text, 0, Keyword(f.kind) + "\n", Join(lines) + rest);
    LayoutOf(text, c0, lines, rest);
    ReadLines(text, c0, Fresh(f.kind), lines, rest);
    FoldEmitted(f);
  }

  /** Re-encoding the consumed header text of a bodied frame lands exactly on the first body byte. */
  lemma BodyOffset(f: Frame, text: string, end: nat)
    requires Serialize(f).Success? && WritesBody(f)
    requires text == Keyword(f.kind) + "\n" + (Join(Emitted(f)) + RestOf(f))
    requires end == |Keyword(f.kind)| + 1 + |Join(Emitted(f))| + 1
    ensures end <= |text|
    ensures |Utf8.Encode(text[..end])| <= |Serialize(f).value|
    ensures Serialize(f).value[|Utf8.Encode(text[..end])|..] == f.body.value
  {
    var t1 := Keyword(f.kind) + "\n" + Join(Emitted(f)) + "\n";
    assert text == t1 + Utf8.Decode(f.body.value);
    assert text[..end] == t1;
  }

  /** `Build` on a packet whose keyword line names an instantiable class and whose header loop ends
      with frame `g` at position `end`. */
  lemma BuildFrom(packet: seq<byte>, k: Kind, g: Frame, end: nat)
    requires Lookup(CommandLine(Utf8.Decode(packet)).0) == Some(k) && Instantiable(k)
    requires ReadHeaders(CommandLine(Utf8.Decode(packet)).1, Fresh(k)).0 == g
    requires ReadHeaders(CommandLine(Utf8.Decode(packet)).1, Fresh(k)).1.cursor == end
    requires Bodied(k) ==> |Utf8.Encode(Utf8.Decode(packet)[..end])| <= |packet|
    ensures !Bodied(k) ==> Build(packet) == Success(g)
    ensures Bodied(k) ==> Build(packet) == Success(g.(body := Some(packet[|Utf8.Encode(Utf8.Decode(packet)[..end])|..])))
  {
  }

  /** `Build(Serialize(f)) == f`: every field, additional header and body byte survives. */
  lemma SerializeBuild(f: Frame)
    requires RoundTripSafe(f)
    ensures Serialize(f).Success?
    ensures Build(Serialize(f).value) == Success(f)
  {
    PacketText(f);
    var packet := Serialize(f).value;
    var text := Utf8.Decode(packet);
    HeaderText(f, text);
    LookupKeyword(f.kind);
    var end := |Keyword(f.kind)| + 1 + |Join(Emitted(f))| + (if WritesBody(f) then 1 else 0);
    if WritesBody(f) {
      BodyOffset(f, text, end);
    }
    BuildFrom(packet, f.kind, f.(body := None), end);
  }
}
