/** `Build` on CRLF line ends. The header loop stops as soon as the run of line breaks it skips after a
    header is two characters long, and a single CR LF is such a run. So on text whose lines end in
    CR LF the loop reads the first header line only: the remaining header lines are not assigned, and
    in a bodied frame they become part of the body. */
module LineEnds {
  import opened Results
  import opened Text
  import Utf8
  import opened Kinds
  import opened Frames
  import opened StringReader
  import opened Codec
  import opened RoundTrip

  /** A header line ending in CR LF. */
  function CrLfLine(h: Header): string {
    h.0 + ":" + h.1 + "\r\n"
  }

  /** The characters of a CR LF header line laid out in `text` from `c` on. */
  lemma CrLfLayout(text: string, c: nat, h: Header)
    requires c + |CrLfLine(h)| <= |text| && text[c..c + |CrLfLine(h)|] == CrLfLine(h)
    ensures forall j | 0 <= j < |h.0| :: text[c + j] == h.0[j]
    ensures text[c + |h.0|] == ':'
    ensures forall j | 0 <= j < |h.1| :: text[c + |h.0| + 1 + j] == h.1[j]
    ensures text[c + |h.0| + 1 + |h.1|] == CR && text[c + |h.0| + 2 + |h.1|] == LF
  {
    var w := text[c..c + |CrLfLine(h)|];
    assert w == h.0 + ":" + h.1 + "\r\n";
    forall j | 0 <= j < |h.0| ensures text[c + j] == h.0[j] {
      assert text[c + j] == w[j];
    }
    assert text[c + |h.0|] == w[|h.0|];
    forall j | 0 <= j < |h.1| ensures text[c + |h.0| + 1 + j] == h.1[j] {
      assert text[c + |h.0| + 1 + j] == w[|h.0| + 1 + j];
    }
    assert text[c + |h.0| + 1 + |h.1|] == w[|h.0| + 1 + |h.1|];
    assert text[c + |h.0| + 2 + |h.1|] == w[|h.0| + 2 + |h.1|];
  }

  /** The key of a CR LF line is read up to its colon. */
  lemma CrLfKey(text: string, c: nat, h: Header)
    requires c + |CrLfLine(h)| <= |text| && text[c..c + |CrLfLine(h)|] == CrLfLine(h) && CleanKey(h.0)
    ensures Reader(text, c).ReadUntil({':'}) == (h.0, Reader(text, c + |h.0|))
  {
    CrLfLayout(text, c, h);
    var e1 := c + |h.0|;
    forall k | c <= k < e1 ensures text[k] !in {':'} {
      assert text[c + (k - c)] == h.0[k - c];
    }
    FirstOfAt(text, c, {':'}, e1);
    assert text[c..e1] == h.0 by {
      forall j | 0 <= j < |h.0| ensures text[c..e1][j] == h.0[j] {
        assert text[c..e1][j] == text[c + j];
      }
    }
  }

  /** The value of a CR LF line is read from after the colon up to its CR. */
  lemma CrLfValue(text: string, c: nat, h: Header)
    requires c + |CrLfLine(h)| <= |text| && text[c..c + |CrLfLine(h)|] == CrLfLine(h) && !HasLineBreak(h.1)
    ensures Reader(text, c + |h.0| + 1).ReadUntil(LineBreaks) == (h.1, Reader(text, c + |h.0| + 1 + |h.1|))
  {
    CrLfLayout(text, c, h);
    var e1 := c + |h.0|;
    var e3 := e1 + 1 + |h.1|;
    forall j | e1 + 1 <= j < e3 ensures text[j] !in LineBreaks {
      assert text[e1 + 1 + (j - e1 - 1)] == h.1[j - e1 - 1];
    }
    FirstOfAt(text, e1 + 1, LineBreaks, e3);
    assert text[e1 + 1..e3] == h.1 by {
      forall j | 0 <= j < |h.1| ensures text[e1 + 1..e3][j] == h.1[j] {
        assert text[e1 + 1..e3][j] == text[e1 + 1 + j];
      }
    }
  }

  /** One pass of the header loop over a CR LF line followed by a character other than a line break:
      the pair is stored and the run of line breaks skipped is two long. */
  lemma CrLfStep(text: string, c: nat, f: Frame, h: Header)
    requires c + |CrLfLine(h)| < |text| && text[c..c + |CrLfLine(h)|] == CrLfLine(h)
    requires CleanKey(h.0) && !HasLineBreak(h.1)
    requires text[c + |CrLfLine(h)|] !in LineBreaks
    ensures HeaderStep(Reader(text, c), f).0 == Assign(f, h.0, h.1)
    ensures HeaderStep(Reader(text, c), f).1 == 2
    ensures HeaderStep(Reader(text, c), f).2 == Reader(text, c + |CrLfLine(h)|)
  {
    CrLfLayout(text, c, h);
    var e1 := c + |h.0|;
    var e3 := e1 + 1 + |h.1|;
    CrLfKey(text, c, h);
    CrLfValue(text, c, h);
    var (key, r1) := Reader(text, c).ReadUntil({':'});
    assert r1.Shuttle() == Reader(text, e1 + 1);
    CrLfRun(text, e3);
  }

  /** A CR LF followed by a character other than a line break is a run of two line breaks. */
  lemma CrLfRun(text: string, e: nat)
    requires e + 2 < |text| && text[e] == CR && text[e + 1] == LF && text[e + 2] !in LineBreaks
    ensures Reader(text, e).SkipThrough(LineBreaks) == (2, Reader(text, e + 2))
  {
    PastRunAt(text, e, LineBreaks, e + 2);
  }

  /** A header line ending in CR LF and followed by a character other than a line break ends the header
      loop: the pair is stored and the reader stands on that character, whatever text follows it. */
  lemma CrLfStopsLoop(text: string, c: nat, f: Frame, h: Header)
    requires c + |CrLfLine(h)| < |text| && text[c..c + |CrLfLine(h)|] == CrLfLine(h)
    requires CleanKey(h.0) && !HasLineBreak(h.1)
    requires text[c + |CrLfLine(h)|] !in LineBreaks
    ensures ReadHeaders(Reader(text, c), f).0 == Assign(f, h.0, h.1)
    ensures ReadHeaders(Reader(text, c), f).1 == Reader(text, c + |CrLfLine(h)|)
  {
    CrLfStep(text, c, f, h);
  }

  /** The keyword line ending in CR LF is read as the keyword, and the reader stands after the LF. */
  lemma CrLfCommandLine(k: Kind, tail: string)
    requires |tail| > 0 && tail[0] !in LineBreaks
    ensures CommandLine(Keyword(k) + "\r\n" + tail) == (Keyword(k), Reader(Keyword(k) + "\r\n" + tail, |Keyword(k)| + 2))
  {
    var text := Keyword(k) + "\r\n" + tail;
    var n := |Keyword(k)|;
    assert forall j | 0 <= j < n :: text[j] == Keyword(k)[j] && text[j] !in LineBreaks;
    assert text[n] == CR && text[n + 1] == LF;
    assert text[n + 2] == tail[0];
    FirstOfAt(text, 0, LineBreaks, n);
    PastRunAt(text, n, LineBreaks, n + 2);
    assert text[..n] == Keyword(k);
    UpperKeyword(k);
  }

  /** Where the header line and the rest of the text sit after a CR LF keyword line. */
  lemma CrLfTextLayout(k: Kind, h: Header, tail: string)
    requires |tail| > 0
    ensures var text := Keyword(k) + "\r\n" + (CrLfLine(h) + tail);
            var c := |Keyword(k)| + 2;
            c + |CrLfLine(h)| < |text| && text[c..c + |CrLfLine(h)|] == CrLfLine(h) && text[c + |CrLfLine(h)|] == tail[0]
  {
    var text := Keyword(k) + "\r\n" + (CrLfLine(h) + tail);
    var c := |Keyword(k)| + 2;
    var n := |CrLfLine(h)|;
    var body := CrLfLine(h) + tail;
    assert text == (Keyword(k) + "\r\n") + body;
    assert forall j | 0 <= j < |body| :: text[c + j] == body[j];
    assert text[c..c + n] == CrLfLine(h) by {
      forall j | 0 <= j < n ensures text[c..c + n][j] == CrLfLine(h)[j] {
        assert text[c..c + n][j] == text[c + j] == body[j];
      }
    }
    assert text[c + n] == body[n] == tail[0];
  }

  /** The text of a CR LF packet: its keyword line is read, and the header loop reads the one header
      line and stops on the first character of `tail`. */
  lemma CrLfHeaders(k: Kind, h: Header, tail: string, text: string)
    requires CleanKey(h.0) && !HasLineBreak(h.1) && |tail| > 0 && tail[0] !in LineBreaks
    requires text == Keyword(k) + "\r\n" + (CrLfLine(h) + tail)
    ensures CommandLine(text).0 == Keyword(k) && CommandLine(text).1 == Reader(text, |Keyword(k)| + 2)
    ensures ReadHeaders(Reader(text, |Keyword(k)| + 2), Fresh(k)).0 == Assign(Fresh(k), h.0, h.1)
    ensures ReadHeaders(Reader(text, |Keyword(k)| + 2), Fresh(k)).1 == Reader(text, |Keyword(k)| + 2 + |CrLfLine(h)|)
  {
    CrLfCommandLine(k, CrLfLine(h) + tail);
    CrLfTextLayout(k, h, tail);
    CrLfStopsLoop(text, |Keyword(k)| + 2, Fresh(k), h);
  }

  lemma Regroup(a: string, b: string, c: string, d: string)
    ensures a + b + c + d == a + b + (c + d)
  {
  }

  /** The bytes of a CR LF packet: the decoded text is the prefix followed by the decoded rest, which
      starts with a character other than a line break, and the bytes after the prefix are the rest. */
  lemma CrLfPacket(prefix: string, rest: seq<Utf8.byte>)
    requires |rest| > 0 && rest[0] != 0x0A && rest[0] != 0x0D
    ensures Utf8.Decode(Utf8.Encode(prefix) + rest) == prefix + Utf8.Decode(rest)
    ensures |Utf8.Decode(rest)| > 0 && Utf8.Decode(rest)[0] !in LineBreaks
    ensures (prefix + Utf8.Decode(rest))[..|prefix|] == prefix
    ensures (Utf8.Encode(prefix) + rest)[|Utf8.Encode(prefix)|..] == rest
  {
    Utf8.DecodeEncodeAppend(prefix, rest);
    Utf8.DecodeStartsWithBreak(rest);
  }

  /** Reading a CR LF packet: the keyword line, then the header loop stopping after the first header
      line, which is where the prefix ends. */
  lemma CrLfParse(k: Kind, h: Header, prefix: string, rest: seq<Utf8.byte>)
    requires CleanKey(h.0) && !HasLineBreak(h.1)
    requires prefix == Keyword(k) + "\r\n" + CrLfLine(h)
    requires |rest| > 0 && rest[0] != 0x0A && rest[0] != 0x0D
    ensures var text := Utf8.Decode(Utf8.Encode(prefix) + rest);
            CommandLine(text).0 == Keyword(k) &&
            ReadHeaders(CommandLine(text).1, Fresh(k)).0 == Assign(Fresh(k), h.0, h.1) &&
            ReadHeaders(CommandLine(text).1, Fresh(k)).1.cursor == |prefix| &&
            text[..|prefix|] == prefix
  {
    var tail := Utf8.Decode(rest);
    var text := Utf8.Decode(Utf8.Encode(prefix) + rest);
    CrLfPacket(prefix, rest);
    Regroup(Keyword(k), "\r\n", CrLfLine(h), tail);
    CrLfHeaders(k, h, tail, text);
  }

  /** A packet whose lines end in CR LF: the keyword line, one header line and then further bytes that
      do not start with a line break. `Build` assigns the first header only; whatever the further bytes
      hold (more header lines, say) is not read as headers, and in a SEND frame it is the body. */
  lemma CrLfKeepsFirstHeaderOnly(k: Kind, h: Header, prefix: string, rest: seq<Utf8.byte>)
    requires Instantiable(k) && CleanKey(h.0) && !HasLineBreak(h.1)
    requires prefix == Keyword(k) + "\r\n" + CrLfLine(h)
    requires |rest| > 0 && rest[0] != 0x0A && rest[0] != 0x0D
    ensures !Bodied(k) ==> Build(Utf8.Encode(prefix) + rest) == Success(Assign(Fresh(k), h.0, h.1))
    ensures Bodied(k) ==> Build(Utf8.Encode(prefix) + rest) == Success(Assign(Fresh(k), h.0, h.1).(body := Some(rest)))
  {
    CrLfParse(k, h, prefix, rest);
    CrLfPacket(prefix, rest);
    LookupKeyword(k);
    BuildFrom(Utf8.Encode(prefix) + rest, k, Assign(Fresh(k), h.0, h.1), |prefix|);
  }

  /** The ACK frame after reading `id:1` only: the id is set and the receipt keeps its default, none. */
  lemma AckWithIdOnly()
    ensures var g := Assign(Fresh(Ack), "id", "1");
            g.kind == Ack && Get(g, Id) == Some("1") && Get(g, Receipt) == None && g.extra == []
  {
    FindOwnSlot(Ack, 0);
    assert Slots(Ack)[1].keyword == "receipt";
  }

  /** The concrete case: in `ACK`, `id:1`, `receipt:2` with CR LF line ends, the id is read and the
      receipt is lost. */
  lemma CrLfLosesReceipt(head: string, more: string)
    requires head == "ACK\r\nid:1\r\n" && more == "receipt:2\r\n"
    ensures var packet := Utf8.Encode(head) + Utf8.Encode(more);
            Build(packet).Success? && Build(packet).value.kind == Ack && Get(Build(packet).value, Id) == Some("1") &&
            Get(Build(packet).value, Receipt) == None && Build(packet).value.extra == []
  {
    var rest := Utf8.Encode(more);
    assert rest[0] == 0x72 by {
      assert more[0] == 'r';
      assert rest == Utf8.EncodeChar(more[0]) + Utf8.Encode(more[1..]);
    }
    assert CleanKey("id") && !HasLineBreak("1") by {
      assert "id"[0] == 'i' && "id"[1] == 'd';
    }
    CrLfKeepsFirstHeaderOnly(Ack, ("id", "1"), head, rest);
    AckWithIdOnly();
  }
}
