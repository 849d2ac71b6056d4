/** The cursor over decoded frame text that the frame parser drives. `StompStringReader` is not part of
    this model; its three operations are defined here by the behaviour the parser assumes of them. */
module StringReader {

  datatype Reader = Reader(text: string, cursor: nat) {

    predicate Valid() {
      cursor <= |text|
    }

    /** `EOF`: nothing is left to read. */
    predicate EOF() {
      cursor >= |text|
    }

    /** Position of the first character at or after `from` that is in `stops`, or the end of the text. */
    static function FirstOf(text: string, from: nat, stops: set<char>): (end: nat)
      requires from <= |text|
      ensures from <= end <= |text|
      ensures end < |text| ==> text[end] in stops
      ensures forall k | from <= k < end :: text[k] !in stops
      decreases |text| - from
    {
      if from == |text| || text[from] in stops then from else FirstOf(text, from + 1, stops)
    }

    /** Position just past the maximal run of characters in `skip` starting at `from`. */
    static function PastRun(text: string, from: nat, skip: set<char>): (end: nat)
      requires from <= |text|
      ensures from <= end <= |text|
      ensures end < |text| ==> text[end] !in skip
      ensures forall k | from <= k < end :: text[k] in skip
      decreases |text| - from
    {
      if from < |text| && text[from] in skip then PastRun(text, from + 1, skip) else from
    }

    /** `ReadUntil(cs)`: the text up to, not including, the first character in `stops` (or to the end);
        the cursor stops on that character. */
    function ReadUntil(stops: set<char>): (r: (string, Reader))
      requires Valid()
      ensures r.1.Valid() && r.1.text == text && cursor <= r.1.cursor
      ensures r.0 == text[cursor..r.1.cursor]
      ensures !r.1.EOF() ==> text[r.1.cursor] in stops
      ensures forall k | 0 <= k < |r.0| :: r.0[k] !in stops
    {
      var end := FirstOf(text, cursor, stops);
      (text[cursor..end], Reader(text, end))
    }

    /** `SkipThrough(cs)`: skips the maximal run of characters in `skip` and returns its length. */
    function SkipThrough(skip: set<char>): (r: (nat, Reader))
      requires Valid()
      ensures r.1.Valid() && r.1.text == text && r.1.cursor == cursor + r.0
      ensures forall k | cursor <= k < r.1.cursor :: text[k] in skip
      ensures !r.1.EOF() ==> text[r.1.cursor] !in skip
    {
      var end := PastRun(text, cursor, skip);
      (end - cursor, Reader(text, end))
    }

    /** `Shuttle(1)`: advances one character; at the end of the text it stays there. */
    function Shuttle(): (r: Reader)
      requires Valid()
      ensures r.Valid() && r.text == text
      ensures !EOF() ==> r.cursor == cursor + 1
      ensures EOF() ==> r.cursor == cursor
    {
      Reader(text, if cursor < |text| then cursor + 1 else cursor)
    }
  }

  /** `FirstOf` is the first stop character: if none occurs in `[from, end)` and `end` holds one (or is
      the end of the text), then `end` is the answer. */
  lemma FirstOfAt(text: string, from: nat, stops: set<char>, end: nat)
    requires from <= end <= |text|
    requires forall k | from <= k < end :: text[k] !in stops
    requires end == |text| || text[end] in stops
    ensures Reader.FirstOf(text, from, stops) == end
  {
  }

  /** `PastRun` is the end of the run: if all of `[from, end)` is in `skip` and `end` is not (or is the
      end of the text), then `end` is the answer. */
  lemma PastRunAt(text: string, from: nat, skip: set<char>, end: nat)
    requires from <= end <= |text|
    requires forall k | from <= k < end :: text[k] in skip
    requires end == |text| || text[end] !in skip
    ensures Reader.PastRun(text, from, skip) == end
  {
  }
}
