/**
 * The one-pass scanner inside the inflection-table constructor
 * (src/main.cpp:141-169): a character stream becomes a sequence of
 * inflection records, one per delimiter.
 */
module Scanner {
  import opened Inflections

  /** A comma or an end-of-line closes the current record. */
  predicate IsDelimiter(c: char)
  {
    c == ',' || c == '\n'
  }

  /** Characters that never reach a record's suffix: the trim marker and the ignored period. */
  predicate IsDropped(c: char)
  {
    c == '-' || c == '.'
  }

  /** How many record delimiters `s` holds. */
  function DelimiterCount(s: string): nat
  {
    multiset(s)[','] + multiset(s)['\n']
  }

  /**
   * The scanner's state machine. `trim` and `suffix` are the running
   * counter and suffix of the record being read; a delimiter emits them and
   * resets both, and whatever is pending when the input runs out is lost.
   */
  function ScanFrom(input: string, trim: nat, suffix: string): seq<Inflection>
    decreases |input|
  {
    if |input| == 0 then []
    else
      var c := input[0];
      if c == '-' then ScanFrom(input[1..], trim + 1, suffix)
      else if IsDelimiter(c) then [Inflection(NarrowToByte(trim), suffix)] + ScanFrom(input[1..], 0, "")
      else if c == '.' then ScanFrom(input[1..], trim, suffix)
      else ScanFrom(input[1..], trim, suffix + [c])
  }

  /** The records of a whole stream, starting from an empty record. */
  function Scan(input: string): seq<Inflection>
  {
    ScanFrom(input, 0, "")
  }

  /** The scanner emits exactly one record per delimiter, whatever state it starts in. */
  lemma {:induction false} RecordCount(input: string, trim: nat, suffix: string)
    ensures |ScanFrom(input, trim, suffix)| == DelimiterCount(input)
    decreases |input|
  {
    if |input| > 0 {
      var c := input[0];
      assert input == [c] + input[1..];
      if c == '-' {
        RecordCount(input[1..], trim + 1, suffix);
      } else if IsDelimiter(c) {
        RecordCount(input[1..], 0, "");
      } else if c == '.' {
        RecordCount(input[1..], trim, suffix);
      } else {
        RecordCount(input[1..], trim, suffix + [c]);
      }
    }
  }

  // ---------------------------------------------------------------------
  // A reference description of the format, independent of the state machine:
  // the stream is cut at its delimiters, and each complete segment becomes
  // one record.

  /** The characters of `s` that are neither `-` nor `.`, in their original order. */
  function Kept(s: string): string
    decreases |s|
  {
    if |s| == 0 then []
    else (if IsDropped(s[0]) then [] else [s[0]]) + Kept(s[1..])
  }

  /** Kept removes every `-` and `.` and keeps every other character as often as it occurs. */
  lemma {:induction false} KeptCounts(s: string)
    ensures forall c :: multiset(Kept(s))[c] == (if IsDropped(c) then 0 else multiset(s)[c])
    decreases |s|
  {
    if |s| > 0 {
      KeptCounts(s[1..]);
      assert s == [s[0]] + s[1..];
    }
  }

  lemma KeptCons(c: char, t: string)
    ensures Kept([c] + t) == (if IsDropped(c) then [] else [c]) + Kept(t)
  {
    assert ([c] + t)[1..] == t;
  }

  /** The record a segment stands for: its hyphen count, narrowed to a byte, and its kept characters. */
  function RecordOf(segment: string): Inflection
  {
    Inflection(NarrowToByte(multiset(segment)['-']), Kept(segment))
  }

  /** The text of `s` up to, not including, its first delimiter (all of `s` when there is none). */
  function FirstSegment(s: string): (segment: string)
    ensures |segment| <= |s|
    ensures segment == s[..|segment|]
    ensures forall j :: 0 <= j < |segment| ==> !IsDelimiter(segment[j])
    ensures |segment| < |s| ==> IsDelimiter(s[|segment|])
    decreases |s|
  {
    if |s| == 0 || IsDelimiter(s[0]) then []
    else [s[0]] + FirstSegment(s[1..])
  }

  /** The text after the first delimiter of `s`. */
  function AfterFirst(s: string): (tail: string)
    requires |FirstSegment(s)| < |s|
    ensures |tail| < |s|
  {
    s[|FirstSegment(s)| + 1..]
  }

  lemma NoDelimiterNoCount(s: string)
    requires forall j :: 0 <= j < |s| ==> !IsDelimiter(s[j])
    ensures DelimiterCount(s) == 0
  {
    assert ',' !in s;
    assert '\n' !in s;
  }

  /** A delimiter after a delimiter-free prefix adds one to the count of what follows it. */
  lemma DelimiterSplit(first: string, c: char, rest: string)
    requires forall j :: 0 <= j < |first| ==> !IsDelimiter(first[j])
    requires IsDelimiter(c)
    ensures DelimiterCount(first + [c] + rest) == 1 + DelimiterCount(rest)
  {
    NoDelimiterNoCount(first);
    assert multiset(first + [c] + rest) == multiset(first) + multiset{c} + multiset(rest);
  }

  /** The complete segments of `s`: the text before each delimiter, back to the previous one. */
  function Segments(s: string): (segments: seq<string>)
    ensures |segments| == DelimiterCount(s)
    ensures forall k, j :: 0 <= k < |segments| && 0 <= j < |segments[k]| ==> !IsDelimiter(segments[k][j])
    decreases |s|
  {
    var first := FirstSegment(s);
    var i := |first|;
    if i == |s| then
      NoDelimiterNoCount(s);
      []
    else
      assert s == first + [s[i]] + AfterFirst(s);
      DelimiterSplit(first, s[i], AfterFirst(s));
      [first] + Segments(AfterFirst(s))
  }

  /** The record the state machine emits at the first delimiter of `s`, when it starts in state (trim, suffix). */
  function FirstRecord(s: string, trim: nat, suffix: string): Inflection
  {
    var first := FirstSegment(s);
    Inflection(NarrowToByte(trim + multiset(first)['-']), suffix + Kept(first))
  }

  /** Advancing over one non-delimiter character does not change the record eventually emitted. */
  lemma FirstRecordStep(s: string, trim: nat, suffix: string, trim': nat, suffix': string)
    requires |s| > 0 && !IsDelimiter(s[0])
    requires trim' == if s[0] == '-' then trim + 1 else trim
    requires suffix' == if IsDropped(s[0]) then suffix else suffix + [s[0]]
    ensures FirstRecord(s, trim, suffix) == FirstRecord(s[1..], trim', suffix')
  {
    var c := s[0];
    var rest := FirstSegment(s[1..]);
    assert FirstSegment(s) == [c] + rest;
    KeptCons(c, rest);
    assert multiset([c] + rest)['-'] == (if c == '-' then 1 else 0) + multiset(rest)['-'];
    var r := FirstRecord(s, trim, suffix);
    var r' := FirstRecord(s[1..], trim', suffix');
    assert r.trim == NarrowToByte(trim' + multiset(rest)['-']) == r'.trim;
    var k := Kept(rest);
    if IsDropped(c) {
      assert [] + k == k;
      assert Kept(FirstSegment(s)) == k;
    } else {
      assert Kept(FirstSegment(s)) == [c] + k;
      assert suffix + ([c] + k) == (suffix + [c]) + k;
    }
  }

  /**
   * The state machine, started in any state, emits its first record at the
   * first delimiter: the pending trim plus that segment's hyphens, the
   * pending suffix plus that segment's kept characters; and then scans the
   * rest afresh. Without a delimiter it emits nothing.
   */
  lemma {:induction false} ScanFromFirstRecord(s: string, trim: nat, suffix: string)
    ensures |FirstSegment(s)| == |s| ==> ScanFrom(s, trim, suffix) == []
    ensures |FirstSegment(s)| < |s| ==>
      ScanFrom(s, trim, suffix) == [FirstRecord(s, trim, suffix)] + Scan(AfterFirst(s))
    decreases |s|
  {
    if |s| == 0 {
    } else if IsDelimiter(s[0]) {
      assert FirstSegment(s) == [];
      assert Kept([]) == [];
      assert suffix + [] == suffix;
    } else {
      var c := s[0];
      var rest := s[1..];
      var trim', suffix' :=
        if c == '-' then trim + 1 else trim,
        if IsDropped(c) then suffix else suffix + [c];
      assert ScanFrom(s, trim, suffix) == ScanFrom(rest, trim', suffix');
      assert FirstSegment(s) == [c] + FirstSegment(rest);
      ScanFromFirstRecord(rest, trim', suffix');
      if |FirstSegment(s)| < |s| {
        FirstRecordStep(s, trim, suffix, trim', suffix');
        assert AfterFirst(s) == AfterFirst(rest);
      }
    }
  }

  /** The records a sequence of segments stands for, one per segment and in the same order. */
  function RecordsOf(segments: seq<string>): (records: seq<Inflection>)
    ensures |records| == |segments|
    ensures forall k :: 0 <= k < |segments| ==> records[k] == RecordOf(segments[k])
  {
    if |segments| == 0 then [] else [RecordOf(segments[0])] + RecordsOf(segments[1..])
  }

  /**
   * The scanner agrees with the reference description: one record per
   * complete segment, in order, each the segment's hyphen count (mod 256)
   * and its other characters except periods.
   */
  lemma {:induction false} ScanMatchesSegments(s: string)
    ensures Scan(s) == RecordsOf(Segments(s))
    decreases |s|
  {
    ScanFromFirstRecord(s, 0, "");
    var first := FirstSegment(s);
    if |first| < |s| {
      var rest := AfterFirst(s);
      ScanMatchesSegments(rest);
      assert "" + Kept(first) == Kept(first);
      assert FirstRecord(s, 0, "") == RecordOf(first);
      assert Segments(s) == [first] + Segments(rest);
      assert Segments(s)[1..] == Segments(rest);
    }
  }

  /** Text after the last delimiter never produces a record. */
  lemma {:induction false} TrailingTextIgnored(s: string, tail: string, trim: nat, suffix: string)
    requires forall j :: 0 <= j < |tail| ==> !IsDelimiter(tail[j])
    ensures ScanFrom(s + tail, trim, suffix) == ScanFrom(s, trim, suffix)
    decreases |s|
  {
    if |s| == 0 {
      assert s + tail == tail;
      NoDelimiterNoCount(tail);
      RecordCount(tail, trim, suffix);
    } else {
      assert (s + tail)[1..] == s[1..] + tail;
      var c := s[0];
      if c == '-' {
        TrailingTextIgnored(s[1..], tail, trim + 1, suffix);
      } else if IsDelimiter(c) {
        TrailingTextIgnored(s[1..], tail, 0, "");
      } else if c == '.' {
        TrailingTextIgnored(s[1..], tail, trim, suffix);
      } else {
        TrailingTextIgnored(s[1..], tail, trim, suffix + [c]);
      }
    }
  }
}
