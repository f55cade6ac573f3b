/**
  `parseFasta`: the upload text is split on runs of `>`; each trimmed,
  non-empty segment gives one record whose identifier is the first token of
  its first line and whose sequence is the rest of the segment with all
  whitespace removed and upper-cased. Segments with an empty identifier or an
  empty sequence are dropped.
 */
module FastaParser {
  import opened Wrappers
  import opened JsStrings

  datatype Record = Record(id: string, sequence: string)

  /** What every record the parser returns satisfies. */
  predicate WellFormed(r: Record) {
    && r.id != [] && NoSpace(r.id) && '>' !in r.id
    && r.sequence != [] && NoSpace(r.sequence) && '>' !in r.sequence && NoLowerAscii(r.sequence)
  }

  /** `pieces.map((p) => p.trim())`. */
  function TrimAll(pieces: seq<string>): (trimmed: seq<string>)
    ensures |trimmed| == |pieces|
    ensures forall k | 0 <= k < |pieces| :: trimmed[k] == Trim(pieces[k])
  {
    seq(|pieces|, k requires 0 <= k < |pieces| => Trim(pieces[k]))
  }

  /** `pieces.filter(Boolean)`: the non-empty pieces, in order. */
  function NonEmpty(pieces: seq<string>): (kept: seq<string>)
    ensures |kept| <= |pieces|
    ensures forall k | 0 <= k < |kept| :: kept[k] != [] && kept[k] in pieces
    ensures (forall k | 0 <= k < |pieces| :: pieces[k] != []) ==> kept == pieces
  {
    if pieces == [] then []
    else (if pieces[0] == [] then [] else [pieces[0]]) + NonEmpty(pieces[1..])
  }

  /** Filtering a concatenation filters each part. */
  lemma {:induction false} NonEmptyAppend(a: seq<string>, b: seq<string>)
    ensures NonEmpty(a + b) == NonEmpty(a) + NonEmpty(b)
  {
    if a == [] {
      assert a + b == b;
    } else {
      assert (a + b)[0] == a[0];
      assert (a + b)[1..] == a[1..] + b;
      NonEmptyAppend(a[1..], b);
      var h := if a[0] == [] then [] else [a[0]];
      assert h + (NonEmpty(a[1..]) + NonEmpty(b)) == (h + NonEmpty(a[1..])) + NonEmpty(b);
    }
  }

  /** A single piece is kept exactly when it is non-empty. */
  lemma NonEmptySingle(p: string)
    ensures NonEmpty([p]) == if p == [] then [] else [p]
  {
    assert [p][1..] == [];
  }

  /** The record segments of an upload: `text.split(/>+/).map(trim).filter(Boolean)`.
      Each is non-empty, free of `>`, and neither starts nor ends with whitespace. */
  function Segments(text: string): (parts: seq<string>)
    ensures forall k | 0 <= k < |parts| :: parts[k] != [] && '>' !in parts[k] && IsTrimmed(parts[k])
  {
    var pieces := SplitOnRuns(text, '>');
    var trimmed := TrimAll(pieces);
    assert forall k | 0 <= k < |trimmed| :: '>' !in trimmed[k] by {
      forall k | 0 <= k < |trimmed| ensures '>' !in trimmed[k] {
        assert trimmed[k] == Trim(pieces[k]);
      }
    }
    NonEmpty(trimmed)
  }

  /** `lines[0].split(/\s+/)[0]` with `lines = part.split(/\r?\n/)`: the
      first token of the segment's first line, which is the first token of
      the segment, since a line break is whitespace. It has no whitespace,
      and no `>` when the segment has none. */
  function HeaderId(part: string): (id: string)
    ensures id == FirstToken(part)
    ensures NoSpace(id)
    ensures '>' !in part ==> '>' !in id
  {
    var lines := SplitLines(part);
    SplitLinesChars(part);
    FirstTokenFirstLine(part);
    FirstToken(lines[0])
  }

  /** The segment after its first line feed, where the sequence lines are;
      empty when the segment is a single line. */
  function AfterFirstLine(part: string): string {
    var k := IndexOf(part, '\n');
    if k == |part| then [] else part[k + 1..]
  }

  /** `lines.slice(1).join("").replace(/\s+/g, "").toUpperCase()`: the
      segment's remaining lines joined, without whitespace and upper-cased.
      This is the text after the first line, whitespace removed and
      upper-cased: wrapped sequence lines are joined. The result has no
      whitespace and no lower-case ASCII letter, and no `>` when the segment
      has none. */
  function SequenceOf(part: string): (sequence: string)
    ensures sequence == ToUpper(StripSpace(AfterFirstLine(part)))
    ensures NoSpace(sequence) && NoLowerAscii(sequence)
    ensures '>' !in part ==> '>' !in sequence
  {
    var lines := SplitLines(part);
    SplitLinesChars(part);
    ConcatExcludes(lines[1..], '>');
    LinesAfterFirst(part);
    StripSpaceLines(AfterFirstLine(part));
    ToUpper(StripSpace(Concat(lines[1..])))
  }

  /** The record one segment yields: its identifier and sequence, exactly
      when both are non-empty (`if (id && seq)`). */
  function ParseRecord(part: string): (r: Option<Record>)
    ensures r.Some? <==> HeaderId(part) != [] && SequenceOf(part) != []
    ensures r.Some? ==> r.value == Record(HeaderId(part), SequenceOf(part))
    ensures r.Some? ==> r.value.id != [] && r.value.sequence != []
    ensures r.Some? && '>' !in part ==> WellFormed(r.value)
  {
    var id := HeaderId(part);
    var sequence := SequenceOf(part);
    if id != [] && sequence != [] then Some(Record(id, sequence)) else None
  }

  /** A code point that none of the pieces contains is not in their concatenation. */
  lemma {:induction false} ConcatExcludes(pieces: seq<string>, c: char)
    ensures (forall k | 0 <= k < |pieces| :: c !in pieces[k]) ==> c !in Concat(pieces)
  {
    if pieces != [] {
      ConcatExcludes(pieces[1..], c);
    }
  }

  /** The records of the given segments, in segment order. */
  function RecordsOf(parts: seq<string>): (records: seq<Record>)
    ensures |records| <= |parts|
  {
    if parts == [] then []
    else
      match ParseRecord(parts[0])
      case Some(r) => [r] + RecordsOf(parts[1..])
      case None => RecordsOf(parts[1..])
  }

  /** The records `parseFasta(text)` returns. Each is well formed, and there
      are no more of them than `>`-delimited segments. */
  function FastaRecords(text: string): (records: seq<Record>)
    ensures forall i | 0 <= i < |records| :: WellFormed(records[i])
    ensures |records| <= |Segments(text)|
  {
    var parts := Segments(text);
    RecordsOfWellFormed(parts);
    RecordsOf(parts)
  }

  /** Segments without `>` yield well-formed records only. */
  lemma {:induction false} RecordsOfWellFormed(parts: seq<string>)
    requires forall k | 0 <= k < |parts| :: '>' !in parts[k]
    ensures forall i | 0 <= i < |RecordsOf(parts)| :: WellFormed(RecordsOf(parts)[i])
  {
    if parts != [] {
      RecordsOfWellFormed(parts[1..]);
    }
  }

  /** Adding a segment at the end adds its record, if any, at the end. */
  lemma {:induction false} RecordsOfSnoc(parts: seq<string>, part: string)
    ensures RecordsOf(parts + [part]) ==
      RecordsOf(parts) + (match ParseRecord(part) case Some(r) => [r] case None => [])
  {
    if parts != [] {
      assert (parts + [part])[1..] == parts[1..] + [part];
      RecordsOfSnoc(parts[1..], part);
    } else {
      assert parts + [part] == [part];
    }
  }

  /** Extending a prefix by one element. */
  lemma PrefixSnoc<T>(s: seq<T>, n: nat)
    requires n < |s|
    ensures s[..n + 1] == s[..n] + [s[n]]
  {
  }

  /** `parseFasta`: the loop over the segments that pushes one record per
      segment with a non-empty identifier and a non-empty sequence. */
  method ParseFasta(text: string) returns (records: seq<Record>)
    ensures records == FastaRecords(text)
    ensures forall i | 0 <= i < |records| :: WellFormed(records[i])
  {
    records := [];
    var parts := Segments(text);
    for n := 0 to |parts|
      invariant records == RecordsOf(parts[..n])
    {
      var part := parts[n];
      var id := HeaderId(part);
      var sequence := SequenceOf(part);
      if id != [] && sequence != [] {
        records := records + [Record(id, sequence)];
      }
      RecordsOfSnoc(parts[..n], part);
      PrefixSnoc(parts, n);
    }
    assert parts[..|parts|] == parts;
  }

  // The inverse direction: writing well-formed records out as FASTA text and
  // parsing that text gives the same records back.

  /** One FASTA entry without its `>`: the identifier line and one sequence line. */
  function Entry(r: Record): string {
    r.id + "\n" + r.sequence + "\n"
  }

  /** The FASTA text listing `records`, one `>`-introduced entry each. */
  function Format(records: seq<Record>): string {
    if records == [] then [] else ">" + (Entry(records[0]) + Format(records[1..]))
  }

  function Entries(records: seq<Record>): seq<string> {
    seq(|records|, i requires 0 <= i < |records| => Entry(records[i]))
  }

  function TrimmedEntries(records: seq<Record>): seq<string> {
    seq(|records|, i requires 0 <= i < |records| => records[i].id + "\n" + records[i].sequence)
  }

  /** `IndexOf` skips a prefix that does not contain the code point. */
  lemma {:induction false} IndexOfAfter(a: string, b: string, c: char)
    requires c !in a
    ensures IndexOf(a + b, c) == |a| + IndexOf(b, c)
  {
    if a != [] {
      assert (a + b)[1..] == a[1..] + b;
      IndexOfAfter(a[1..], b, c);
    } else {
      assert a + b == b;
    }
  }

  /** Splitting a `>`-free head, one `>` and a rest that does not start with
      `>` gives the head, then the pieces of the rest. */
  lemma SplitAfterHead(head: string, rest: string)
    requires '>' !in head && rest != [] && rest[0] != '>'
    ensures SplitOnRuns(head + (">" + rest), '>') == [head] + SplitOnRuns(rest, '>')
  {
    var s := head + (">" + rest);
    IndexOfAfter(head, ">" + rest, '>');
    assert (">" + rest)[0] == '>';
    assert IndexOf(">" + rest, '>') == 0;
    var k := IndexOf(s, '>');
    assert s[..k] == head;
    assert s[k..] == ">" + rest;
    assert RunEnd(s, '>', k) == k + 1;
    assert s[k + 1..] == rest;
  }

  /** An entry of a well-formed record has no `>` and does not start with one. */
  lemma EntryShape(r: Record)
    requires WellFormed(r)
    ensures Entry(r) != [] && Entry(r)[0] != '>' && '>' !in Entry(r)
  {
    assert Entry(r) == r.id + "\n" + r.sequence + "\n";
    assert Entry(r)[0] == r.id[0];
  }

  /** Splitting a `>`-free head followed by formatted records on `>` runs
      gives the head, then one piece per entry. */
  lemma {:induction false} SplitFormat(head: string, records: seq<Record>)
    requires '>' !in head
    requires forall i | 0 <= i < |records| :: WellFormed(records[i])
    ensures SplitOnRuns(head + Format(records), '>') == [head] + Entries(records)
    decreases |records|
  {
    if records == [] {
      assert head + Format(records) == head;
    } else {
      var r := records[0];
      var rest := Entry(r) + Format(records[1..]);
      var tail := Entries(records[1..]);
      assert Format(records) == ">" + rest;
      EntryShape(r);
      SplitAfterHead(head, rest);
      SplitFormat(Entry(r), records[1..]);
      EntriesCons(records);
      ConsAssoc(head, Entry(r), tail);
    }
  }

  lemma EntriesCons(records: seq<Record>)
    requires records != []
    ensures Entries(records) == [Entry(records[0])] + Entries(records[1..])
  {
  }

  lemma ConsAssoc<T>(a: T, b: T, s: seq<T>)
    ensures [a] + ([b] + s) == [a] + [b] + s
  {
  }

  /** Trimming an entry removes exactly its final line feed. */
  lemma TrimEntry(r: Record)
    requires WellFormed(r)
    ensures Trim(Entry(r)) == r.id + "\n" + r.sequence
  {
    var e := Entry(r);
    assert e == (r.id + "\n" + r.sequence) + "\n";
    assert !IsSpace(e[0]) by { assert e[0] == r.id[0]; }
    assert LeadingSpace(e) == 0;
    assert e[|e| - 2] == r.sequence[|r.sequence| - 1];
    assert TrailingSpace(e) == 1;
    assert e[..|e| - 1] == r.id + "\n" + r.sequence;
  }

  /** A well-formed record's two-line segment parses back to the record. */
  lemma ParseRecordEntry(r: Record)
    requires WellFormed(r)
    ensures ParseRecord(r.id + "\n" + r.sequence) == Some(r)
  {
    var lines := SplitLines(r.id + "\n" + r.sequence);
    EntryLines(r);
    assert lines[1..] == [r.sequence];
    assert FirstToken(r.id) == r.id;
  }

  /** A well-formed record's two-line segment splits into its two lines. */
  lemma EntryLines(r: Record)
    requires WellFormed(r)
    ensures SplitLines(r.id + "\n" + r.sequence) == [r.id, r.sequence]
  {
    var part := r.id + "\n" + r.sequence;
    assert IndexOf(part, '\n') == |r.id| by {
      assert '\n' !in r.id;
      assert part == r.id + ("\n" + r.sequence);
      IndexOfAfter(r.id, "\n" + r.sequence, '\n');
      assert IndexOf("\n" + r.sequence, '\n') == 0;
    }
    assert part[..|r.id|] == r.id;
    assert part[|r.id| + 1..] == r.sequence;
    assert DropCarriageReturn(r.id) == r.id by {
      assert !IsSpace(r.id[|r.id| - 1]);
    }
    SplitLinesUnfold(part, |r.id|);
    assert SplitLines(r.sequence) == [r.sequence] by {
      assert '\n' !in r.sequence;
    }
  }

  lemma {:induction false} RecordsOfTrimmedEntries(records: seq<Record>)
    requires forall i | 0 <= i < |records| :: WellFormed(records[i])
    ensures RecordsOf(TrimmedEntries(records)) == records
  {
    if records != [] {
      ParseRecordEntry(records[0]);
      TrimmedEntriesTail(records);
      RecordsOfTrimmedEntries(records[1..]);
    }
  }

  lemma TrimmedEntriesTail(records: seq<Record>)
    requires records != []
    ensures TrimmedEntries(records)[1..] == TrimmedEntries(records[1..])
  {
  }

  /** Trimming the pieces of formatted records. */
  lemma TrimAllEntries(records: seq<Record>)
    requires forall i | 0 <= i < |records| :: WellFormed(records[i])
    ensures TrimAll([[]] + Entries(records)) == [[]] + TrimmedEntries(records)
  {
    var pieces: seq<string> := [[]] + Entries(records);
    var trimmed := TrimAll(pieces);
    var expected: seq<string> := [[]] + TrimmedEntries(records);
    assert |trimmed| == |expected|;
    forall j | 0 <= j < |trimmed| ensures trimmed[j] == expected[j] {
      if j == 0 {
        assert pieces[0] == [];
      } else {
        assert pieces[j] == Entry(records[j - 1]);
        TrimEntry(records[j - 1]);
      }
    }
  }

  /** Filtering out the leading empty piece leaves the trimmed entries. */
  lemma NonEmptyEntries(records: seq<Record>)
    requires forall i | 0 <= i < |records| :: WellFormed(records[i])
    ensures NonEmpty([[]] + TrimmedEntries(records)) == TrimmedEntries(records)
  {
    var pieces: seq<string> := [[]] + TrimmedEntries(records);
    assert pieces[1..] == TrimmedEntries(records);
  }

  /** The segments of formatted records are the trimmed entries. */
  lemma SegmentsOfFormat(records: seq<Record>)
    requires forall i | 0 <= i < |records| :: WellFormed(records[i])
    ensures Segments(Format(records)) == TrimmedEntries(records)
  {
    SplitFormat([], records);
    assert [] + Format(records) == Format(records);
    TrimAllEntries(records);
    NonEmptyEntries(records);
  }

  /** Parsing is a left inverse of formatting on well-formed records: every
      list of records the parser can produce is recovered from its FASTA text. */
  lemma ParseFormat(records: seq<Record>)
    requires forall i | 0 <= i < |records| :: WellFormed(records[i])
    ensures FastaRecords(Format(records)) == records
  {
    SegmentsOfFormat(records);
    RecordsOfTrimmedEntries(records);
  }
}
