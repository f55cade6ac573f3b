/**
  `handleUploadFasta`, the `POST /api/upload-fasta` handler: it rejects a body
  without a string `content`, picks the reference sequence for the requested
  pathogen (by default SARS-CoV-2, falling back to the first reference of the
  table), parses the upload, compares every record against the reference and
  counts the mutations. The Express request and response objects are replaced
  by the request body and the reply value.
 */
module UploadHandler {
  import opened Wrappers
  import opened Api
  import opened FastaParser
  import opened Comparator

  const DefaultPathogen: string := "SARS-CoV-2"
  const MissingContent: string := "Missing content in request"

  /** The reference table, as (pathogen, reference sequence) pairs in the
      table's enumeration order. */
  type ReferenceTable = seq<(string, string)>

  /** What the handler sends back. `Thrown` is the TypeError raised when a
      record is compared against the `undefined` reference of an empty table. */
  datatype Reply =
    | BadRequest(error: string)
    | Ok(response: UploadFastaResponse)
    | Thrown

  /** `references[pathogen]`: the sequence of the first entry with that key. */
  function Lookup(table: ReferenceTable, pathogen: string): (found: Option<string>)
    ensures found.None? <==> forall k | 0 <= k < |table| :: table[k].0 != pathogen
    ensures found.Some? ==> exists k | 0 <= k < |table| ::
      && table[k] == (pathogen, found.value)
      && forall j | 0 <= j < k :: table[j].0 != pathogen
  {
    if table == [] then None
    else if table[0].0 == pathogen then Some(table[0].1)
    else
      var rest := Lookup(table[1..], pathogen);
      assert rest.Some? ==> exists k | 0 <= k < |table[1..]| ::
        && table[1..][k] == (pathogen, rest.value)
        && forall j | 0 <= j < k :: table[1..][j].0 != pathogen;
      if rest.Some? then
        var k :| 0 <= k < |table[1..]| && table[1..][k] == (pathogen, rest.value)
          && forall j | 0 <= j < k :: table[1..][j].0 != pathogen;
        assert table[k + 1] == (pathogen, rest.value);
        rest
      else rest
  }

  /** `references[pathogen] ?? Object.values(references)[0]`: the pathogen's
      reference if the table has it, otherwise the first reference; nothing
      (JavaScript's `undefined`) only when the table is empty. */
  function SelectReference(table: ReferenceTable, pathogen: string): (reference: Option<string>)
    ensures reference.None? <==> table == []
    ensures Lookup(table, pathogen).Some? ==> reference == Lookup(table, pathogen)
    ensures Lookup(table, pathogen).None? && table != [] ==> reference == Some(table[0].1)
  {
    match Lookup(table, pathogen)
    case Some(r) => Some(r)
    case None => if table == [] then None else Some(table[0].1)
  }

  /** `records.map((r) => ({ id: r.id, length: r.seq.length }))`. */
  function SequenceInfos(records: seq<Record>): seq<SequenceInfo> {
    seq(|records|, i requires 0 <= i < |records| => SequenceInfo(records[i].id, |records[i].sequence|))
  }

  /** The per-record mutation lists against `reference`, in record order. */
  function MutationLists(reference: string, records: seq<Record>): seq<SequenceMutations> {
    seq(|records|, i requires 0 <= i < |records| =>
      SequenceMutations(records[i].id, PositionalDiff(reference, records[i].sequence)))
  }

  /** The number of mutation records over all lists. */
  function TotalMutations(lists: seq<SequenceMutations>): nat {
    if lists == [] then 0
    else TotalMutations(lists[..|lists| - 1]) + |lists[|lists| - 1].mutations|
  }

  lemma MutationListsSnoc(reference: string, records: seq<Record>, n: nat)
    requires n < |records|
    ensures MutationLists(reference, records[..n + 1]) == MutationLists(reference, records[..n])
      + [SequenceMutations(records[n].id, PositionalDiff(reference, records[n].sequence))]
  {
  }

  lemma TotalMutationsSnoc(lists: seq<SequenceMutations>, entry: SequenceMutations)
    ensures TotalMutations(lists + [entry]) == TotalMutations(lists) + |entry.mutations|
  {
    assert (lists + [entry])[..|lists|] == lists;
  }

  /** The reply to a request body (`None` for a missing body). */
  function UploadFasta(body: Option<UploadFastaRequest>, table: ReferenceTable): Reply {
    if body.None? || !body.value.content.Text? then BadRequest(MissingContent)
    else
      var pathogen := body.value.pathogen.GetOr(DefaultPathogen);
      var reference := SelectReference(table, pathogen);
      var records := FastaRecords(body.value.content.text);
      if reference.None? && records != [] then Thrown
      else
        var lists := if reference.Some? then MutationLists(reference.value, records) else [];
        Ok(UploadFastaResponse(
          body.value.filename,
          pathogen,
          SequenceInfos(records),
          lists,
          Summary(|records|, TotalMutations(lists))))
  }

  /** `handleUploadFasta`: validate, select the reference, parse, then push
      one mutation list per record and add its length to the running total. */
  method HandleUploadFasta(body: Option<UploadFastaRequest>, table: ReferenceTable) returns (reply: Reply)
    ensures reply == UploadFasta(body, table)
  {
    if body.None? || !body.value.content.Text? {
      return BadRequest(MissingContent);
    }
    var pathogen := body.value.pathogen.GetOr(DefaultPathogen);
    var reference := SelectReference(table, pathogen);
    var records := ParseFasta(body.value.content.text);
    var results := UploadFastaResponse(
      body.value.filename,
      pathogen,
      SequenceInfos(records),
      [],
      Summary(|records|, 0));
    for n := 0 to |records|
      invariant results.filename == body.value.filename && results.pathogen == pathogen
      invariant results.sequences == SequenceInfos(records)
      invariant reference.Some? ==> results.mutations == MutationLists(reference.value, records[..n])
      invariant reference.None? ==> n == 0 && results.mutations == []
      invariant results.summary == Summary(|records|, TotalMutations(results.mutations))
    {
      if reference.None? {
        return Thrown;
      }
      var r := records[n];
      var muts := CompareSequences(reference.value, r.sequence);
      var entry := SequenceMutations(r.id, muts);
      MutationListsSnoc(reference.value, records, n);
      TotalMutationsSnoc(results.mutations, entry);
      results := results.(
        mutations := results.mutations + [entry],
        summary := results.summary.(totalMutations := results.summary.totalMutations + |muts|));
    }
    assert records[..|records|] == records;
    return Ok(results);
  }

  // Properties of the reply.

  /** A 400 reply comes exactly from a missing body or a missing or non-string
      `content`, and carries the fixed error message. */
  lemma BadRequestIff(body: Option<UploadFastaRequest>, table: ReferenceTable)
    ensures UploadFasta(body, table).BadRequest? <==> body.None? || !body.value.content.Text?
    ensures UploadFasta(body, table).BadRequest? ==> UploadFasta(body, table).error == MissingContent
  {
  }

  /** With a string `content` and a non-empty table the handler always
      succeeds, whatever the pathogen key: an unknown key falls back to the
      first reference. */
  lemma OkWhenContentGiven(body: Option<UploadFastaRequest>, table: ReferenceTable)
    requires body.Some? && body.value.content.Text? && table != []
    ensures UploadFasta(body, table).Ok?
  {
  }

  /** The handler throws only for an empty table and an upload that yields a record. */
  lemma ThrownIff(body: Option<UploadFastaRequest>, table: ReferenceTable)
    ensures UploadFasta(body, table).Thrown? <==>
      && body.Some? && body.value.content.Text?
      && table == [] && FastaRecords(body.value.content.text) != []
  {
  }

  /** The pathogen echoed in the response is the requested one, or SARS-CoV-2
      when none was given, even when the table lacks it. */
  lemma ResponsePathogen(body: Option<UploadFastaRequest>, table: ReferenceTable)
    requires UploadFasta(body, table).Ok?
    ensures body.value.pathogen.None? ==> UploadFasta(body, table).response.pathogen == DefaultPathogen
    ensures body.value.pathogen.Some? ==> UploadFasta(body, table).response.pathogen == body.value.pathogen.value
    ensures UploadFasta(body, table).response.filename == body.value.filename
  {
  }

  /** A successful response describes the parsed records one by one: one
      sequence entry with the record's length and one mutation list with the
      record's diff against the selected reference, in record order; the
      summary counts the records and the mutation records of all lists. */
  lemma ResponseMatchesRecords(body: Option<UploadFastaRequest>, table: ReferenceTable)
    requires UploadFasta(body, table).Ok?
    ensures var response := UploadFasta(body, table).response;
      var records := FastaRecords(body.value.content.text);
      && response.summary.sequences == |records| == |response.sequences| == |response.mutations|
      && response.summary.totalMutations == TotalMutations(response.mutations)
      && forall i | 0 <= i < |records| ::
        && response.sequences[i] == SequenceInfo(records[i].id, |records[i].sequence|)
        && response.mutations[i].id == records[i].id
        && response.mutations[i].mutations ==
          PositionalDiff(SelectReference(table, response.pathogen).value, records[i].sequence)
  {
  }

  /** The total is zero exactly when every uploaded sequence equals the
      selected reference. */
  lemma {:induction false} NoMutationsIff(reference: string, records: seq<Record>)
    ensures TotalMutations(MutationLists(reference, records)) == 0 <==>
      forall i | 0 <= i < |records| :: records[i].sequence == reference
  {
    if records != [] {
      var last := |records| - 1;
      assert MutationLists(reference, records)[..last] == MutationLists(reference, records[..last]);
      NoMutationsIff(reference, records[..last]);
      DiffEmptyIff(reference, records[last].sequence);
    }
  }
}
