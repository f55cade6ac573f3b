/** The request and response shapes of the FASTA upload endpoint, as declared
    in shared/api.ts. A JavaScript `null` or absent field is `None`. */
module Api {
  import opened Wrappers

  /** The `type` tag of a mutation record. */
  datatype Kind = SNP | INS | DEL

  /** One difference between a sample and the reference; `pos` is 1-based. */
  datatype Mutation = Mutation(pos: nat, ref: string, alt: string, kind: Kind)

  /** The `content` field of the request body as the handler sees it at run
      time: absent, a string, or some other JSON value. */
  datatype Content = Absent | Text(text: string) | NotText

  datatype UploadFastaRequest = UploadFastaRequest(
    filename: Option<string>,
    pathogen: Option<string>,
    content: Content)

  datatype SequenceInfo = SequenceInfo(id: string, length: nat)

  datatype SequenceMutations = SequenceMutations(id: string, mutations: seq<Mutation>)

  datatype Summary = Summary(sequences: nat, totalMutations: nat)

  datatype UploadFastaResponse = UploadFastaResponse(
    filename: Option<string>,
    pathogen: string,
    sequences: seq<SequenceInfo>,
    mutations: seq<SequenceMutations>,
    summary: Summary)
}
