# FASTA upload: parsing, positional diff and the upload handler

This project models the server side of the FASTA upload of a pathogen
surveillance dashboard. The source is the Express route
`server/routes/uploadFasta.ts`. It has three parts:

- `parseFasta` splits the uploaded text into records. It splits on runs of
  `>`, trims each segment and drops the empty ones. The identifier of a
  record is the first token of the segment's first line. The sequence is the
  remaining lines joined, with all whitespace removed and upper-cased.
  Records with an empty identifier or an empty sequence are dropped.
- `compareSequences` is a positional diff of a sample against a reference.
  It records one SNP per mismatching position of the common prefix, then at
  most one trailing insertion (INS) or deletion (DEL) record carrying the
  leftover suffix.
- `handleUploadFasta` handles `POST /api/upload-fasta`:
  - it answers 400 when the body has no string `content`;
  - otherwise it selects the reference sequence for the requested pathogen
    (SARS-CoV-2 by default), falling back to the first reference of the
    table;
  - it parses the upload, diffs every record against the reference, and
    returns the sequences, the mutation lists and a summary.

The modules are:

- `Wrappers` holds `Option`.
- `Api` holds the request and response shapes of `shared/api.ts`.
- `JsStrings` holds the JavaScript string built-ins the parser relies on:
  the `\s` class, `trim`, `split` on `/>+/` and on `/\r?\n/`, `join`,
  `replace(/\s+/g, "")`, `toUpperCase` and `split(/\s+/)[0]`.
- `FastaParser` holds `parseFasta`.
- `Comparator` holds `compareSequences`.
- `UploadHandler` holds `handleUploadFasta`.

Each loop of the source is a method whose postcondition ties its result to a
specification function:

- `ParseFasta` is specified by `FastaRecords`.
- `CompareSequences` is specified by `PositionalDiff`.
- `HandleUploadFasta` is specified by `UploadFasta`.

Lemmas then state what those functions promise:

- Parsing inverts FASTA formatting on well-formed records.
- The diff is a patch that turns the reference into the sample, and it is
  empty exactly when the two are equal.
- The handler's replies are characterised case by case.

Express's status codes and JSON serialisation become the `Reply` datatype:

- `BadRequest` is the 400 reply;
- `Ok` is the 200 reply;
- `Thrown` is the TypeError raised by `ref.length` when the reference table
  is empty, so `ref` is `undefined`, and there is a record to compare.

The reference table `data/references` is not part of this model. It is a
parameter: a list of (pathogen, sequence) pairs in the order
`Object.values` enumerates them. `references[pathogen]` is the first entry
with that key.

The response echoes the requested pathogen even when the table lacks it
and the first reference is used instead. `ResponsePathogen` states this.

## Model

| member | source | states |
|---|---|---|
| JsStrings.IsSpace | server/routes/uploadFasta.ts:9-14 | (no contract) defines the code points of `\s` and of `trim`: the ECMAScript WhiteSpace and LineTerminator code points |
| JsStrings.IndexOf | server/routes/uploadFasta.ts:8 | the first occurrence of a code point: none before it, the code point at it, and the length exactly when it is absent |
| JsStrings.RunEnd | server/routes/uploadFasta.ts:8 | the end of the run of a code point starting at an index: the code point all the way up to it and not at it |
| JsStrings.Trim | server/routes/uploadFasta.ts:9 | `trim` leaves no whitespace at either end; the result is empty exactly when the input is all whitespace; it is the identity on trimmed strings, keeps only code points of its input, and is a contiguous slice of the input with only whitespace before and after it |
| JsStrings.TrimWithin | server/routes/uploadFasta.ts:9 | whitespace that ends the text after its leading whitespace ends the text itself |
| JsStrings.SplitOnRuns | server/routes/uploadFasta.ts:8 | `split(/>+/)` gives at least one piece, and no piece contains the separator |
| JsStrings.JoinWith | server/routes/uploadFasta.ts:8 | (no contract) defines `join(c)`, the pieces with one separator between neighbours |
| JsStrings.CollapseRuns | server/routes/uploadFasta.ts:8 | (no contract) defines the text with every maximal run of the separator shortened to one separator |
| JsStrings.CollapseFrom | server/routes/uploadFasta.ts:8 | (no contract) defines `CollapseRuns` of a suffix, read off the whole text from an index on |
| JsStrings.SplitOnRunsJoin | server/routes/uploadFasta.ts:8 | joining the pieces of `split(/>+/)` with one `>` gives the input with every run of `>` collapsed to one: the pieces are exactly the text between the runs |
| JsStrings.SplitOnRunsUnfold | server/routes/uploadFasta.ts:8 | on a text with a separator, the first piece is the text before it and the rest are the pieces of the text after its run |
| JsStrings.JoinWithCons | server/routes/uploadFasta.ts:8 | joining a piece onto at least one more puts one separator between it and the join of the rest |
| JsStrings.CollapsePrefix | server/routes/uploadFasta.ts:8 | a stretch without the separator passes through the collapse unchanged |
| JsStrings.CollapseRun | server/routes/uploadFasta.ts:8 | a run of the separator collapses to a single separator, followed by the collapsed text after the run |
| JsStrings.CollapseShift | server/routes/uploadFasta.ts:8 | collapsing a suffix of the text is collapsing the text from the suffix's start |
| JsStrings.RunEndShift | server/routes/uploadFasta.ts:8 | a run ends at the same place in the text and in any suffix holding it |
| JsStrings.SplitOnRunsChars | server/routes/uploadFasta.ts:8 | every piece of `split(/>+/)` is made of the input's code points |
| JsStrings.SplitOnRunsPiece | server/routes/uploadFasta.ts:8 | one piece of `split(/>+/)` at a time is made of the input's code points |
| JsStrings.SplitLines | server/routes/uploadFasta.ts:12 | `split(/\r?\n/)` gives at least one line, and no line contains a line feed |
| JsStrings.SplitLinesChars | server/routes/uploadFasta.ts:12 | every line of `split(/\r?\n/)` is made of the input's code points |
| JsStrings.SplitLinesLine | server/routes/uploadFasta.ts:12 | one line of `split(/\r?\n/)` at a time is made of the input's code points |
| JsStrings.SplitLinesUnfold | server/routes/uploadFasta.ts:12 | on a text with a line feed, the first line is the text before it less a final `\r`, and the rest are the lines after it |
| JsStrings.DropCarriageReturn | server/routes/uploadFasta.ts:12 | the optional `\r` before a line break is removed: the result is the line or the line less one final `\r`, and it is the latter exactly when the line ends with `\r` |
| JsStrings.Concat | server/routes/uploadFasta.ts:14 | `join("")` of a single line is that line |
| JsStrings.StripSpace | server/routes/uploadFasta.ts:14 | `replace(/\s+/g, "")` leaves no whitespace, never lengthens, is the identity on whitespace-free strings and keeps only code points of its input |
| JsStrings.StripSpaceAppend | server/routes/uploadFasta.ts:14 | removing whitespace distributes over concatenation |
| JsStrings.StripLeadingSpace | server/routes/uploadFasta.ts:14 | a leading whitespace code point is removed |
| JsStrings.StripAroundSpace | server/routes/uploadFasta.ts:14 | stripping a text around a whitespace code point joins the stripped parts before and after it |
| JsStrings.StripCarriageReturn | server/routes/uploadFasta.ts:12-14 | the carriage return dropped by the line split would be stripped anyway |
| JsStrings.LinesAfterFirst | server/routes/uploadFasta.ts:12-14 | `lines.slice(1)` is empty for a one-line text, and otherwise is the lines of the text after the first line feed |
| JsStrings.LinesAfterBreak | server/routes/uploadFasta.ts:12-14 | after the first line feed, `lines.slice(1)` is the split of the rest of the text |
| JsStrings.LinesNoBreak | server/routes/uploadFasta.ts:12-14 | a text without a line feed has no line after the first |
| JsStrings.ConcatCons | server/routes/uploadFasta.ts:14 | `join("")` of a line followed by more lines is that line followed by their join |
| JsStrings.StripSpaceLines | server/routes/uploadFasta.ts:12-14 | splitting into lines and joining them loses only line breaks: once whitespace is stripped the result equals the stripped text |
| JsStrings.UpperChar | server/routes/uploadFasta.ts:14 | upper-casing one code point maps `a`-`z` to `A`-`Z` (32 lower) and leaves every other code point alone |
| JsStrings.ToUpper | server/routes/uploadFasta.ts:14 | `toUpperCase` keeps the length, upper-cases position by position, leaves no lower-case ASCII letter, is the identity on strings without one, keeps whitespace-freedom, and introduces no new code point other than an upper-case letter |
| JsStrings.FirstToken | server/routes/uploadFasta.ts:13 | `split(/\s+/)[0]` is a whitespace-free prefix that stops at the first whitespace |
| JsStrings.IndexOfSpacePrefix | server/routes/uploadFasta.ts:13 | a prefix followed by whitespace has the same first whitespace position as the whole text |
| JsStrings.FirstTokenFirstLine | server/routes/uploadFasta.ts:12-13 | the first token of the first line is the first token of the text |
| FastaParser.TrimAll | server/routes/uploadFasta.ts:9 | `map(trim)` keeps the number of pieces and trims each piece in place |
| FastaParser.NonEmpty | server/routes/uploadFasta.ts:10 | `filter(Boolean)` keeps only non-empty pieces, each taken from the input, and drops nothing when all are non-empty |
| FastaParser.NonEmptyAppend | server/routes/uploadFasta.ts:10 | `filter(Boolean)` of a concatenation is the concatenation of the filtered parts, so it keeps order |
| FastaParser.NonEmptySingle | server/routes/uploadFasta.ts:10 | a single piece is kept exactly when it is non-empty |
| FastaParser.Segments | server/routes/uploadFasta.ts:7-10 | every segment is non-empty, free of `>` and trimmed |
| FastaParser.HeaderId | server/routes/uploadFasta.ts:12-13 | the identifier is the first whitespace-delimited token of the segment (hence of its first line); it has no whitespace, and no `>` when the segment has none |
| FastaParser.AfterFirstLine | server/routes/uploadFasta.ts:12-14 | (no contract) defines the text after the segment's first line feed, where `lines.slice(1)` comes from; empty for a one-line segment |
| FastaParser.SequenceOf | server/routes/uploadFasta.ts:12-14 | the sequence is the whole text after the first line, every whitespace code point removed (so wrapped lines are joined) and upper-cased; it has no whitespace and no lower-case ASCII letter, and no `>` when the segment has none |
| FastaParser.ParseRecord | server/routes/uploadFasta.ts:12-15 | a segment yields a record exactly when its identifier and its sequence are both non-empty, and the record carries that identifier and sequence; a `>`-free segment yields a well-formed record |
| FastaParser.ConcatExcludes | server/routes/uploadFasta.ts:14 | a code point absent from every line is absent from their join |
| FastaParser.RecordsOf | server/routes/uploadFasta.ts:11-16 | the loop yields at most one record per segment |
| FastaParser.FastaRecords | server/routes/uploadFasta.ts:5-18 | every record is well formed (non-empty identifier and sequence, no whitespace, no `>`, no lower-case letter in the sequence), and there are no more records than segments |
| FastaParser.RecordsOfWellFormed | server/routes/uploadFasta.ts:11-16 | segments without `>` yield well-formed records only |
| FastaParser.RecordsOfSnoc | server/routes/uploadFasta.ts:11-16 | one more segment appends its record, if any, at the end |
| FastaParser.ParseFasta | server/routes/uploadFasta.ts:5-18 | the loop returns exactly the specified records, all well formed |
| FastaParser.SplitFormat | server/routes/uploadFasta.ts:8 | splitting formatted records on `>` runs gives one piece per entry after the text before the first `>` |
| FastaParser.TrimEntry | server/routes/uploadFasta.ts:9 | trimming an entry removes exactly its final line feed |
| FastaParser.ParseRecordEntry | server/routes/uploadFasta.ts:12-15 | the two-line segment of a well-formed record parses back to that record |
| FastaParser.EntryLines | server/routes/uploadFasta.ts:12 | the two-line segment of a well-formed record splits into its identifier line and its sequence line |
| FastaParser.SegmentsOfFormat | server/routes/uploadFasta.ts:7-10 | the segments of formatted records are their trimmed entries, in order |
| FastaParser.ParseFormat | server/routes/uploadFasta.ts:5-18 | parsing the FASTA text of well-formed records returns those records: the parser inverts formatting |
| Comparator.Min | server/routes/uploadFasta.ts:23 | `Math.min`: no larger than either argument and equal to one of them |
| Comparator.SnpAt | server/routes/uploadFasta.ts:25-29 | (no contract) defines what iteration `i` pushes: the SNP record `i + 1`, reference base, sample base when the bases differ, nothing otherwise |
| Comparator.Indel | server/routes/uploadFasta.ts:31-46 | (no contract) defines the trailing record: INS at the position past the reference with `-` and the sample's suffix when the sample is longer, DEL at the position past the sample with the reference's suffix and `-` when the reference is longer, none when the lengths agree |
| Comparator.PositionalDiff | server/routes/uploadFasta.ts:20-48 | (no contract) defines the returned list as the loop's records over the common prefix followed by the trailing record; its properties are the Diff lemmas below |
| Comparator.SnpsBelow | server/routes/uploadFasta.ts:24-30 | after `n` iterations the loop has pushed at most `n` records |
| Comparator.CompareSequences | server/routes/uploadFasta.ts:20-48 | the loop and the trailing indel step return exactly the positional diff |
| Comparator.SnpsBelowSound | server/routes/uploadFasta.ts:24-30 | every record pushed in the first `n` iterations is an SNP of a mismatching position up to `n`, with the reference base and the sample base, and positions strictly increase |
| Comparator.SnpsBelowComplete | server/routes/uploadFasta.ts:24-30 | every mismatching position below `n` has a record |
| Comparator.DiffSnpsSound | server/routes/uploadFasta.ts:23-30 | every SNP record of the diff names a mismatching position of the common prefix and the two bases there |
| Comparator.DiffSnpsComplete | server/routes/uploadFasta.ts:23-30 | every mismatching position of the common prefix has an SNP record at its 1-based position |
| Comparator.DiffSnpsOrdered | server/routes/uploadFasta.ts:24-46 | SNP positions strictly increase and every record before an SNP is an SNP |
| Comparator.DiffLayout | server/routes/uploadFasta.ts:23-46 | the diff is the SNP records followed by the indel record, if any |
| Comparator.DiffInsertion | server/routes/uploadFasta.ts:31-38 | an INS record appears exactly when the sample is longer; it is then last, at the position past the reference, with `-` and the sample's extra suffix, and everything before it is an SNP |
| Comparator.DiffDeletion | server/routes/uploadFasta.ts:39-46 | a DEL record appears exactly when the reference is longer; it is then last, at the position past the sample, with the reference's extra suffix and `-`, and everything before it is an SNP |
| Comparator.DiffLength | server/routes/uploadFasta.ts:23-46 | at most one record per position of the common prefix plus one; no more records than bases when the lengths agree |
| Comparator.DiffEmptyIff | server/routes/uploadFasta.ts:20-48 | the diff is empty exactly when the sample equals the reference |
| Comparator.NoSnpsWhenEqual | server/routes/uploadFasta.ts:24-30 | comparing a sequence with itself pushes no SNP |
| Comparator.ApplyAllAppend | server/routes/uploadFasta.ts:20-48 | applying two lists of records one after the other is applying their concatenation |
| Comparator.ApplySnp | server/routes/uploadFasta.ts:28 | an SNP record replaces exactly the base it names |
| Comparator.ApplyInsertionAtEnd | server/routes/uploadFasta.ts:33-38 | the INS record past the end appends its `alt` |
| Comparator.ApplyDeletionOfSuffix | server/routes/uploadFasta.ts:40-45 | the DEL record of a suffix removes that suffix |
| Comparator.ApplySnps | server/routes/uploadFasta.ts:24-30 | applying the first `k` iterations' records turns the first `k` bases of the reference into the sample's |
| Comparator.ApplyIndel | server/routes/uploadFasta.ts:31-46 | after the SNPs, the indel record turns what is left into the sample |
| Comparator.DiffRoundTrip | server/routes/uploadFasta.ts:20-48 | the diff is a patch: applying it to the reference yields the sample |
| UploadHandler.Lookup | server/routes/uploadFasta.ts:57 | `references[pathogen]` is undefined exactly when no entry has the key, and otherwise is the sequence of the first entry with it |
| UploadHandler.SelectReference | server/routes/uploadFasta.ts:56-57 | the reference is missing exactly when the table is empty; it is the pathogen's entry when there is one and otherwise the first entry's sequence |
| UploadHandler.SequenceInfos | server/routes/uploadFasta.ts:63 | (no contract) defines one `{id, length}` entry per record, in record order |
| UploadHandler.MutationLists | server/routes/uploadFasta.ts:71-73 | (no contract) defines one `{id, mutations}` list per record, holding the record's diff against the reference, in record order |
| UploadHandler.TotalMutations | server/routes/uploadFasta.ts:67-74 | (no contract) defines the running total: the sum of the lengths of the mutation lists |
| UploadHandler.UploadFasta | server/routes/uploadFasta.ts:50-78 | (no contract) defines the reply: 400 without a string `content`; the TypeError when no reference exists and a record does; otherwise the 200 response built from the parsed records; its properties are the lemmas below |
| UploadHandler.HandleUploadFasta | server/routes/uploadFasta.ts:50-78 | the handler's reply is exactly the specified reply |
| UploadHandler.BadRequestIff | server/routes/uploadFasta.ts:51-54 | a 400 reply comes exactly from a missing body or a missing or non-string `content`, with the fixed error message |
| UploadHandler.OkWhenContentGiven | server/routes/uploadFasta.ts:56-57 | with a string `content` and a non-empty table the handler succeeds, whatever the pathogen key |
| UploadHandler.ThrownIff | server/routes/uploadFasta.ts:57-75 | the handler throws exactly when the table is empty and the upload yields a record |
| UploadHandler.ResponsePathogen | server/routes/uploadFasta.ts:56-62 | the response echoes the requested pathogen, or SARS-CoV-2 when none was given, and the filename |
| UploadHandler.ResponseMatchesRecords | server/routes/uploadFasta.ts:59-75 | the response has one sequence entry and one mutation list per parsed record, in order; each has the record's identifier, its length and its diff against the selected reference; the summary counts records and mutation records |
| UploadHandler.NoMutationsIff | server/routes/uploadFasta.ts:71-75 | the total is zero exactly when every record's sequence equals the reference |
| Wrappers.Option.GetOr | server/routes/uploadFasta.ts:56 | `??` gives the value when present and the default otherwise |

## Left out

- Strings are sequences of Unicode code points. JavaScript indexes UTF-16
  code units, so lengths, positions and `ref[i]` differ for characters
  outside the Basic Multilingual Plane.
- `toUpperCase` is modelled on ASCII letters only. Other letters, and
  special cases such as `ß` becoming `SS`, are not modelled.
- `\s` and `trim` use the fixed ECMAScript WhiteSpace and LineTerminator
  set. The set of space separators of later Unicode versions is not
  tracked.
- `data/references` is not part of this model. The table is a parameter.
  Keys inherited from `Object.prototype` (for example `toString`) are not
  modelled as lookups.
- Run-time values of `pathogen` or `filename` other than a string or
  absent (a number, an object) are not modelled. `content` is: any
  non-string value gives the 400 reply.
- Express's `status` and `json` calls, and the HTTP layer, are replaced by
  the `Reply` value.
- Positions and counts are unbounded naturals. JavaScript numbers are exact
  up to 2^53, far beyond any upload.
- The client pages, charts and training script are outside this model.
  `shared/api.ts` is mirrored only as datatypes.
