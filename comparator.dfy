/**
  `compareSequences`: a positional diff of a sample against a reference. Over
  the common prefix it records one SNP per mismatching position; when the
  lengths differ it then records a single trailing INS (the sample is longer)
  or DEL (the reference is longer) carrying the whole leftover suffix.
 */
module Comparator {
  import opened Wrappers
  import opened Api

  function Min(a: nat, b: nat): (m: nat)
    ensures m <= a && m <= b && (m == a || m == b)
  {
    if a < b then a else b
  }

  /** `m` is an SNP record of a position where the two strings differ: it
      names that 1-based position, the reference base and the sample base. */
  predicate IsSnpOf(reference: string, sample: string, m: Mutation) {
    && m.kind == SNP
    && 1 <= m.pos && m.pos <= |reference| && m.pos <= |sample|
    && reference[m.pos - 1] != sample[m.pos - 1]
    && m.ref == [reference[m.pos - 1]] && m.alt == [sample[m.pos - 1]]
  }

  /** Positions strictly increase along `ms`. */
  predicate IncreasingPositions(ms: seq<Mutation>) {
    forall j, k | 0 <= j < k < |ms| :: ms[j].pos < ms[k].pos
  }

  /** The records the position loop has pushed after its first `n` iterations. */
  function SnpsBelow(reference: string, sample: string, n: nat): (snps: seq<Mutation>)
    requires n <= |reference| && n <= |sample|
    ensures |snps| <= n
  {
    if n == 0 then [] else SnpsBelow(reference, sample, n - 1) + SnpAt(reference, sample, n - 1)
  }

  /** What one iteration of the position loop pushes: an SNP record for
      0-based index `i` when the bases there differ. */
  function SnpAt(reference: string, sample: string, i: nat): seq<Mutation>
    requires i < |reference| && i < |sample|
  {
    if reference[i] != sample[i] then [Mutation(i + 1, [reference[i]], [sample[i]], SNP)] else []
  }

  /** The record for a length difference, if any. */
  function Indel(reference: string, sample: string): seq<Mutation> {
    if |sample| > |reference| then [Mutation(|reference| + 1, "-", sample[|reference|..], INS)]
    else if |reference| > |sample| then [Mutation(|sample| + 1, reference[|sample|..], "-", DEL)]
    else []
  }

  /** The list `compareSequences(reference, sample)` returns. */
  function PositionalDiff(reference: string, sample: string): seq<Mutation> {
    SnpsBelow(reference, sample, Min(|reference|, |sample|)) + Indel(reference, sample)
  }

  /** `compareSequences`: the loop over the common prefix, then the one
      trailing insertion or deletion record. */
  method CompareSequences(reference: string, sample: string) returns (mutations: seq<Mutation>)
    ensures mutations == PositionalDiff(reference, sample)
  {
    mutations := [];
    var minLen := Min(|reference|, |sample|);
    for i := 0 to minLen
      invariant mutations == SnpsBelow(reference, sample, i)
    {
      var r := reference[i];
      var s := sample[i];
      if r != s {
        mutations := mutations + [Mutation(i + 1, [r], [s], SNP)];
      }
    }
    if |sample| > |reference| {
      mutations := mutations + [Mutation(|reference| + 1, "-", sample[|reference|..], INS)];
    } else if |reference| > |sample| {
      mutations := mutations + [Mutation(|sample| + 1, reference[|sample|..], "-", DEL)];
    }
  }

  /** The loop's records after `n` iterations are correct SNPs at positions
      up to `n`, in strictly increasing position order. */
  lemma {:induction false} SnpsBelowSound(reference: string, sample: string, n: nat)
    requires n <= |reference| && n <= |sample|
    ensures forall j | 0 <= j < |SnpsBelow(reference, sample, n)| ::
      IsSnpOf(reference, sample, SnpsBelow(reference, sample, n)[j]) && SnpsBelow(reference, sample, n)[j].pos <= n
    ensures IncreasingPositions(SnpsBelow(reference, sample, n))
  {
    if n > 0 {
      SnpsBelowSound(reference, sample, n - 1);
      var earlier := SnpsBelow(reference, sample, n - 1);
      assert SnpsBelow(reference, sample, n) == earlier + SnpAt(reference, sample, n - 1);
      assert forall j | 0 <= j < |earlier| :: earlier[j].pos < n;
    }
  }

  /** Every mismatching position below `n` has an SNP record. */
  lemma {:induction false} SnpsBelowComplete(reference: string, sample: string, n: nat, i: nat)
    requires n <= |reference| && n <= |sample|
    requires i < n && reference[i] != sample[i]
    ensures exists j | 0 <= j < |SnpsBelow(reference, sample, n)| :: SnpsBelow(reference, sample, n)[j].pos == i + 1
  {
    var snps := SnpsBelow(reference, sample, n);
    assert snps == SnpsBelow(reference, sample, n - 1) + SnpAt(reference, sample, n - 1);
    if i == n - 1 {
      assert snps[|snps| - 1].pos == i + 1;
    } else {
      SnpsBelowComplete(reference, sample, n - 1, i);
      var earlier := SnpsBelow(reference, sample, n - 1);
      var j :| 0 <= j < |earlier| && earlier[j].pos == i + 1;
      assert snps[j] == earlier[j];
    }
  }

  /** Every SNP record of the diff is a mismatch of the common prefix,
      with the reference base and the sample base at its position. */
  lemma DiffSnpsSound(reference: string, sample: string)
    ensures var d := PositionalDiff(reference, sample);
      forall j | 0 <= j < |d| && d[j].kind == SNP :: IsSnpOf(reference, sample, d[j])
  {
    var snps := SnpsBelow(reference, sample, Min(|reference|, |sample|));
    SnpsBelowSound(reference, sample, Min(|reference|, |sample|));
    var d := PositionalDiff(reference, sample);
    assert forall j | |snps| <= j < |d| :: d[j].kind != SNP;
    assert forall j | 0 <= j < |snps| :: d[j] == snps[j];
  }

  /** Every mismatching position of the common prefix has an SNP record. */
  lemma DiffSnpsComplete(reference: string, sample: string, i: nat)
    requires i < |reference| && i < |sample| && reference[i] != sample[i]
    ensures var d := PositionalDiff(reference, sample);
      exists j | 0 <= j < |d| :: d[j].kind == SNP && d[j].pos == i + 1
  {
    var n := Min(|reference|, |sample|);
    var snps := SnpsBelow(reference, sample, n);
    SnpsBelowSound(reference, sample, n);
    var d := PositionalDiff(reference, sample);
    SnpsBelowComplete(reference, sample, n, i);
    var j :| 0 <= j < |snps| && snps[j].pos == i + 1;
    assert d[j] == snps[j];
  }

  /** SNP positions strictly increase, and every record before an SNP is an
      SNP: no position is reported twice and the SNPs precede any indel. */
  lemma DiffSnpsOrdered(reference: string, sample: string)
    ensures var d := PositionalDiff(reference, sample);
      forall j, k | 0 <= j < k < |d| && d[k].kind == SNP :: d[j].kind == SNP && d[j].pos < d[k].pos
  {
    var snps := SnpsBelow(reference, sample, Min(|reference|, |sample|));
    SnpsBelowSound(reference, sample, Min(|reference|, |sample|));
    var d := PositionalDiff(reference, sample);
    assert forall j | |snps| <= j < |d| :: d[j].kind != SNP;
    assert forall j | 0 <= j < |snps| :: d[j] == snps[j];
  }

  /** The diff is the loop's SNP records, then at most one indel record. */
  lemma DiffLayout(reference: string, sample: string)
    ensures var d := PositionalDiff(reference, sample);
      var snps := SnpsBelow(reference, sample, Min(|reference|, |sample|));
      && |d| == |snps| + |Indel(reference, sample)|
      && (forall j | 0 <= j < |snps| :: d[j].kind == SNP)
      && (Indel(reference, sample) != [] ==> d[|d| - 1] == Indel(reference, sample)[0])
  {
    var snps := SnpsBelow(reference, sample, Min(|reference|, |sample|));
    SnpsBelowSound(reference, sample, Min(|reference|, |sample|));
    var d := PositionalDiff(reference, sample);
    assert forall j | 0 <= j < |snps| :: d[j] == snps[j];
  }

  /** An INS record appears exactly when the sample is longer than the
      reference; it is then the only one and the last, at the position just
      past the reference, and carries the sample's extra suffix. */
  lemma DiffInsertion(reference: string, sample: string)
    ensures var d := PositionalDiff(reference, sample);
      (exists j | 0 <= j < |d| :: d[j].kind == INS) <==> |sample| > |reference|
    ensures var d := PositionalDiff(reference, sample);
      |sample| > |reference| ==>
        && d != []
        && d[|d| - 1] == Mutation(|reference| + 1, "-", sample[|reference|..], INS)
        && forall j | 0 <= j < |d| - 1 :: d[j].kind == SNP
  {
    DiffLayout(reference, sample);
    var d := PositionalDiff(reference, sample);
    if |sample| > |reference| {
      assert d[|d| - 1].kind == INS;
    }
  }

  /** A DEL record appears exactly when the reference is longer than the
      sample; it is then the only one and the last, at the position just past
      the sample, and carries the reference's extra suffix. */
  lemma DiffDeletion(reference: string, sample: string)
    ensures var d := PositionalDiff(reference, sample);
      (exists j | 0 <= j < |d| :: d[j].kind == DEL) <==> |reference| > |sample|
    ensures var d := PositionalDiff(reference, sample);
      |reference| > |sample| ==>
        && d != []
        && d[|d| - 1] == Mutation(|sample| + 1, reference[|sample|..], "-", DEL)
        && forall j | 0 <= j < |d| - 1 :: d[j].kind == SNP
  {
    DiffLayout(reference, sample);
    var d := PositionalDiff(reference, sample);
    if |reference| > |sample| {
      assert d[|d| - 1].kind == DEL;
    }
  }

  /** At most one record per position of the common prefix, plus one. */
  lemma DiffLength(reference: string, sample: string)
    ensures |PositionalDiff(reference, sample)| <= Min(|reference|, |sample|) + 1
    ensures |reference| == |sample| ==> |PositionalDiff(reference, sample)| <= |reference|
  {
  }

  /** The diff is empty exactly when the sample equals the reference. */
  lemma DiffEmptyIff(reference: string, sample: string)
    ensures PositionalDiff(reference, sample) == [] <==> reference == sample
  {
    var n := Min(|reference|, |sample|);
    if reference == sample {
      NoSnpsWhenEqual(reference, n);
    } else if |reference| == |sample| {
      var i :| 0 <= i < |reference| && reference[i] != sample[i];
      SnpsBelowComplete(reference, sample, n, i);
    }
  }

  lemma {:induction false} NoSnpsWhenEqual(s: string, n: nat)
    requires n <= |s|
    ensures SnpsBelow(s, s, n) == []
  {
    if n > 0 {
      NoSnpsWhenEqual(s, n - 1);
    }
  }

  // Applying mutation records, as an independent reading of what a record
  // means. It is the inverse of the diff: applying the diff of a sample to
  // the reference gives the sample back.

  /** One record applied to `s` (positions are 1-based): an SNP replaces the
      base it names, an INS inserts `alt` before its position, a DEL removes
      `ref` at its position. None when the record does not fit `s`. */
  function ApplyMutation(s: string, m: Mutation): Option<string> {
    match m.kind
    case SNP =>
      if 1 <= m.pos <= |s| && m.ref == [s[m.pos - 1]] && |m.alt| == 1
      then Some(s[..m.pos - 1] + m.alt + s[m.pos..])
      else None
    case INS =>
      if 1 <= m.pos <= |s| + 1 && m.ref == "-"
      then Some(s[..m.pos - 1] + m.alt + s[m.pos - 1..])
      else None
    case DEL =>
      if 1 <= m.pos && m.pos - 1 + |m.ref| <= |s| && s[m.pos - 1..m.pos - 1 + |m.ref|] == m.ref && m.alt == "-"
      then Some(s[..m.pos - 1] + s[m.pos - 1 + |m.ref|..])
      else None
  }

  /** The records applied one after another, from the first. */
  function ApplyAll(s: string, ms: seq<Mutation>): Option<string>
    decreases |ms|
  {
    if ms == [] then Some(s)
    else
      match ApplyMutation(s, ms[0])
      case None => None
      case Some(t) => ApplyAll(t, ms[1..])
  }

  lemma {:induction false} ApplyAllAppend(s: string, a: seq<Mutation>, b: seq<Mutation>)
    ensures ApplyAll(s, a + b) ==
      match ApplyAll(s, a) case None => None case Some(t) => ApplyAll(t, b)
    decreases |a|
  {
    if a == [] {
      assert a + b == b;
    } else {
      assert (a + b)[1..] == a[1..] + b;
      match ApplyMutation(s, a[0])
      case None =>
      case Some(t) => ApplyAllAppend(t, a[1..], b);
    }
  }

  /** Applying `a + b` continues from where applying `a` ends. */
  lemma ApplyAllThen(s: string, a: seq<Mutation>, b: seq<Mutation>, t: string)
    requires ApplyAll(s, a) == Some(t)
    ensures ApplyAll(s, a + b) == ApplyAll(t, b)
  {
    ApplyAllAppend(s, a, b);
  }

  /** An SNP record replaces one base. */
  lemma ApplySnp(s: string, i: nat, c: char)
    requires i < |s|
    ensures ApplyMutation(s, Mutation(i + 1, [s[i]], [c], SNP)) == Some(s[..i] + [c] + s[i + 1..])
  {
  }

  /** An INS record just past the end appends its `alt`. */
  lemma ApplyInsertionAtEnd(s: string, tail: string)
    ensures ApplyMutation(s, Mutation(|s| + 1, "-", tail, INS)) == Some(s + tail)
  {
    var m := Mutation(|s| + 1, "-", tail, INS);
    assert m.pos - 1 == |s|;
    assert s[..m.pos - 1] + m.alt + s[m.pos - 1..] == s + tail;
  }

  /** A DEL record of a suffix removes it. */
  lemma ApplyDeletionOfSuffix(s: string, tail: string)
    ensures ApplyMutation(s + tail, Mutation(|s| + 1, tail, "-", DEL)) == Some(s)
  {
    var t := s + tail;
    assert t[|s|..|s| + |tail|] == tail;
    assert t[..|s|] + t[|s| + |tail|..] == s;
  }

  /** Applying iteration `k - 1`'s record moves the boundary between the
      sample's bases and the reference's one position on, to `k`. */
  lemma ApplySnpAt(reference: string, sample: string, k: nat)
    requires 0 < k <= |reference| && k <= |sample|
    ensures ApplyAll(sample[..k - 1] + reference[k - 1..], SnpAt(reference, sample, k - 1))
      == Some(sample[..k] + reference[k..])
  {
    var i := k - 1;
    var s := sample[..i] + reference[i..];
    assert s[i] == reference[i];
    if reference[i] != sample[i] {
      ApplySnp(s, i, sample[i]);
      var t := s[..i] + [sample[i]] + s[i + 1..];
      assert ApplyAll(s, SnpAt(reference, sample, i)) == ApplyAll(t, []);
      assert t == sample[..k] + reference[k..];
    } else {
      assert s == sample[..k] + reference[k..];
    }
  }

  /** Applying the first `k` positions' SNPs turns those positions of the
      reference into the sample's. */
  lemma {:induction false} ApplySnps(reference: string, sample: string, k: nat)
    requires k <= |reference| && k <= |sample|
    ensures ApplyAll(reference, SnpsBelow(reference, sample, k)) == Some(sample[..k] + reference[k..])
  {
    if k == 0 {
      assert sample[..0] + reference[0..] == reference;
    } else {
      ApplySnps(reference, sample, k - 1);
      ApplySnpsStep(reference, sample, k);
    }
  }

  lemma ApplySnpsStep(reference: string, sample: string, k: nat)
    requires 0 < k <= |reference| && k <= |sample|
    requires ApplyAll(reference, SnpsBelow(reference, sample, k - 1)) == Some(sample[..k - 1] + reference[k - 1..])
    ensures ApplyAll(reference, SnpsBelow(reference, sample, k)) == Some(sample[..k] + reference[k..])
  {
    var earlier := SnpsBelow(reference, sample, k - 1);
    var step := SnpAt(reference, sample, k - 1);
    ApplySnpAt(reference, sample, k);
    ApplyAllThen(reference, earlier, step, sample[..k - 1] + reference[k - 1..]);
    assert SnpsBelow(reference, sample, k) == earlier + step;
  }

  /** After the SNPs, the trailing record turns what is left of the
      reference into the sample. */
  lemma ApplyIndel(reference: string, sample: string)
    ensures ApplyAll(sample[..Min(|reference|, |sample|)] + reference[Min(|reference|, |sample|)..],
      Indel(reference, sample)) == Some(sample)
  {
    var n := Min(|reference|, |sample|);
    var s := sample[..n] + reference[n..];
    if |sample| > |reference| {
      var m := Mutation(|reference| + 1, "-", sample[|reference|..], INS);
      assert s == sample[..|reference|];
      ApplyInsertionAtEnd(s, sample[|reference|..]);
      assert s + sample[|reference|..] == sample;
      assert ApplyAll(s, [m]) == ApplyAll(sample, []);
    } else if |reference| > |sample| {
      var m := Mutation(|sample| + 1, reference[|sample|..], "-", DEL);
      assert s == sample + reference[|sample|..];
      ApplyDeletionOfSuffix(sample, reference[|sample|..]);
      assert ApplyAll(s, [m]) == ApplyAll(sample, []);
    } else {
      assert s == sample;
    }
  }

  /** The diff is a patch: applying it to the reference yields the sample. */
  lemma DiffRoundTrip(reference: string, sample: string)
    ensures ApplyAll(reference, PositionalDiff(reference, sample)) == Some(sample)
  {
    var n := Min(|reference|, |sample|);
    ApplySnps(reference, sample, n);
    ApplyAllThen(reference, SnpsBelow(reference, sample, n), Indel(reference, sample), sample[..n] + reference[n..]);
    ApplyIndel(reference, sample);
  }
}
