/** The scan of the output tensor in `loop` (main/main_functions.cc): each
    category's score byte is read through the `uint8` view and stored into an
    `int8_t`, so scores compare as signed bytes. The scan keeps the running
    maximum, its first position `idx`, and `idx2`, the position `idx` held
    before its last change, then looks both up in the label table. */
module ScoreScan {
  import opened Bytes

  /** The loop's variables `idx`, `idx2` and `max_confidence`. */
  datatype ScanState = ScanState(idx: nat, idx2: nat, maxConfidence: Int8)

  /** The scores as the loop compares them: every byte read as signed. */
  function SignedScores(raw: seq<bv8>): (s: seq<Int8>)
    ensures |s| == |raw|
    ensures forall i :: 0 <= i < |raw| ==> s[i] == ToSigned(raw[i])
  {
    seq(|raw|, i requires 0 <= i < |raw| => ToSigned(raw[i]))
  }

  /** k is the first position of the largest of the first `hi` scores. */
  predicate IsFirstMaxOf(s: seq<Int8>, hi: nat, k: nat)
    requires hi <= |s|
  {
    && k < hi
    && (forall j :: 0 <= j < hi ==> s[j] <= s[k])
    && (forall j :: 0 <= j < k ==> s[j] < s[k])
  }

  /** One iteration at position i with score `cur`: only a strictly larger
      score moves `idx`, and `idx2` then takes the old `idx`. */
  function Step(st: ScanState, i: nat, cur: Int8): (r: ScanState)
    ensures r.maxConfidence >= st.maxConfidence && r.maxConfidence >= cur
    ensures r == st || (st.maxConfidence < cur && r.idx == i && r.idx2 == st.idx && r.maxConfidence == cur)
  {
    if st.maxConfidence < cur then ScanState(i, st.idx, cur) else st
  }

  /** The loop's state after its first k iterations, starting from
      `idx = idx2 = 0` and `max_confidence` the score at position 0. */
  function ScanUpTo(s: seq<Int8>, k: nat): (st: ScanState)
    requires 1 <= |s| && k <= |s|
    ensures st.idx2 <= st.idx < if k == 0 then 1 else k
    decreases k
  {
    if k == 0 then ScanState(0, 0, s[0])
    else Step(ScanUpTo(s, k - 1), k - 1, s[k - 1])
  }

  /** The loop's state once it has run over all the scores. */
  function Scan(s: seq<Int8>): (st: ScanState)
    requires 1 <= |s|
    ensures st.idx2 <= st.idx < |s|
  {
    ScanUpTo(s, |s|)
  }

  /** What the loop keeps after k iterations: `idx` is the first position of
      the maximum seen so far and `max_confidence` its score; `idx2` is 0
      while `idx` is 0 and otherwise the first position of the maximum of the
      scores before `idx`. */
  lemma {:induction false} ScanUpToInvariant(s: seq<Int8>, k: nat)
    requires 1 <= |s| && k <= |s|
    ensures IsFirstMaxOf(s, if k == 0 then 1 else k, ScanUpTo(s, k).idx)
    ensures ScanUpTo(s, k).maxConfidence == s[ScanUpTo(s, k).idx]
    ensures ScanUpTo(s, k).idx == 0 ==> ScanUpTo(s, k).idx2 == 0
    ensures ScanUpTo(s, k).idx > 0 ==> IsFirstMaxOf(s, ScanUpTo(s, k).idx, ScanUpTo(s, k).idx2)
  {
    if k > 0 {
      ScanUpToInvariant(s, k - 1);
    }
  }

  /** The first position of a maximum is unique. */
  lemma FirstMaxUnique(s: seq<Int8>, hi: nat, a: nat, b: nat)
    requires hi <= |s|
    requires IsFirstMaxOf(s, hi, a) && IsFirstMaxOf(s, hi, b)
    ensures a == b
  {
    assert s[a] <= s[b] && s[b] <= s[a];
  }

  /** After the whole scan, `idx` is the first position of the largest score
      (ties go to the earliest position, since only a strict `<` moves it),
      `max_confidence` is that score, and both indices are below the number
      of categories. */
  lemma ScanFindsFirstMax(s: seq<Int8>)
    requires 1 <= |s|
    ensures Scan(s).idx < |s| && Scan(s).idx2 < |s|
    ensures IsFirstMaxOf(s, |s|, Scan(s).idx)
    ensures Scan(s).maxConfidence == s[Scan(s).idx]
    ensures Scan(s).idx2 <= Scan(s).idx
  {
    ScanUpToInvariant(s, |s|);
  }

  /** `idx2` is the value `idx` held just before its last update: 0 when the
      first score is already the maximum, otherwise what the scan of the
      scores before `idx` returns as its `idx`. */
  lemma Idx2IsPreviousIdx(s: seq<Int8>)
    requires 1 <= |s|
    ensures Scan(s).idx == 0 ==> Scan(s).idx2 == 0
    ensures Scan(s).idx > 0 ==> Scan(s).idx2 == ScanUpTo(s, Scan(s).idx).idx
  {
    var st := Scan(s);
    ScanUpToInvariant(s, |s|);
    if st.idx > 0 {
      ScanUpToInvariant(s, st.idx);
      FirstMaxUnique(s, st.idx, st.idx2, ScanUpTo(s, st.idx).idx);
    }
  }

  /** When the first score is a maximum, both indices stay 0. */
  lemma FirstScoreMaximal(s: seq<Int8>)
    requires 1 <= |s|
    requires forall j :: 0 <= j < |s| ==> s[j] <= s[0]
    ensures Scan(s).idx == 0 && Scan(s).idx2 == 0
  {
    ScanUpToInvariant(s, |s|);
  }

  /** `idx2` is not the runner-up: with scores [1, 9, 5] the scan reports
      `idx2 = 0` although position 2 holds the second-largest score; with
      [9, 1, 5] it reports `idx2 = idx = 0`. */
  lemma Idx2IsNotRunnerUp()
    ensures Scan([1, 9, 5]).idx == 1 && Scan([1, 9, 5]).idx2 == 0
    ensures Scan([9, 1, 5]).idx == 0 && Scan([9, 1, 5]).idx2 == 0
  {
    var s: seq<Int8> := [1, 9, 5];
    assert ScanUpTo(s, 1) == ScanState(0, 0, 1);
    assert ScanUpTo(s, 2) == ScanState(1, 0, 9);
    assert ScanUpTo(s, 3) == ScanState(1, 0, 9);
    var t: seq<Int8> := [9, 1, 5];
    assert ScanUpTo(t, 1) == ScanState(0, 0, 9);
    assert ScanUpTo(t, 2) == ScanState(0, 0, 9);
    assert ScanUpTo(t, 3) == ScanState(0, 0, 9);
  }

  /** Bytes read through `uint8` compare as signed: 0x7F (127) beats 0x80
      (-128), so the scan of the raw bytes [0x7F, 0x80] picks position 0. */
  lemma ScoresCompareSigned()
    ensures Scan(SignedScores([0x7F, 0x80])).idx == 0
  {
    var s := SignedScores([0x7F, 0x80]);
    assert s == [127, -128];
    assert ScanUpTo(s, 1) == ScanState(0, 0, 127);
    assert ScanUpTo(s, 2) == ScanState(0, 0, 127);
  }

  /** The scan loop of `loop` over the first n bytes of the output tensor
      (n is the category count). */
  method ScanScores(output: array<bv8>, n: nat) returns (idx: nat, idx2: nat, maxConfidence: Int8)
    requires 1 <= n <= output.Length
    ensures ScanState(idx, idx2, maxConfidence) == Scan(SignedScores(output[..n]))
    ensures idx < n && idx2 < n
    ensures maxConfidence == ToSigned(output[idx])
    ensures forall j :: 0 <= j < n ==> ToSigned(output[j]) <= maxConfidence
    ensures forall j :: 0 <= j < idx ==> ToSigned(output[j]) < maxConfidence
    ensures idx == 0 ==> idx2 == 0
    ensures idx > 0 ==> IsFirstMaxOf(SignedScores(output[..n]), idx, idx2)
  {
    ghost var s := SignedScores(output[..n]);
    idx := 0;
    idx2 := 0;
    maxConfidence := ToSigned(output[idx]);
    var i := 0;
    while i < n
      invariant 0 <= i <= n
      invariant ScanState(idx, idx2, maxConfidence) == ScanUpTo(s, i)
    {
      var curConfidence := ToSigned(output[i]);
      if maxConfidence < curConfidence {
        idx2 := idx;
        idx := i;
        maxConfidence := curConfidence;
      }
      i := i + 1;
    }
    ScanUpToInvariant(s, n);
  }

  /** The end of `loop`: scan the scores and look up the labels of `idx` and
      `idx2` in the label table, which has one entry per category. */
  method DetectLabels(output: array<bv8>, n: nat, labels: seq<string>)
    returns (detected: string, detected2: string)
    requires 1 <= n <= output.Length && |labels| == n
    ensures detected == labels[Scan(SignedScores(output[..n])).idx]
    ensures detected2 == labels[Scan(SignedScores(output[..n])).idx2]
  {
    var idx, idx2, _ := ScanScores(output, n);
    detected := labels[idx];
    detected2 := labels[idx2];
  }
}
