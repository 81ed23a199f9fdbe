/**
  The reconciliation loop of the three `dataset/test_*.py` scripts: every base
  name is normalised and given a fresh match list, and every candidate whose
  comparison form passes the loose rule against it is appended. The scripts
  differ only in what they do with a candidate, captured by `CandidateForm`.
 */
module Reconcile {
  import opened Seqs
  import opened Text
  import opened Order
  import opened Matching
  import opened MatchLog

  /** test_1 and test_3 normalise the candidate, compare the normalised form and
      store it. test_2 only lower-cases the candidate for the comparison and
      stores the candidate as it was. */
  datatype CandidateForm = NormalizedCandidates | LowercasedCandidates

  /** The form of a candidate that the loose rule sees. */
  function CompareKey(form: CandidateForm, c: string): string
  {
    match form
    case NormalizedCandidates => Normalize(c)
    case LowercasedCandidates => Lower(c)
  }

  /** The form of a candidate that is appended to the match list. */
  function StoredName(form: CandidateForm, c: string): string
  {
    match form
    case NormalizedCandidates => Normalize(c)
    case LowercasedCandidates => c
  }

  /** The match list of one (already normalised) base, as the inner loop
      builds it: candidates in their given order, each stored once per time
      it passes. */
  function Matches(form: CandidateForm, base: string, cands: seq<string>): (r: seq<string>)
    ensures |r| <= |cands|
    decreases |cands|
  {
    if |cands| == 0 then []
    else
      var prev := cands[..|cands| - 1];
      var c := cands[|cands| - 1];
      assert cands == prev + [c];
      if LooseMatch(base, CompareKey(form, c)) then Matches(form, base, prev) + [StoredName(form, c)]
      else Matches(form, base, prev)
  }

  /** The loose rule against `base`, as a test on comparison forms. */
  function LooseTest(base: string): string -> bool
  {
    k => LooseMatch(base, k)
  }

  /** test_2's test: the loose rule on the lower-cased candidate. */
  function LowercasedTest(base: string): string -> bool
  {
    c => LooseMatch(base, Lower(c))
  }

  /** test_1 / test_3: the match list is the in-order filter of the normalised
      candidate list. */
  lemma {:induction false} MatchesNormalizedFilter(base: string, cands: seq<string>)
    ensures Matches(NormalizedCandidates, base, cands) == Filter(LooseTest(base), Map(Normalize, cands))
    decreases |cands|
  {
    if |cands| > 0 {
      var prev := cands[..|cands| - 1];
      var c := cands[|cands| - 1];
      assert cands == prev + [c];
      MatchesNormalizedFilter(base, prev);
      var n := Normalize(c);
      assert Map(Normalize, cands) == Map(Normalize, prev) + [n] by {
        MapConcat(Normalize, prev, [c]);
        assert Map(Normalize, [c]) == [n];
      }
      FilterSnoc(LooseTest(base), Map(Normalize, prev), n);
      assert LooseTest(base)(n) == LooseMatch(base, CompareKey(NormalizedCandidates, c));
    }
  }

  /** test_2: the match list is the in-order filter of the original candidates,
      tested on their lower-cased form. */
  lemma {:induction false} MatchesLowercasedFilter(base: string, cands: seq<string>)
    ensures Matches(LowercasedCandidates, base, cands) == Filter(LowercasedTest(base), cands)
    decreases |cands|
  {
    if |cands| > 0 {
      var prev := cands[..|cands| - 1];
      var c := cands[|cands| - 1];
      assert cands == prev + [c];
      MatchesLowercasedFilter(base, prev);
      FilterSnoc(LowercasedTest(base), prev, c);
    }
  }

  /** One more candidate adds its stored form at the end exactly when it passes. */
  lemma {:induction false} MatchesSnoc(form: CandidateForm, base: string, cands: seq<string>, c: string)
    ensures Matches(form, base, cands + [c])
         == Matches(form, base, cands) + (if LooseMatch(base, CompareKey(form, c)) then [StoredName(form, c)] else [])
  {
    assert (cands + [c])[..|cands|] == cands;
  }

  /** A name is in the match list exactly when some candidate passes the loose
      rule and is stored as that name (sound and complete). */
  lemma {:induction false} MatchesMembership(form: CandidateForm, base: string, cands: seq<string>, x: string)
    ensures x in Matches(form, base, cands) <==> exists c :: c in cands && LooseMatch(base, CompareKey(form, c)) && x == StoredName(form, c)
  {
    match form
    case NormalizedCandidates =>
      MatchesNormalizedFilter(base, cands);
      MapMembership(Normalize, cands, x);
    case LowercasedCandidates =>
      MatchesLowercasedFilter(base, cands);
  }

  /** test_2 walks a sorted, duplicate-free candidate list, so each of its
      match lists is sorted and duplicate-free too. */
  lemma MatchesLowercasedSorted(base: string, cands: seq<string>)
    requires StrictlySorted(cands)
    ensures StrictlySorted(Matches(LowercasedCandidates, base, cands))
    ensures Distinct(Matches(LowercasedCandidates, base, cands))
  {
    MatchesLowercasedFilter(base, cands);
    FilterSorted(LowercasedTest(base), cands);
    SortedDistinct(Matches(LowercasedCandidates, base, cands));
  }

  /** test_1 / test_3 store the normalised candidate, so no stored match holds a
      hyphen or a capital. */
  lemma {:induction false} MatchesNormalizedClean(base: string, cands: seq<string>, m: string)
    requires m in Matches(NormalizedCandidates, base, cands)
    ensures '-' !in m && IsLowerCase(m)
  {
    MatchesMembership(NormalizedCandidates, base, cands, m);
  }

  /** The whole reconciliation: for each base in order, `matching_log[base] = []`
      and then the inner loop's appends. A repeated base lands on its earlier key. */
  function BuildLog(form: CandidateForm, bases: seq<string>, cands: seq<string>): (log: Log)
    ensures |log| <= |bases|
    decreases |bases|
  {
    if |bases| == 0 then []
    else
      var key := Normalize(bases[|bases| - 1]);
      Assign(BuildLog(form, bases[..|bases| - 1], cands), key, Matches(form, key, cands))
  }

  /** One more base is one more pass of the outer loop. */
  lemma {:induction false} BuildLogSnoc(form: CandidateForm, bases: seq<string>, b: string, cands: seq<string>)
    ensures BuildLog(form, bases + [b], cands)
         == Assign(BuildLog(form, bases, cands), Normalize(b), Matches(form, Normalize(b), cands))
  {
    assert (bases + [b])[..|bases|] == bases;
  }

  /** Each key holds its own match list and no key occurs twice. */
  lemma {:induction false} BuildLogEntries(form: CandidateForm, bases: seq<string>, cands: seq<string>)
    ensures DistinctKeys(BuildLog(form, bases, cands))
    ensures forall i :: 0 <= i < |BuildLog(form, bases, cands)| ==>
              BuildLog(form, bases, cands)[i].values == Matches(form, BuildLog(form, bases, cands)[i].key, cands)
    decreases |bases|
  {
    if |bases| > 0 {
      BuildLogEntries(form, bases[..|bases| - 1], cands);
    }
  }

  /** The keys are exactly the normalised bases. */
  lemma {:induction false} BuildLogKeys(form: CandidateForm, bases: seq<string>, cands: seq<string>, k: string)
    ensures k in Keys(BuildLog(form, bases, cands)) <==> exists b :: b in bases && Normalize(b) == k
    decreases |bases|
  {
    if |bases| > 0 {
      var prev := bases[..|bases| - 1];
      var b := bases[|bases| - 1];
      assert bases == prev + [b];
      BuildLogKeys(form, prev, cands, k);
      var before := BuildLog(form, prev, cands);
      var key := Normalize(b);
      var log := Assign(before, key, Matches(form, key, cands));
      assert BuildLog(form, bases, cands) == log;
      if k != key {
        AssignOtherKey(before, key, Matches(form, key, cands), k);
        if exists b' :: b' in bases && Normalize(b') == k {
          var b' :| b' in bases && Normalize(b') == k;
          assert b' in prev;
        }
      }
    }
  }

  /** A base whose normalised form is already a key produces the same list at
      the same position, so the log does not change. */
  lemma {:induction false} BuildLogRepeat(form: CandidateForm, bases: seq<string>, b: string, cands: seq<string>)
    requires Normalize(b) in Keys(BuildLog(form, bases, cands))
    ensures BuildLog(form, bases + [b], cands) == BuildLog(form, bases, cands)
  {
    var log := BuildLog(form, bases, cands);
    assert (bases + [b])[..|bases|] == bases;
    BuildLogEntries(form, bases, cands);
    AssignSame(log, Normalize(b), Matches(form, Normalize(b), cands));
  }

  /** A base whose normalised form is new adds one entry at the end: keys appear
      in the order of their first occurrence. */
  lemma {:induction false} BuildLogNew(form: CandidateForm, bases: seq<string>, b: string, cands: seq<string>)
    requires Normalize(b) !in Keys(BuildLog(form, bases, cands))
    ensures BuildLog(form, bases + [b], cands)
         == BuildLog(form, bases, cands) + [Entry(Normalize(b), Matches(form, Normalize(b), cands))]
  {
    assert (bases + [b])[..|bases|] == bases;
  }

  /** The normalised base names, as a set. */
  function NormalizedBases(bases: seq<string>): set<string>
  {
    set b | b in bases :: Normalize(b)
  }

  /** The report has one entry per distinct normalised base: that many names are
      counted as matched or unmatched. */
  lemma BuildLogSize(form: CandidateForm, bases: seq<string>, cands: seq<string>)
    ensures |BuildLog(form, bases, cands)| == |NormalizedBases(bases)|
  {
    var log := BuildLog(form, bases, cands);
    BuildLogEntries(form, bases, cands);
    var ks := Keys(log);
    assert Distinct(ks);
    DistinctCardinality(ks);
    forall k ensures k in Elements(ks) <==> k in NormalizedBases(bases) {
      BuildLogKeys(form, bases, cands, k);
    }
    assert Elements(ks) == NormalizedBases(bases);
  }

  /** The nested loop of the test scripts, statement by statement. */
  method RunMatching(form: CandidateForm, bases: seq<string>, cands: seq<string>) returns (log: Log)
    ensures log == BuildLog(form, bases, cands)
  {
    log := [];
    for i := 0 to |bases|
      invariant log == BuildLog(form, bases[..i], cands)
    {
      log := MatchBase(log, form, bases, i, cands);
    }
    assert bases[..|bases|] == bases;
  }

  /** Pass `i` of the outer loop: `matching_log[base] = []` for the normal form
      of `bases[i]`, then the inner loop's appends. */
  method MatchBase(log: Log, form: CandidateForm, bases: seq<string>, i: nat, cands: seq<string>) returns (r: Log)
    requires i < |bases| && log == BuildLog(form, bases[..i], cands)
    ensures r == BuildLog(form, bases[..i + 1], cands)
  {
    var base := Normalize(bases[i]);
    r := Assign(log, base, []);
    for j := 0 to |cands|
      invariant r == Assign(log, base, Matches(form, base, cands[..j]))
    {
      var c := cands[j];
      MatchStep(log, form, base, cands, j);
      if LooseMatch(base, CompareKey(form, c)) {
        r := AppendTo(r, base, StoredName(form, c));
      }
    }
    assert cands[..|cands|] == cands;
    MatchDone(log, form, bases, i, cands);
  }

  /** One pass of the inner loop extends the base's list as `Matches` does. */
  lemma MatchStep(log: Log, form: CandidateForm, base: string, cands: seq<string>, j: nat)
    requires j < |cands|
    ensures var c := cands[j];
      var r := Assign(log, base, Matches(form, base, cands[..j]));
      (if LooseMatch(base, CompareKey(form, c)) then AppendTo(r, base, StoredName(form, c)) else r)
      == Assign(log, base, Matches(form, base, cands[..j + 1]))
  {
    var c := cands[j];
    MatchesSnoc(form, base, cands[..j], c);
    assert cands[..j + 1] == cands[..j] + [c];
    AppendAfterAssign(log, base, Matches(form, base, cands[..j]), StoredName(form, c));
  }

  /** After the inner loop the base holds its whole match list. */
  lemma MatchDone(log: Log, form: CandidateForm, bases: seq<string>, i: nat, cands: seq<string>)
    requires i < |bases| && log == BuildLog(form, bases[..i], cands)
    ensures Assign(log, Normalize(bases[i]), Matches(form, Normalize(bases[i]), cands))
         == BuildLog(form, bases[..i + 1], cands)
  {
    assert bases[..i + 1][..i] == bases[..i];
  }
}
