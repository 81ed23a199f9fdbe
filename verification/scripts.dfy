/**
  The main blocks of the four scripts, as compositions of the loader, the
  candidate source and the matching loop. The file reads, the task registry,
  the CSV parser and the remote listing are parameters.
 */
module Scripts {
  import opened Seqs
  import opened Text
  import opened Order
  import opened Loader
  import opened Matching
  import opened MatchLog
  import opened Reconcile
  import opened CsvColumn
  import opened FlanV2

  /** test_1: the names of the list file against the registered task names. */
  function Test1(content: string, registry: seq<string>): Log
  {
    BuildLog(NormalizedCandidates, LoadNames(content), registry)
  }

  /** test_1's report has one entry per distinct normalised name of the list file. */
  lemma Test1Keys(content: string, registry: seq<string>, k: string)
    ensures DistinctKeys(Test1(content, registry))
    ensures k in Keys(Test1(content, registry)) <==> exists n :: n in LoadNames(content) && Normalize(n) == k
  {
    BuildLogEntries(NormalizedCandidates, LoadNames(content), registry);
    BuildLogKeys(NormalizedCandidates, LoadNames(content), registry, k);
  }

  /** Each of test_1's match lists is the in-order filter of the normalised
      registry, so every stored match is lower-case and free of hyphens. */
  lemma Test1Entry(content: string, registry: seq<string>, i: nat)
    ensures i < |Test1(content, registry)| ==>
      var e := Test1(content, registry)[i];
      && e.values == Filter(LooseTest(e.key), Map(Normalize, registry))
      && forall m :: m in e.values ==> '-' !in m && IsLowerCase(m)
  {
    if i < |Test1(content, registry)| {
      var e := Test1(content, registry)[i];
      BuildLogEntries(NormalizedCandidates, LoadNames(content), registry);
      MatchesNormalizedFilter(e.key, registry);
      forall m | m in e.values ensures '-' !in m && IsLowerCase(m) {
        MatchesNormalizedClean(e.key, registry, m);
      }
    }
  }

  /** How test_2 ends: with its report, or at `next(reader)` on an empty CSV. */
  datatype Test2Run = Completed(log: Log) | StoppedAtHeader

  /** test_2: the names of the list file against the sorted distinct dataset
      names of the CSV manifest. */
  function Test2(content: string, rows: seq<Row>): Test2Run
  {
    match SourceNames(rows)
    case MissingHeader => StoppedAtHeader
    case Candidates(names) => Completed(BuildLog(LowercasedCandidates, LoadNames(content), names))
  }

  /** test_2's report: it stops exactly when the CSV has no row at all; otherwise
      every base is hyphen-free (so the branch that prints a hyphenated base never
      fires), and every match list is sorted, duplicate-free and made of
      dataset names taken unchanged from the manifest. */
  lemma Test2Report(content: string, rows: seq<Row>)
    ensures Test2(content, rows).StoppedAtHeader? <==> |rows| == 0
    ensures Test2(content, rows).Completed? ==>
      var log := Test2(content, rows).log;
      forall i :: 0 <= i < |log| ==>
        && '-' !in log[i].key
        && StrictlySorted(log[i].values)
        && Distinct(log[i].values)
        && (forall m :: m in log[i].values ==> m in ColumnValues(rows[1..]))
  {
    if |rows| > 0 {
      var cands := SourceNames(rows).names;
      var names := LoadNames(content);
      var log := BuildLog(LowercasedCandidates, names, cands);
      BuildLogEntries(LowercasedCandidates, names, cands);
      forall i | 0 <= i < |log|
        ensures '-' !in log[i].key
        ensures StrictlySorted(log[i].values) && Distinct(log[i].values)
        ensures forall m :: m in log[i].values ==> m in ColumnValues(rows[1..])
      {
        var k := log[i].key;
        assert k in Keys(log);
        BuildLogKeys(LowercasedCandidates, names, cands, k);
        MatchesLowercasedSorted(k, cands);
        forall m | m in log[i].values ensures m in ColumnValues(rows[1..]) {
          MatchesMembership(LowercasedCandidates, k, cands, m);
        }
      }
    }
  }

  /** test_3: the single hard-coded base against the registered task names. */
  function Test3(registry: seq<string>): Log
  {
    BuildLog(NormalizedCandidates, [WikiLinguaBase], registry)
  }

  /** test_3's report has the one base as its one key, and every registered task
      whose normalised name starts with `wiki_` is among its matches. */
  lemma Test3Report(registry: seq<string>, c: string)
    requires c in registry && StartsWith(Normalize(c), "wiki_")
    ensures |Test3(registry)| == 1
    ensures Test3(registry)[0].key == WikiLinguaBase
    ensures Normalize(c) in Test3(registry)[0].values
  {
    assert '-' !in WikiLinguaBase && IsLowerCase(WikiLinguaBase);
    NormalizeFixedPoint(WikiLinguaBase);
    assert [WikiLinguaBase][..0] == [];
    WikiLinguaMatches(Normalize(c));
    MatchesMembership(NormalizedCandidates, WikiLinguaBase, registry, Normalize(c));
  }

  /** A hyphenated, capitalised base finds the registry entry that extends its
      normalised form: one matched name, no unmatched one. */
  lemma WikiLinguaScenario()
    ensures BuildLog(NormalizedCandidates, ["Wiki-Lingua_English_EN"], ["wiki_lingua_english_en_v2"])
         == [Entry("wiki_lingua_english_en", ["wiki_lingua_english_en_v2"])]
  {
    var cand := "wiki_lingua_english_en_v2";
    WikiLinguaForms();
    WikiLinguaMatches(cand);
    assert Matches(NormalizedCandidates, WikiLinguaBase, [cand]) == [cand] by {
      assert [cand][..0] == [];
    }
    assert ["Wiki-Lingua_English_EN"][..0] == [];
  }

  lemma WikiLinguaForms()
    ensures Normalize("Wiki-Lingua_English_EN") == WikiLinguaBase
    ensures Normalize("wiki_lingua_english_en_v2") == "wiki_lingua_english_en_v2"
    ensures StartsWith("wiki_lingua_english_en_v2", "wiki_")
  {
    WikiLinguaBaseForm();
    var cand := "wiki_lingua_english_en_v2";
    assert '-' !in cand && IsLowerCase(cand);
    NormalizeFixedPoint(cand);
    assert cand[..5] == "wiki_";
  }

  lemma WikiLinguaBaseForm()
    ensures Normalize("Wiki-Lingua_English_EN") == WikiLinguaBase
  {
    var b := "Wiki-Lingua_English_EN";
    var h := ReplaceHyphens(b);
    assert h == "Wiki_Lingua_English_EN";
    assert Lower(h) == WikiLinguaBase;
  }

  /** The flan_v2 main block up to the downloads: the list file's names against
      the remote listing. */
  function FlanRun(content: string, files: seq<string>): Validation
  {
    Validate(LoadNames(content), files)
  }

  /** Every key of either partition is a loaded name, used as is: non-empty,
      stripped and separator-free. */
  lemma FlanRunKeys(content: string, files: seq<string>, k: string)
    ensures k in Keys(FlanRun(content, files).withStar) || k in Keys(FlanRun(content, files).withoutStar)
        ==> k in LoadNames(content) && IsName(k)
  {
    ValidateKeys(LoadNames(content), files, k);
  }
}
