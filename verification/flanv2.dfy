/**
  The matching, partitioning and counting part of `validate_targets` in
  `dataset_2/flan_v2_huggingface.py`. The remote file listing is a parameter;
  the report file is left out, its counters are kept.
 */
module FlanV2 {
  import opened Seqs
  import opened Text
  import opened Matching
  import opened MatchLog

  /** The prefix rule against `name`, as a test on file paths. */
  function PrefixTest(name: string): string -> bool
  {
    f => PrefixMatch(name, f)
  }

  /** The inner loop's `matches`: the remote files that start with the name's
      prefix, in listing order. */
  function FileMatches(name: string, files: seq<string>): (r: seq<string>)
    ensures |r| <= |files|
    ensures forall f :: f in r <==> f in files && StartsWith(f, WildcardPrefix(name))
  {
    Filter(PrefixTest(name), files)
  }

  /** The match list keeps the listing's order: the matches of two listings
      joined are the matches of the first, then those of the second. */
  lemma FileMatchesOrder(name: string, a: seq<string>, b: seq<string>)
    ensures FileMatches(name, a + b) == FileMatches(name, a) + FileMatches(name, b)
  {
    FilterConcat(PrefixTest(name), a, b);
  }

  /** The state of the outer loop: the two partitions (names with and without a
      `*`), the names with no match, and `file_counter`. */
  datatype Validation = Validation(withStar: Log, withoutStar: Log, invalid: seq<string>, fileCounter: nat)

  /** One pass of the outer loop for `name`. */
  function Step(v: Validation, name: string, files: seq<string>): Validation
  {
    var m := FileMatches(name, files);
    var counter := v.fileCounter + |m|;
    if |m| > 0 then
      if '*' in name then v.(withStar := Assign(v.withStar, name, m), fileCounter := counter)
      else v.(withoutStar := Assign(v.withoutStar, name, m), fileCounter := counter)
    else v.(invalid := v.invalid + [name], fileCounter := counter)
  }

  /** `validate_targets` after the listing has been fetched. */
  function Validate(names: seq<string>, files: seq<string>): Validation
    decreases |names|
  {
    if |names| == 0 then Validation([], [], [], 0)
    else Step(Validate(names[..|names| - 1], files), names[|names| - 1], files)
  }

  /** Whether a name finds no file at all. */
  function NoMatchTest(files: seq<string>): string -> bool
  {
    n => |FileMatches(n, files)| == 0
  }

  /** Whether a name finds some file. */
  function MatchTest(files: seq<string>): string -> bool
  {
    n => |FileMatches(n, files)| > 0
  }

  /** Number of matching files summed over the names, repeats included. */
  function SumMatches(names: seq<string>, files: seq<string>): nat
  {
    if |names| == 0 then 0 else |FileMatches(names[0], files)| + SumMatches(names[1..], files)
  }

  lemma {:induction false} SumMatchesSnoc(names: seq<string>, n: string, files: seq<string>)
    ensures SumMatches(names + [n], files) == SumMatches(names, files) + |FileMatches(n, files)|
    decreases |names|
  {
    if |names| > 0 {
      assert (names + [n])[1..] == names[1..] + [n];
      SumMatchesSnoc(names[1..], n, files);
    }
  }

  /** An entry of a partition: a key that finds files, holding exactly them. */
  predicate HoldsMatches(e: Entry, files: seq<string>)
  {
    e.values == FileMatches(e.key, files) && |e.values| > 0
  }

  /** Shape of the starred partition: every key holds a `*`, no key occurs
      twice, and every key holds exactly its matching files, never none. */
  lemma {:induction false} ValidateStarred(names: seq<string>, files: seq<string>)
    ensures DistinctKeys(Validate(names, files).withStar)
    ensures forall i :: 0 <= i < |Validate(names, files).withStar| ==>
              '*' in Validate(names, files).withStar[i].key && HoldsMatches(Validate(names, files).withStar[i], files)
    decreases |names|
  {
    if |names| > 0 {
      var prev := names[..|names| - 1];
      var n := names[|names| - 1];
      ValidateStarred(prev, files);
      var v := Validate(prev, files);
      var m := FileMatches(n, files);
      if |m| > 0 && '*' in n {
        var r := Assign(v.withStar, n, m);
        assert Validate(names, files).withStar == r;
        forall i | 0 <= i < |r| ensures '*' in r[i].key && HoldsMatches(r[i], files) {
          if r[i].key != n {
            assert i < |v.withStar|;
            assert r[i] == v.withStar[i];
          }
        }
      }
    }
  }

  /** Shape of the other partition: no key holds a `*`, no key occurs twice, and
      every key holds exactly its matching files, never none. */
  lemma {:induction false} ValidatePlain(names: seq<string>, files: seq<string>)
    ensures DistinctKeys(Validate(names, files).withoutStar)
    ensures forall i :: 0 <= i < |Validate(names, files).withoutStar| ==>
              '*' !in Validate(names, files).withoutStar[i].key && HoldsMatches(Validate(names, files).withoutStar[i], files)
    decreases |names|
  {
    if |names| > 0 {
      var prev := names[..|names| - 1];
      var n := names[|names| - 1];
      ValidatePlain(prev, files);
      var v := Validate(prev, files);
      var m := FileMatches(n, files);
      if |m| > 0 && '*' !in n {
        var r := Assign(v.withoutStar, n, m);
        assert Validate(names, files).withoutStar == r;
        forall i | 0 <= i < |r| ensures '*' !in r[i].key && HoldsMatches(r[i], files) {
          if r[i].key != n {
            assert i < |v.withoutStar|;
            assert r[i] == v.withoutStar[i];
          }
        }
      }
    }
  }

  /** `invalid_targets` gets a name, once per occurrence and in order, exactly
      when the name finds no file. */
  lemma {:induction false} ValidateInvalid(names: seq<string>, files: seq<string>)
    ensures Validate(names, files).invalid == Filter(NoMatchTest(files), names)
    decreases |names|
  {
    if |names| > 0 {
      var prev := names[..|names| - 1];
      assert names == prev + [names[|names| - 1]];
      ValidateInvalid(prev, files);
      FilterSnoc(NoMatchTest(files), prev, names[|names| - 1]);
    }
  }

  /** `file_counter` is the number of matching files summed over every processed
      name, repeated names counted again. */
  lemma {:induction false} ValidateCounter(names: seq<string>, files: seq<string>)
    ensures Validate(names, files).fileCounter == SumMatches(names, files)
    decreases |names|
  {
    if |names| > 0 {
      var prev := names[..|names| - 1];
      assert names == prev + [names[|names| - 1]];
      ValidateCounter(prev, files);
      SumMatchesSnoc(prev, names[|names| - 1], files);
    }
  }

  /** A name is a key of the starred partition exactly when it was processed,
      holds a `*` and finds a file; likewise for the other partition without `*`. */
  lemma {:induction false} ValidateKeys(names: seq<string>, files: seq<string>, k: string)
    ensures k in Keys(Validate(names, files).withStar) <==> k in names && '*' in k && |FileMatches(k, files)| > 0
    ensures k in Keys(Validate(names, files).withoutStar) <==> k in names && '*' !in k && |FileMatches(k, files)| > 0
    decreases |names|
  {
    if |names| > 0 {
      var prev := names[..|names| - 1];
      var n := names[|names| - 1];
      assert names == prev + [n];
      ValidateKeys(prev, files, k);
      var v := Validate(prev, files);
      var m := FileMatches(n, files);
      if k != n {
        AssignOtherKey(v.withStar, n, m, k);
        AssignOtherKey(v.withoutStar, n, m, k);
      }
    }
  }

  /** With distinct names, the two partitions together hold one key per name
      that finds a file. */
  lemma {:induction false} ValidateMatchedCount(names: seq<string>, files: seq<string>)
    requires Distinct(names)
    ensures |Validate(names, files).withStar| + |Validate(names, files).withoutStar| == Count(MatchTest(files), names)
    decreases |names|
  {
    if |names| > 0 {
      var prev := names[..|names| - 1];
      var n := names[|names| - 1];
      assert names == prev + [n];
      ValidateMatchedCount(prev, files);
      FilterSnoc(MatchTest(files), prev, n);
      assert n !in prev;
      ValidateKeys(prev, files, n);
    }
  }

  /** The report's totals: with distinct names, valid plus invalid is the number
      of processed names. */
  lemma ValidateTotals(names: seq<string>, files: seq<string>)
    requires Distinct(names)
    ensures var v := Validate(names, files);
      |v.withStar| + |v.withoutStar| + |v.invalid| == |names|
  {
    ValidateMatchedCount(names, files);
    ValidateInvalid(names, files);
    CountComplement(MatchTest(files), NoMatchTest(files), names);
  }

  /** Without distinct names the totals can fall short of the number of
      processed names: a repeated matching name gets one key but its files are
      counted twice. A repeated failing name is listed twice in
      `invalid_targets`, so it keeps the identity. */
  lemma RepeatedNameCounts()
    ensures var v := Validate(["a", "a"], ["a.json"]);
      |v.withStar| + |v.withoutStar| == 1 && |v.invalid| == 0 && v.fileCounter == 2
    ensures var v := Validate(["b", "b"], ["a.json"]);
      |v.withStar| + |v.withoutStar| == 0 && |v.invalid| == 2 && v.fileCounter == 0
  {
    var one := FileMatches("a", ["a.json"]);
    assert PrefixMatch("a", "a.json") by { assert "a.json"[..1] == "a"; }
    assert one == ["a.json"] by { assert ["a.json"][1..] == []; }
    assert FileMatches("b", ["a.json"]) == [] by {
      assert !PrefixMatch("b", "a.json");
      assert ["a.json"][1..] == [];
    }
    assert ["a", "a"][..1] == ["a"] && ["b", "b"][..1] == ["b"];
    assert ["a"][..0] == [] && ["b"][..0] == [];
  }

  /** The loop of `validate_targets`, statement by statement. */
  method ValidateTargets(names: seq<string>, files: seq<string>) returns (v: Validation)
    ensures v == Validate(names, files)
  {
    var withStar: Log := [];
    var withoutStar: Log := [];
    var invalid: seq<string> := [];
    var fileCounter: nat := 0;
    for i := 0 to |names|
      invariant Validation(withStar, withoutStar, invalid, fileCounter) == Validate(names[..i], files)
    {
      var name := names[i];
      var matches;
      matches, fileCounter := ScanFiles(name, files, fileCounter);
      if |matches| > 0 {
        if '*' in name {
          withStar := Assign(withStar, name, matches);
        } else {
          withoutStar := Assign(withoutStar, name, matches);
        }
      } else {
        invalid := invalid + [name];
      }
      assert names[..i + 1][..i] == names[..i];
    }
    assert names[..|names|] == names;
    v := Validation(withStar, withoutStar, invalid, fileCounter);
  }

  /** The inner loop for one name: the files that start with its prefix, in
      listing order, each one also counted in `file_counter`. */
  method ScanFiles(name: string, files: seq<string>, counter: nat) returns (matches: seq<string>, counter': nat)
    ensures matches == FileMatches(name, files)
    ensures counter' == counter + |matches|
  {
    var prefix := if '*' in name then RemoveMarks(name) else name;
    matches := [];
    counter' := counter;
    for j := 0 to |files|
      invariant matches == FileMatches(name, files[..j])
      invariant counter' == counter + |matches|
    {
      var f := files[j];
      assert files[..j + 1] == files[..j] + [f];
      FilterSnoc(PrefixTest(name), files[..j], f);
      if StartsWith(f, prefix) {
        matches := matches + [f];
        counter' := counter' + 1;
      }
    }
    assert files[..|files|] == files;
  }
}
