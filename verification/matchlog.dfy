/**
  The match report the scripts keep as a Python dict from a name to its list
  of matches (`matching_log`, `valid_targets_1`, `valid_targets_2`), modelled as
  an insertion-ordered association list, and the counters the report loop
  derives from it.
 */
module MatchLog {
  import opened Seqs

  /** One dict item: a name and its ordered match list. */
  datatype Entry = Entry(key: string, values: seq<string>)

  /** The dict, in insertion order. */
  type Log = seq<Entry>

  function Keys(log: Log): (ks: seq<string>)
    ensures |ks| == |log|
    ensures forall i :: 0 <= i < |log| ==> ks[i] == log[i].key
  {
    seq(|log|, i requires 0 <= i < |log| => log[i].key)
  }

  /** A dict never holds a key twice. */
  predicate DistinctKeys(log: Log)
  {
    forall i, j :: 0 <= i < j < |log| ==> log[i].key != log[j].key
  }

  /** Python `d[k] = vs`: a new key goes to the end; an existing key keeps its
      position and gets the new list; every other item is untouched. */
  function Assign(log: Log, k: string, vs: seq<string>): (r: Log)
    ensures k in Keys(log) ==> |r| == |log| && Keys(r) == Keys(log)
    ensures k !in Keys(log) ==> r == log + [Entry(k, vs)]
    ensures forall i :: 0 <= i < |log| && log[i].key != k ==> r[i] == log[i]
    ensures forall i :: 0 <= i < |r| && r[i].key == k ==> r[i].values == vs
    ensures k in Keys(r)
    ensures DistinctKeys(log) ==> DistinctKeys(r)
  {
    if k in Keys(log) then
      var r := seq(|log|, i requires 0 <= i < |log| => if log[i].key == k then Entry(k, vs) else log[i]);
      assert Keys(r) == Keys(log);
      r
    else
      var r := log + [Entry(k, vs)];
      assert Keys(r)[|log|] == k;
      r
  }

  /** Re-assigning a key the list it already holds changes nothing. */
  lemma AssignSame(log: Log, k: string, vs: seq<string>)
    requires k in Keys(log)
    requires forall i :: 0 <= i < |log| && log[i].key == k ==> log[i].values == vs
    ensures Assign(log, k, vs) == log
  {
  }

  /** Assigning one key leaves every other key in or out as it was. */
  lemma {:induction false} AssignOtherKey(log: Log, key: string, vs: seq<string>, k: string)
    requires k != key
    ensures k in Keys(Assign(log, key, vs)) <==> k in Keys(log)
  {
    var r := Assign(log, key, vs);
    if k in Keys(r) {
      var i :| 0 <= i < |r| && Keys(r)[i] == k;
      if i < |log| {
        assert r[i] == log[i];
        assert Keys(log)[i] == k;
      }
    }
    if k in Keys(log) {
      var i :| 0 <= i < |log| && Keys(log)[i] == k;
      assert r[i] == log[i];
      assert Keys(r)[i] == k;
    }
  }

  /** Python `d[k].append(x)` on a key the dict holds. */
  function AppendTo(log: Log, k: string, x: string): (r: Log)
    requires k in Keys(log)
    ensures |r| == |log| && Keys(r) == Keys(log)
    ensures forall i :: 0 <= i < |log| ==> r[i].values == (if log[i].key == k then log[i].values + [x] else log[i].values)
  {
    var r := seq(|log|, i requires 0 <= i < |log| => if log[i].key == k then Entry(k, log[i].values + [x]) else log[i]);
    assert Keys(r) == Keys(log);
    r
  }

  /** Appending to a freshly assigned list is assigning the longer list. */
  lemma AppendAfterAssign(log: Log, k: string, vs: seq<string>, x: string)
    ensures AppendTo(Assign(log, k, vs), k, x) == Assign(log, k, vs + [x])
  {
  }

  predicate IsMatched(e: Entry)
  {
    |e.values| > 0
  }

  predicate IsUnmatched(e: Entry)
  {
    |e.values| == 0
  }

  /** Number of (name, match) pairs in the report. */
  function TotalMatches(log: Log): nat
  {
    if |log| == 0 then 0 else |log[0].values| + TotalMatches(log[1..])
  }

  lemma {:induction false} TotalMatchesSnoc(log: Log, e: Entry)
    ensures TotalMatches(log + [e]) == TotalMatches(log) + |e.values|
    decreases |log|
  {
    if |log| > 0 {
      assert (log + [e])[1..] == log[1..] + [e];
      TotalMatchesSnoc(log[1..], e);
    }
  }

  /** The report's counters: `total_matched_count`, `matched_count`, `unmatched_count`. */
  datatype Tally = Tally(total: nat, matched: nat, unmatched: nat)

  /** The report loop of the test scripts: each name with no match adds one to
      the unmatched count; each name with matches adds one per match to the
      total and one to the matched count. */
  method Summarize(log: Log) returns (t: Tally)
    ensures t.total == TotalMatches(log)
    ensures t.matched == Count(IsMatched, log)
    ensures t.unmatched == Count(IsUnmatched, log)
    ensures t.matched + t.unmatched == |log|
  {
    t := Tally(0, 0, 0);
    for i := 0 to |log|
      invariant t.total == TotalMatches(log[..i])
      invariant t.matched == Count(IsMatched, log[..i])
      invariant t.unmatched == Count(IsUnmatched, log[..i])
    {
      var e := log[i];
      SummarizeStep(log, i);
      if |e.values| == 0 {
        t := t.(unmatched := t.unmatched + 1);
      } else {
        var total := t.total;
        for j := 0 to |e.values|
          invariant total == t.total + j
        {
          total := total + 1;
        }
        t := Tally(total, t.matched + 1, t.unmatched);
      }
    }
    assert log[..|log|] == log;
    CountComplement(IsMatched, IsUnmatched, log);
  }

  /** What entry `i` adds to each counter. */
  lemma SummarizeStep(log: Log, i: nat)
    requires i < |log|
    ensures TotalMatches(log[..i + 1]) == TotalMatches(log[..i]) + |log[i].values|
    ensures Count(IsMatched, log[..i + 1]) == Count(IsMatched, log[..i]) + (if IsMatched(log[i]) then 1 else 0)
    ensures Count(IsUnmatched, log[..i + 1]) == Count(IsUnmatched, log[..i]) + (if IsUnmatched(log[i]) then 1 else 0)
  {
    assert log[..i + 1] == log[..i] + [log[i]];
    TotalMatchesSnoc(log[..i], log[i]);
    FilterSnoc(IsMatched, log[..i], log[i]);
    FilterSnoc(IsUnmatched, log[..i], log[i]);
  }
}
