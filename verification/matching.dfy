/**
  The two matching rules. The `dataset/test_*.py` scripts use a loose rule:
  the first five characters of the candidate must occur somewhere in the base
  (in the base with its `_*` marks removed when it holds a `*`). The
  `dataset_2/flan_v2_huggingface.py` script uses a true prefix rule on the raw
  name and file path.
 */
module Matching {
  import opened Text

  /** How many leading characters of a candidate the loose rule compares. */
  const KeyLength: nat := 5

  /** The text a name is matched with: `name.replace('_*', '')` when the name
      holds a `*`, otherwise the name itself. */
  function WildcardPrefix(name: string): (p: string)
    ensures |p| <= |name|
    ensures '*' !in name ==> p == name
    ensures forall c :: c in p ==> c in name
  {
    if '*' in name then RemoveMarks(name) else name
  }

  /** The wildcard prefix differs from the name exactly when the name holds a
      `_*` mark somewhere; a lone `*` without a `_` before it is kept. */
  lemma WildcardPrefixChanges(name: string)
    ensures WildcardPrefix(name) != name <==> Contains(name, Mark)
  {
    if Contains(name, Mark) {
      ContainsIff(name, Mark);
      var i :| OccursAt(name, Mark, i);
      assert name[i + 1] == name[i..i + 2][1] == '*';
    }
  }

  /** A name holding a mark is matched with its text on either side of the mark,
      each with its own marks removed: with `RemoveMarks` of a mark-free text
      being that text, this says which characters the prefix keeps. */
  lemma WildcardPrefixMarks(a: string, b: string)
    ensures WildcardPrefix(a + Mark + b) == RemoveMarks(a) + RemoveMarks(b)
  {
    var name := a + Mark + b;
    assert name[|a| + 1] == '*';
    RemoveMarksConcat(a, b);
  }

  /** The loose rule of the test scripts: `key[:5] in prefix`. */
  predicate LooseMatch(base: string, key: string)
  {
    Contains(WildcardPrefix(base), Head(key, KeyLength))
  }

  /** The prefix rule of the flan_v2 script: `file.startswith(prefix)`. */
  predicate PrefixMatch(name: string, file: string)
  {
    StartsWith(file, WildcardPrefix(name))
  }

  /** Only the first five characters of a candidate take part in the loose rule. */
  lemma LooseMatchHeadOnly(base: string, k1: string, k2: string)
    requires Head(k1, KeyLength) == Head(k2, KeyLength)
    ensures LooseMatch(base, k1) <==> LooseMatch(base, k2)
  {
  }

  /** An empty candidate matches every base, and a candidate of at most five
      characters is looked for whole. */
  lemma LooseMatchShortKey(base: string, key: string)
    requires |key| <= KeyLength
    ensures LooseMatch(base, key) <==> Contains(WildcardPrefix(base), key)
    ensures |key| == 0 ==> LooseMatch(base, key)
  {
  }

  /** The loose rule favours recall: a base without a wildcard matches every
      candidate it begins with (itself included), and every candidate that
      begins with it once the base is at least five characters long. */
  lemma {:induction false} LooseMatchSelf(base: string, key: string)
    requires '*' !in base
    requires StartsWith(base, key) || (StartsWith(key, base) && KeyLength <= |base|)
    ensures LooseMatch(base, key)
  {
    var h := Head(key, KeyLength);
    assert h == key[..|h|];
    if StartsWith(base, key) {
      assert base[..|h|] == key[..|h|];
    } else {
      assert key[..|h|] == base[..|h|];
    }
    assert StartsWith(base, h);
  }

  /** The loose rule is a substring test, not a prefix or glob test: with the
      wildcard base `foo_*` the prefix is `foo`, and `foobar_task` brings the
      five characters `fooba`, which do not fit in it. */
  lemma LooseMatchWildcardExample()
    ensures WildcardPrefix("foo_*") == "foo"
    ensures !LooseMatch("foo_*", "foobar_task")
  {
    assert RemoveMarks("_*") == "";
    assert RemoveMarks("o_*") == "o";
    assert RemoveMarks("oo_*") == "oo";
    assert RemoveMarks("foo_*") == "foo";
  }

  /** The base the test_3 script hard-codes. */
  const WikiLinguaBase: string := "wiki_lingua_english_en"

  /** Every candidate that starts with `wiki_` matches the hard-coded base. */
  lemma WikiLinguaMatches(key: string)
    requires StartsWith(key, "wiki_")
    ensures LooseMatch(WikiLinguaBase, key)
  {
    assert '*' !in WikiLinguaBase;
    assert Head(key, KeyLength) == "wiki_";
    assert StartsWith(WikiLinguaBase, "wiki_");
  }

  /** The prefix rule compares raw text: no case folding and no separator
      rewriting. */
  lemma PrefixMatchIsRaw()
    ensures !PrefixMatch("Foo", "foo.json")
    ensures !PrefixMatch("foo-bar", "foo_bar.json")
    ensures PrefixMatch("foo", "foo_bar.json")
  {
    assert "foo.json"[..3] == "foo";
    assert "foo_bar.json"[..7] == "foo_bar";
    assert "foo_bar.json"[..3] == "foo";
  }

  /** A name that is nothing but a mark has an empty prefix and so matches
      every file. */
  lemma PrefixMatchBareMark(file: string)
    ensures PrefixMatch("_*", file)
  {
    assert RemoveMarks("_*") == "";
  }
}
