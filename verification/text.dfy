/**
  The string primitives the scripts rely on, restricted to ASCII:
  Python's `str.strip()`, `str.lower()`, `str.replace(old, new)` for the two
  replacements the scripts perform, slicing `s[:n]`, substring containment
  `needle in hay`, and `str.startswith`.
 */
module Text {

  /** Python's `str.isspace` on ASCII: tab, line feed, vertical tab, form feed,
      carriage return, the four information separators 0x1C-0x1F, and space. */
  predicate IsSpace(c: char)
  {
    var n := c as int;
    n == 32 || 9 <= n <= 13 || 28 <= n <= 31
  }

  predicate AllSpace(s: string)
  {
    forall i :: 0 <= i < |s| ==> IsSpace(s[i])
  }

  /** Length of the whitespace run that starts `s`. */
  function LeadingSpaces(s: string): (n: nat)
    ensures n <= |s|
    ensures forall i :: 0 <= i < n ==> IsSpace(s[i])
    ensures n == |s| || !IsSpace(s[n])
  {
    if |s| > 0 && IsSpace(s[0]) then 1 + LeadingSpaces(s[1..]) else 0
  }

  /** Length of the whitespace run that ends `s`. */
  function TrailingSpaces(s: string): (n: nat)
    ensures n <= |s|
    ensures forall i :: |s| - n <= i < |s| ==> IsSpace(s[i])
    ensures n == |s| || !IsSpace(s[|s| - n - 1])
  {
    if |s| > 0 && IsSpace(s[|s| - 1]) then 1 + TrailingSpaces(s[..|s| - 1]) else 0
  }

  /** Python `str.strip()`: the result is the middle of `s` once the whitespace
      on both ends is gone; it is empty exactly when `s` is all whitespace. */
  function Strip(s: string): (r: string)
    ensures |r| == 0 || (!IsSpace(r[0]) && !IsSpace(r[|r| - 1]))
    ensures |r| == 0 <==> AllSpace(s)
    ensures exists i :: 0 <= i <= |s| - |r| && r == s[i..i + |r|] && AllSpace(s[..i]) && AllSpace(s[i + |r|..])
    ensures forall c :: c in r ==> c in s
  {
    var a := LeadingSpaces(s);
    if a == |s| then
      assert AllSpace(s[..0]) && AllSpace(s[0..]);
      []
    else
      var b := TrailingSpaces(s);
      assert a < |s| - b;
      var r := s[a..|s| - b];
      assert AllSpace(s[..a]);
      assert AllSpace(s[a + |r|..]);
      r
  }

  predicate IsUpper(c: char)
  {
    'A' <= c <= 'Z'
  }

  /** No ASCII upper-case letter occurs in `s`. */
  predicate IsLowerCase(s: string)
  {
    forall i :: 0 <= i < |s| ==> !IsUpper(s[i])
  }

  function LowerChar(c: char): (d: char)
    ensures !IsUpper(d)
    ensures !IsUpper(c) ==> d == c
  {
    if IsUpper(c) then (c as int + 32) as char else c
  }

  /** Python `str.lower()` on ASCII letters; every other character is kept. */
  function Lower(s: string): (r: string)
    ensures |r| == |s|
    ensures forall i :: 0 <= i < |s| ==> r[i] == LowerChar(s[i])
    ensures IsLowerCase(r)
  {
    seq(|s|, i requires 0 <= i < |s| => LowerChar(s[i]))
  }

  /** Python `s.replace('-', '_')`. */
  function ReplaceHyphens(s: string): (r: string)
    ensures |r| == |s|
    ensures forall i :: 0 <= i < |s| ==> r[i] == (if s[i] == '-' then '_' else s[i])
  {
    seq(|s|, i requires 0 <= i < |s| => if s[i] == '-' then '_' else s[i])
  }

  /** The scripts' identifier normalisation: hyphens become underscores, then the
      name is lower-cased. Its result never holds a hyphen or an upper-case letter. */
  function Normalize(s: string): (r: string)
    ensures |r| == |s|
    ensures '-' !in r
    ensures IsLowerCase(r)
  {
    var r := Lower(ReplaceHyphens(s));
    assert forall i :: 0 <= i < |r| ==> r[i] != '-';
    r
  }

  /** Normalising twice is the same as normalising once. */
  lemma {:induction false} NormalizeIdempotent(s: string)
    ensures Normalize(Normalize(s)) == Normalize(s)
  {
    NormalizeFixedPoint(Normalize(s));
  }

  /** The normalised names are exactly the names without hyphens and capitals. */
  lemma {:induction false} NormalizeFixedPoint(s: string)
    ensures Normalize(s) == s <==> '-' !in s && IsLowerCase(s)
  {
    if '-' !in s && IsLowerCase(s) {
      forall i | 0 <= i < |s| ensures Normalize(s)[i] == s[i] {
        assert s[i] != '-';
      }
    }
  }

  /** Python `s.startswith(p)`. */
  predicate StartsWith(s: string, p: string)
  {
    |p| <= |s| && s[..|p|] == p
  }

  /** Python `s[:n]` for a non-negative `n`: the first `n` characters, or all of
      `s` when it is shorter. */
  function Head(s: string, n: nat): (r: string)
    ensures |r| == (if |s| < n then |s| else n)
    ensures StartsWith(s, r)
    ensures |s| <= n ==> r == s
  {
    if |s| <= n then s else s[..n]
  }

  /** `needle` occurs in `hay` starting at index `i`. */
  ghost predicate OccursAt(hay: string, needle: string, i: int)
  {
    0 <= i && i + |needle| <= |hay| && hay[i..i + |needle|] == needle
  }

  /** Python `needle in hay` on strings: substring containment. */
  function Contains(hay: string, needle: string): (b: bool)
    ensures |needle| == 0 ==> b
    ensures StartsWith(hay, needle) ==> b
    ensures b ==> |needle| <= |hay|
    decreases |hay|
  {
    |needle| <= |hay| && (StartsWith(hay, needle) || (|hay| > 0 && Contains(hay[1..], needle)))
  }

  /** The scan in `Contains` finds an occurrence exactly when one exists. */
  lemma {:induction false} ContainsIff(hay: string, needle: string)
    ensures Contains(hay, needle) <==> exists i :: OccursAt(hay, needle, i)
    decreases |hay|
  {
    if Contains(hay, needle) {
      if StartsWith(hay, needle) {
        assert OccursAt(hay, needle, 0);
      } else {
        ContainsIff(hay[1..], needle);
        var i :| OccursAt(hay[1..], needle, i);
        assert hay[1..][i..i + |needle|] == hay[i + 1..i + 1 + |needle|];
        assert OccursAt(hay, needle, i + 1);
      }
    }
    if exists i :: OccursAt(hay, needle, i) {
      var i :| OccursAt(hay, needle, i);
      if i == 0 {
        assert StartsWith(hay, needle);
      } else {
        assert hay[1..][i - 1..i - 1 + |needle|] == hay[i..i + |needle|];
        assert OccursAt(hay[1..], needle, i - 1);
        ContainsIff(hay[1..], needle);
      }
    }
  }

  /** The two-character wildcard mark the scripts strip from a name. */
  const Mark: string := "_*"

  /** Python `s.replace('_*', '')`: every occurrence of the mark is removed in one
      left-to-right pass; marks formed by the removal itself stay. The result
      differs from `s` exactly when `s` contains a mark. */
  function RemoveMarks(s: string): (r: string)
    ensures |r| <= |s|
    ensures (|s| - |r|) % 2 == 0
    ensures forall c :: c in r ==> c in s
    ensures !Contains(s, Mark) ==> r == s
    ensures Contains(s, Mark) ==> |r| < |s|
  {
    if |s| < 2 then s
    else if s[0] == '_' && s[1] == '*' then
      assert StartsWith(s, Mark);
      RemoveMarks(s[2..])
    else
      assert !StartsWith(s, Mark);
      [s[0]] + RemoveMarks(s[1..])
  }

  /** The two branches of `RemoveMarks` on a string of at least two characters. */
  lemma RemoveMarksUnfold(s: string)
    requires |s| >= 2
    ensures StartsWith(s, Mark) ==> RemoveMarks(s) == RemoveMarks(s[2..])
    ensures !StartsWith(s, Mark) ==> RemoveMarks(s) == [s[0]] + RemoveMarks(s[1..])
  {
  }

  /** A leading mark is dropped. */
  lemma RemoveMarksLeading(b: string)
    ensures RemoveMarks(Mark + b) == RemoveMarks(b)
  {
    var s := Mark + b;
    RemoveMarksUnfold(s);
    assert s[..2] == Mark;
    assert s[2..] == b;
  }

  /** A single character before a mark is kept, and the mark is dropped. */
  lemma RemoveMarksAfterOne(c: char, b: string)
    ensures RemoveMarks([c] + Mark + b) == [c] + RemoveMarks(b)
  {
    var s := [c] + Mark + b;
    RemoveMarksUnfold(s);
    assert s[1] == '_' != '*';
    assert !StartsWith(s, Mark);
    assert s[1..] == Mark + b;
    RemoveMarksLeading(b);
  }

  /** How `a + Mark + b` splits when `a` opens with a mark. */
  lemma SkipShape(a: string, b: string)
    requires |a| >= 2 && StartsWith(a, Mark)
    ensures a == Mark + a[2..]
    ensures a + Mark + b == Mark + (a[2..] + Mark + b)
  {
  }

  /** The step of `RemoveMarksConcat` where `a` opens with a mark. */
  lemma RemoveMarksConcatSkip(a: string, b: string)
    requires |a| >= 2 && StartsWith(a, Mark)
    requires RemoveMarks(a[2..] + Mark + b) == RemoveMarks(a[2..]) + RemoveMarks(b)
    ensures RemoveMarks(a + Mark + b) == RemoveMarks(a) + RemoveMarks(b)
  {
    SkipShape(a, b);
    RemoveMarksLeading(a[2..] + Mark + b);
    RemoveMarksLeading(a[2..]);
  }

  /** A first character that does not open a mark is kept. */
  lemma RemoveMarksKeepHead(c: char, t: string)
    requires |t| == 0 || c != '_' || t[0] != '*'
    ensures RemoveMarks([c] + t) == [c] + RemoveMarks(t)
  {
    var s := [c] + t;
    if |t| > 0 {
      RemoveMarksUnfold(s);
      assert s[1] == t[0];
      assert s[1..] == t;
    }
  }

  /** How `a + Mark + b` splits when `a` opens with a kept character. */
  lemma KeepShape(a: string, b: string)
    requires |a| >= 2 && !StartsWith(a, Mark)
    ensures a == [a[0]] + a[1..]
    ensures a + Mark + b == [a[0]] + (a[1..] + Mark + b)
    ensures a[0] != '_' || (a[1..] + Mark + b)[0] != '*'
    ensures a[0] != '_' || a[1..][0] != '*'
  {
    assert a[..2] == [a[0], a[1]];
  }

  /** The step of `RemoveMarksConcat` where `a` opens with a kept character. */
  lemma RemoveMarksConcatKeep(a: string, b: string)
    requires |a| >= 2 && !StartsWith(a, Mark)
    requires RemoveMarks(a[1..] + Mark + b) == RemoveMarks(a[1..]) + RemoveMarks(b)
    ensures RemoveMarks(a + Mark + b) == RemoveMarks(a) + RemoveMarks(b)
  {
    KeepShape(a, b);
    RemoveMarksKeepHead(a[0], a[1..] + Mark + b);
    RemoveMarksKeepHead(a[0], a[1..]);
  }

  /** A mark is removed wherever it stands, and the pass over the text before it
      does not reach into it: the text around the mark is cleaned
      independently. Together with `RemoveMarks(s) == s` for mark-free `s`, this
      fixes the result of every input. */
  lemma {:induction false} RemoveMarksConcat(a: string, b: string)
    ensures RemoveMarks(a + Mark + b) == RemoveMarks(a) + RemoveMarks(b)
    decreases |a|
  {
    if |a| == 0 {
      assert a + Mark + b == Mark + b;
      RemoveMarksLeading(b);
    } else if |a| == 1 {
      assert a == [a[0]];
      RemoveMarksAfterOne(a[0], b);
    } else if StartsWith(a, Mark) {
      RemoveMarksConcat(a[2..], b);
      RemoveMarksConcatSkip(a, b);
    } else {
      RemoveMarksConcat(a[1..], b);
      RemoveMarksConcatKeep(a, b);
    }
  }
}
