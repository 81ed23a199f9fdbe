/**
  The name-list loader that all four scripts carry verbatim
  (`load_dataset_names` / `load_target_names`): the file content is split on
  every comma and every line feed, each piece is stripped, and a piece is
  dropped when it is blank after stripping or when its unstripped text starts
  with `#`. Reading the file is left to the caller: the loader takes the
  content as a string, as text-mode `f.read()` returns it, after a lone
  carriage return or a CR-LF pair has become a line feed.
 */
module Loader {
  import opened Seqs
  import opened Text

  /** The two characters of the pattern `[,\n]` the content is split on. */
  predicate IsSeparator(c: char)
  {
    c == ',' || c == '\n'
  }

  /** `s` holds neither separator. */
  predicate NoSeparator(s: string)
  {
    ',' !in s && '\n' !in s
  }

  /** The separator characters of `s`, in order. */
  function Separators(s: string): seq<char>
  {
    Filter(IsSeparator, s)
  }

  /** Python `re.split(r'[,\n]', s)`: the maximal separator-free runs of `s`,
      including the empty ones between adjacent separators and at either end. */
  function SplitFields(s: string): (pieces: seq<string>)
    ensures |pieces| > 0
  {
    if |s| == 0 then [""] else Push(s[0], SplitFields(s[1..]))
  }

  /** The pieces of `[c] + t` from those of `t`: a separator opens a new empty
      first piece, any other character joins the first piece. */
  function Push(c: char, rest: seq<string>): (pieces: seq<string>)
    requires |rest| > 0
    ensures |pieces| > 0
  {
    if IsSeparator(c) then [""] + rest else [[c] + rest[0]] + rest[1..]
  }

  /** Pushing a character only touches the first piece, so it commutes with
      appending more pieces at the end. */
  lemma {:induction false} PushConcat(c: char, ra: seq<string>, rb: seq<string>)
    requires |ra| > 0
    ensures Push(c, ra + rb) == Push(c, ra) + rb
  {
    if !IsSeparator(c) {
      assert (ra + rb)[0] == ra[0];
      assert (ra + rb)[1..] == ra[1..] + rb;
    }
  }

  /** No piece holds a separator. */
  lemma {:induction false} SplitFieldsPieces(s: string)
    ensures forall p :: p in SplitFields(s) ==> NoSeparator(p)
    decreases |s|
  {
    if |s| > 0 {
      SplitFieldsPieces(s[1..]);
      var rest := SplitFields(s[1..]);
      if !IsSeparator(s[0]) {
        assert NoSeparator(rest[0]);
        assert forall p :: p in rest[1..] ==> p in rest;
      }
    }
  }

  /** There is one more piece than there are separators. */
  lemma {:induction false} SplitFieldsCount(s: string)
    ensures |SplitFields(s)| == |Separators(s)| + 1
    decreases |s|
  {
    if |s| > 0 {
      SplitFieldsCount(s[1..]);
    }
  }

  /** Puts pieces back together with the given separators between them. */
  function Join(pieces: seq<string>, seps: seq<char>): string
    requires |pieces| == |seps| + 1
    decreases |seps|
  {
    if |seps| == 0 then pieces[0]
    else pieces[0] + [seps[0]] + Join(pieces[1..], seps[1..])
  }

  lemma JoinExtendHead(c: char, pieces: seq<string>, seps: seq<char>)
    requires |pieces| == |seps| + 1
    ensures Join([[c] + pieces[0]] + pieces[1..], seps) == [c] + Join(pieces, seps)
  {
    var q := [[c] + pieces[0]] + pieces[1..];
    assert q[1..] == pieces[1..];
  }

  /** Splitting loses nothing: rejoining the pieces with the separators that
      were found gives back the content. */
  lemma {:induction false} SplitJoin(s: string)
    ensures |SplitFields(s)| == |Separators(s)| + 1
    ensures Join(SplitFields(s), Separators(s)) == s
    decreases |s|
  {
    SplitFieldsCount(s);
    if |s| > 0 {
      var rest, seps := SplitFields(s[1..]), Separators(s[1..]);
      SplitFieldsCount(s[1..]);
      SplitJoin(s[1..]);
      assert s == [s[0]] + s[1..];
      if IsSeparator(s[0]) {
        assert SplitFields(s) == [""] + rest;
        assert Separators(s) == [s[0]] + seps;
        assert ([""] + rest)[1..] == rest;
      } else {
        assert SplitFields(s) == [[s[0]] + rest[0]] + rest[1..];
        assert Separators(s) == seps;
        JoinExtendHead(s[0], rest, seps);
      }
    }
  }

  /** Splitting at a separator splits the pieces there. */
  lemma {:induction false} SplitConcat(a: string, sep: char, b: string)
    requires IsSeparator(sep)
    ensures SplitFields(a + [sep] + b) == SplitFields(a) + SplitFields(b)
    decreases |a|
  {
    if |a| == 0 {
      assert a + [sep] + b == [sep] + b;
      SplitCons(sep, b);
    } else {
      var t := a[1..] + [sep] + b;
      assert a + [sep] + b == [a[0]] + t;
      assert a == [a[0]] + a[1..];
      SplitConcat(a[1..], sep, b);
      SplitConsConcat(a[0], a[1..], t, SplitFields(b));
    }
  }

  /** One step of `SplitConcat`: putting a character in front of both sides. */
  lemma {:induction false} SplitConsConcat(c: char, u: string, t: string, rb: seq<string>)
    requires SplitFields(t) == SplitFields(u) + rb
    ensures SplitFields([c] + t) == SplitFields([c] + u) + rb
  {
    SplitCons(c, t);
    SplitCons(c, u);
    PushConcat(c, SplitFields(u), rb);
  }

  /** The pieces of content that starts with a given character. */
  lemma {:induction false} SplitCons(c: char, t: string)
    ensures SplitFields([c] + t) == Push(c, SplitFields(t))
  {
    assert ([c] + t)[1..] == t;
  }

  /** A piece of the content that yields a name: not blank once stripped, and not
      a comment. Only the unstripped piece is tested for the `#`. */
  predicate IsNamePiece(p: string)
  {
    |Strip(p)| > 0 && !(|p| > 0 && p[0] == '#')
  }

  /** What every loaded name looks like. */
  predicate IsName(n: string)
  {
    |n| > 0 && NoSeparator(n) && !IsSpace(n[0]) && !IsSpace(n[|n| - 1])
  }

  /** `load_dataset_names` / `load_target_names` on the file content. */
  function LoadNames(content: string): (names: seq<string>)
    ensures forall i :: 0 <= i < |names| ==> IsName(names[i])
    ensures |names| <= |Separators(content)| + 1
  {
    SplitFieldsCount(content);
    SplitFieldsPieces(content);
    var kept := Filter(IsNamePiece, SplitFields(content));
    forall i | 0 <= i < |kept| ensures IsName(Strip(kept[i])) {
      assert kept[i] in SplitFields(content);
    }
    Map(Strip, kept)
  }

  /** A name is loaded exactly when some piece of the content is kept and
      strips to it. */
  lemma {:induction false} LoadNamesMembership(content: string, n: string)
    ensures n in LoadNames(content) <==> exists p :: p in SplitFields(content) && IsNamePiece(p) && Strip(p) == n
  {
    var kept := Filter(IsNamePiece, SplitFields(content));
    assert LoadNames(content) == Map(Strip, kept);
    MapMembership(Strip, kept, n);
  }

  /** The loader keeps the order of the content: the names of two stretches
      joined by a separator are the names of the first, then those of the second. */
  lemma LoadNamesConcat(a: string, sep: char, b: string)
    requires IsSeparator(sep)
    ensures LoadNames(a + [sep] + b) == LoadNames(a) + LoadNames(b)
  {
    SplitConcat(a, sep, b);
    FilterConcat(IsNamePiece, SplitFields(a), SplitFields(b));
    MapConcat(Strip, Filter(IsNamePiece, SplitFields(a)), Filter(IsNamePiece, SplitFields(b)));
  }

  /** Content without separators is one piece: it gives its stripped text,
      or nothing when that piece is dropped. */
  lemma LoadNamesSingle(p: string)
    requires NoSeparator(p)
    ensures LoadNames(p) == (if IsNamePiece(p) then [Strip(p)] else [])
  {
    SingleField(p);
    assert Filter(IsNamePiece, [p]) == (if IsNamePiece(p) then [p] else []) by {
      assert [p][1..] == [];
    }
  }

  lemma {:induction false} SingleField(p: string)
    requires NoSeparator(p)
    ensures SplitFields(p) == [p]
    decreases |p|
  {
    if |p| > 0 {
      assert !IsSeparator(p[0]);
      SingleField(p[1..]);
      assert p == [p[0]] + p[1..];
    }
  }

  /** A comment line and a blank line yield no names. */
  lemma LoadNamesDropsCommentAndBlank()
    ensures LoadNames("# ignore_me\n\nfoo") == ["foo"]
  {
    var rest := "" + ['\n'] + "foo";
    assert "# ignore_me\n\nfoo" == "# ignore_me" + ['\n'] + rest;
    LoadNamesConcat("# ignore_me", '\n', rest);
    LoadNamesConcat("", '\n', "foo");
    CommentPieceDropped();
    BlankPieceDropped();
    FooPieceKept();
  }

  lemma CommentPieceDropped()
    ensures LoadNames("# ignore_me") == []
  {
    var p := "# ignore_me";
    assert NoSeparator(p);
    assert !IsNamePiece(p) by { assert p[0] == '#'; }
    LoadNamesSingle(p);
  }

  lemma BlankPieceDropped()
    ensures LoadNames("") == []
  {
    LoadNamesSingle("");
  }

  lemma FooPieceKept()
    ensures LoadNames("foo") == ["foo"]
  {
    assert Strip("foo") == "foo" by {
      assert LeadingSpaces("foo") == 0 && TrailingSpaces("foo") == 0;
    }
    assert NoSeparator("foo");
    LoadNamesSingle("foo");
  }

  /** The comment test looks at the unstripped piece, so an indented `#` survives
      and keeps its `#` once stripped. */
  lemma LoadNamesKeepsIndentedHash()
    ensures LoadNames(" # x") == ["# x"]
  {
    assert Strip(" # x") == "# x" by {
      assert LeadingSpaces("# x") == 0;
      assert LeadingSpaces(" # x") == 1;
      assert TrailingSpaces(" # x") == 0;
    }
    assert NoSeparator(" # x");
    assert IsNamePiece(" # x");
    LoadNamesSingle(" # x");
  }
}
