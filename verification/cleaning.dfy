/** The two text normalisers of project/notebooks/teste_NER.py:
    `clean_text`, applied to each page of extracted text, and
    `_normalize_entity_text`, applied to each entity text the recogniser
    reports. */
module Cleaning {
  import opened Chars
  import opened Strings
  import opened Results

  /** No two underscores stand next to each other in `s`. */
  predicate NoUnderscorePair(s: string) {
    forall i :: 0 <= i < |s| - 1 && s[i] == '_' ==> s[i + 1] != '_'
  }

  /** The characters of `s` other than the underscore, in order. */
  function NonUnderscores(s: string): string
    decreases |s|
  {
    if s == [] then [] else (if s[0] == '_' then [] else [s[0]]) + NonUnderscores(s[1..])
  }

  /** `re.sub(r'__', '', s)`: occurrences of `__` are removed scanning left
      to right, so a run of underscores loses its pairs and keeps at most
      one. */
  function RemoveUnderscorePairs(s: string): string
    decreases |s|
  {
    if |s| >= 2 && s[0] == '_' && s[1] == '_' then RemoveUnderscorePairs(s[2..])
    else if s == [] then []
    else [s[0]] + RemoveUnderscorePairs(s[1..])
  }

  /** The result has no `__` left, starts with an underscore only if the
      input does, holds only characters of the input, and keeps every other
      character in order. */
  lemma {:induction false} RemoveUnderscorePairsSpec(s: string)
    ensures NoUnderscorePair(RemoveUnderscorePairs(s))
    ensures |RemoveUnderscorePairs(s)| > 0 && RemoveUnderscorePairs(s)[0] == '_' ==> |s| > 0 && s[0] == '_'
    ensures forall i :: 0 <= i < |RemoveUnderscorePairs(s)| ==> RemoveUnderscorePairs(s)[i] in s
    ensures NonUnderscores(RemoveUnderscorePairs(s)) == NonUnderscores(s)
    decreases |s|
  {
    if |s| >= 2 && s[0] == '_' && s[1] == '_' {
      RemoveUnderscorePairsSpec(s[2..]);
      assert NonUnderscores(s) == NonUnderscores(s[1..]);
      assert s[1..][1..] == s[2..];
      assert forall c :: c in s[2..] ==> c in s;
    } else if s != [] {
      var rest := RemoveUnderscorePairs(s[1..]);
      RemoveUnderscorePairsSpec(s[1..]);
      var r := [s[0]] + rest;
      assert r[1..] == rest;
      assert forall i :: 1 <= i < |r| ==> r[i] == rest[i - 1];
      assert forall c :: c in s[1..] ==> c in s;
    }
  }

  /** Removing a `__` anywhere in the input does not change the result: a
      run of underscores keeps only its parity, and a `__` on its own
      disappears. */
  lemma {:induction false} RemovePairsCancel(a: string, b: string)
    ensures RemoveUnderscorePairs(a + "__" + b) == RemoveUnderscorePairs(a + b)
    decreases |a|
  {
    var s := a + "__" + b;
    if a == [] {
      assert s[2..] == b && a + b == b;
    } else if |a| >= 2 && a[0] == '_' && a[1] == '_' {
      assert s[2..] == a[2..] + "__" + b;
      assert (a + b)[2..] == a[2..] + b;
      RemovePairsCancel(a[2..], b);
    } else if |a| == 1 && a[0] == '_' {
      assert s[2..] == a + b;
    } else {
      assert RemoveUnderscorePairs(s) == [a[0]] + RemoveUnderscorePairs(a[1..] + "__" + b) by {
        assert s[0] == a[0];
        if |a| >= 2 {
          assert s[1] == a[1];
        }
        assert s[1..] == a[1..] + "__" + b;
      }
      assert RemoveUnderscorePairs(a + b) == [a[0]] + RemoveUnderscorePairs(a[1..] + b) by {
        assert (a + b)[0] == a[0];
        if |a| >= 2 {
          assert (a + b)[1] == a[1];
        }
        assert (a + b)[1..] == a[1..] + b;
      }
      RemovePairsCancel(a[1..], b);
    }
  }

  /** A text without `__` is left as it is; with `RemovePairsCancel` this
      determines `RemoveUnderscorePairs`. */
  lemma {:induction false} RemovePairsFixpoint(s: string)
    requires NoUnderscorePair(s)
    ensures RemoveUnderscorePairs(s) == s
    decreases |s|
  {
    if s != [] {
      SubstringKeeps(s, 1, |s|);
      RemovePairsFixpoint(s[1..]);
      RemovePairsKeeps(s);
    }
  }

  /** A block without underscores passes through unchanged. */
  lemma {:induction false} RemovePairsPlainPrefix(z: string, rest: string)
    requires forall k :: 0 <= k < |z| ==> z[k] != '_'
    ensures RemoveUnderscorePairs(z + rest) == z + RemoveUnderscorePairs(rest)
    decreases |z|
  {
    if z == [] {
      assert z + rest == rest;
    } else {
      var s := z + rest;
      assert s[0] == z[0];
      assert s[1..] == z[1..] + rest;
      RemovePairsPlainPrefix(z[1..], rest);
      assert z == [z[0]] + z[1..];
      AppendAssoc([z[0]], z[1..], RemoveUnderscorePairs(rest));
    }
  }

  /** Underscore runs never cross a boundary before a non-underscore, so the
      two sides are cleaned separately. */
  lemma {:induction false} RemovePairsAppend(a: string, b: string)
    requires b == [] || b[0] != '_'
    ensures RemoveUnderscorePairs(a + b) == RemoveUnderscorePairs(a) + RemoveUnderscorePairs(b)
    decreases |a|
  {
    var s := a + b;
    if a == [] {
      assert s == b;
    } else if |a| >= 2 && a[0] == '_' && a[1] == '_' {
      assert s[2..] == a[2..] + b;
      RemovePairsAppend(a[2..], b);
    } else {
      assert s[0] == a[0];
      if |a| >= 2 {
        assert s[1] == a[1];
      }
      assert s[1..] == a[1..] + b;
      RemovePairsAppend(a[1..], b);
      AppendAssoc([a[0]], RemoveUnderscorePairs(a[1..]), RemoveUnderscorePairs(b));
    }
  }

  /** Each word with its underscore pairs removed; words that vanish are
      dropped. */
  function RemovePairsEach(ws: seq<string>): seq<string>
    decreases |ws|
  {
    if ws == [] then []
    else
      var w := RemoveUnderscorePairs(ws[0]);
      (if w == [] then [] else [w]) + RemovePairsEach(ws[1..])
  }

  /** `re.sub(r'__', '', s).split()` is `s.split()` with the pairs removed
      from each word and the words that become empty dropped. */
  lemma {:induction false} WordsOfRemovePairs(s: string)
    ensures Words(RemoveUnderscorePairs(s)) == RemovePairsEach(Words(s))
    decreases |s|
  {
    var t := DropWhile(s, IsSpace);
    RemovePairsLeadingSpace(s);
    if t != [] {
      var w := TakeWhile(t, NotSpace);
      assert Words(s) == [w] + Words(t[|w|..]);
      LeadingWord(t);
      WordsOfRemovePairs(t[|w|..]);
      RemovePairsWordStep(t);
      assert ([w] + Words(t[|w|..]))[1..] == Words(t[|w|..]);
    }
  }

  /** Leading whitespace survives the removal and is then skipped by
      `str.split()`. */
  lemma RemovePairsLeadingSpace(s: string)
    ensures Words(RemoveUnderscorePairs(s)) == Words(RemoveUnderscorePairs(DropWhile(s, IsSpace)))
  {
    var t := DropWhile(s, IsSpace);
    var a := s[..|s| - |t|];
    assert s == a + t by {
      DropWhileSuffix(s, IsSpace);
    }
    forall k | 0 <= k < |a| ensures IsSpace(a[k]) && a[k] != '_' {
      assert a[k] == s[k];
    }
    RemovePairsPlainPrefix(a, t);
    WordsAfterSpaces(a, RemoveUnderscorePairs(t));
  }

  /** The first word of `t` is cleaned on its own. */
  lemma RemovePairsWordStep(t: string)
    requires t != [] && !IsSpace(t[0])
    ensures var w := TakeWhile(t, NotSpace);
      var u := RemoveUnderscorePairs(w);
      Words(RemoveUnderscorePairs(t))
        == (if u == [] then [] else [u]) + Words(RemoveUnderscorePairs(t[|w|..]))
  {
    var w := TakeWhile(t, NotSpace);
    var rest := t[|w|..];
    var u := RemoveUnderscorePairs(w);
    var v := RemoveUnderscorePairs(rest);
    assert rest == [] || IsSpace(rest[0]) by {
      if rest != [] { assert !NotSpace(t[|w|]); }
    }
    assert RemoveUnderscorePairs(t) == u + v by {
      TakeWhilePrefix(t, NotSpace);
      assert t == w + rest;
      RemovePairsAppend(w, rest);
    }
    assert v == [] || IsSpace(v[0]) by {
      if rest != [] { RemovePairsKeeps(rest); }
    }
    if u == [] {
      assert u + v == v;
    } else {
      assert IsWord(u) by {
        LeadingWord(t);
        RemoveUnderscorePairsSpec(w);
        forall i | 0 <= i < |u| ensures !IsSpace(u[i]) {
          assert u[i] in w;
          var k :| 0 <= k < |w| && w[k] == u[i];
        }
      }
      WordsCons(u, v);
    }
  }

  /** A substring of a string keeps these whitespace and underscore
      properties. */
  lemma SubstringKeeps(s: string, i: nat, j: nat)
    requires i <= j <= |s|
    ensures OnlyPlainSpaces(s) ==> OnlyPlainSpaces(s[i..j])
    ensures NoDoubleSpace(s) ==> NoDoubleSpace(s[i..j])
    ensures NoUnderscorePair(s) ==> NoUnderscorePair(s[i..j])
  {
    var t := s[i..j];
    assert forall k :: 0 <= k < |t| ==> t[k] == s[i + k];
  }

  lemma NoUnderscorePairMeansNoDunder(s: string)
    requires NoUnderscorePair(s)
    ensures !Contains(s, "__")
  {
    forall k | 0 <= k <= |s| - 2
      ensures !OccursAt(s, "__", k)
    {
      assert s[k..k + 2][0] == s[k] && s[k..k + 2][1] == s[k + 1];
    }
  }

  /** The substitutions and the final strip of `clean_text`. */
  function CleanSteps(t: string): string {
    Strip(RemoveUnderscorePairs(Collapse(Collapse(t, IsNewline, ' '), IsSpace, ' ')))
  }

  lemma CleanStepsShape(t: string)
    ensures NoEdgeSpace(CleanSteps(t))
    ensures OnlyPlainSpaces(CleanSteps(t))
    ensures !Contains(CleanSteps(t), "__")
  {
    var a := Collapse(t, IsNewline, ' ');
    var b := Collapse(a, IsSpace, ' ');
    var c := RemoveUnderscorePairs(b);
    RemoveUnderscorePairsSpec(b);
    assert OnlyPlainSpaces(c) by {
      forall i | 0 <= i < |c| && IsSpace(c[i]) ensures c[i] == ' ' {
        var k :| 0 <= k < |b| && b[k] == c[i];
      }
    }
    var r := Strip(c);
    var i, j :| 0 <= i <= j <= |c| && r == c[i..j];
    SubstringKeeps(c, i, j);
    NoUnderscorePairMeansNoDunder(r);
  }

  /** Every character that is neither whitespace nor an underscore
      survives the substitutions and the strip, in order. */
  lemma CleanStepsKeep(t: string)
    ensures Keep(CleanSteps(t), Plain) == Keep(t, Plain)
  {
    var a := Collapse(t, IsNewline, ' ');
    var b := Collapse(a, IsSpace, ' ');
    var c := RemoveUnderscorePairs(b);
    CollapseKeep(t, IsNewline, ' ', Plain);
    CollapseKeep(a, IsSpace, ' ', Plain);
    RemoveUnderscorePairsSpec(b);
    KeepPlainNonUnderscores(c);
    KeepPlainNonUnderscores(b);
    var r := Strip(c);
    var i, j :| TrimmedBy(c, r, i, j, IsSpace);
    KeepTrimmed(c, r, i, j, IsSpace, Plain);
  }

  /** The words of the cleaned text are the page's words with their
      underscore pairs removed, as if `__` had been removed from the page
      alone: the whitespace substitutions and the strip move no word
      boundary. */
  lemma CleanStepsWords(t: string)
    ensures Words(CleanSteps(t)) == Words(RemoveUnderscorePairs(t))
    ensures Words(CleanSteps(t)) == RemovePairsEach(Words(t))
  {
    var a := Collapse(t, IsNewline, ' ');
    var b := Collapse(a, IsSpace, ' ');
    WordsOfStrip(RemoveUnderscorePairs(b));
    WordsOfRemovePairs(b);
    WordsOfRemovePairs(t);
    WordsOfCollapse(a);
    assert forall k :: 0 <= k < |t| && IsNewline(t[k]) ==> IsSpace(t[k]);
    WordsOfCollapseBy(t, IsNewline);
  }

  /** Dropping underscores first does not change which characters are
      plain. */
  lemma {:induction false} KeepPlainNonUnderscores(s: string)
    ensures Keep(NonUnderscores(s), Plain) == Keep(s, Plain)
    decreases |s|
  {
    if s != [] {
      var h := if s[0] == '_' then [] else [s[0]];
      KeepPlainNonUnderscores(s[1..]);
      KeepAppend(h, NonUnderscores(s[1..]), Plain);
      assert h == [] || (h[1..] == [] && h[0] == s[0]);
    }
  }

  /** `clean_text(text)`; `None` stands for a page without text. The page's
      characters other than whitespace and underscores all survive, in
      order, and the words are those of the page with `__` removed. */
  function CleanText(text: Option<string>): (r: string)
    ensures text == None || text == Some("") ==> r == ""
    ensures NoEdgeSpace(r)
    ensures OnlyPlainSpaces(r)
    ensures !Contains(r, "__")
    ensures text.Some? ==> Keep(r, Plain) == Keep(text.value, Plain)
    ensures text.Some? ==> Words(r) == Words(RemoveUnderscorePairs(text.value))
  {
    match text
    case None => ""
    case Some(t) =>
      if t == "" then ""
      else
        CleanStepsShape(t);
        CleanStepsKeep(t);
        CleanStepsWords(t);
        CleanSteps(t)
  }

  /** A character that is neither whitespace nor an underscore. */
  predicate Plain(c: char) {
    !IsSpace(c) && c != '_'
  }

  /** Removing `__` can join two spaces: `clean_text` does not guarantee
      single spacing. For instance `"a __ b"` becomes `"a  b"`. */
  lemma CleanTextMayKeepDoubleSpace(x: char, y: char)
    requires Plain(x) && Plain(y)
    ensures CleanText(Some([x, ' ', '_', '_', ' ', y])) == [x, ' ', ' ', y]
    ensures !NoDoubleSpace(CleanText(Some([x, ' ', '_', '_', ' ', y])))
  {
    var t := [x, ' ', '_', '_', ' ', y];
    assert SpacedDunder(t);
    var c := [x, ' ', ' ', y];
    ExampleCleanSteps(t);
    assert [t[0], t[1], t[4], t[5]] == c;
    assert CleanText(Some(t)) == c;
    assert c[1] == ' ' && c[2] == ' ';
  }

  /** `t` is a plain character, a space, `__`, a space and a plain
      character. */
  predicate SpacedDunder(t: string) {
    |t| == 6 && Plain(t[0]) && t[1] == ' ' && t[2] == '_' && t[3] == '_' && t[4] == ' ' && Plain(t[5])
  }

  lemma ExampleCleanSteps(t: string)
    requires SpacedDunder(t)
    ensures CleanSteps(t) == [t[0], t[1], t[4], t[5]]
  {
    ExampleCollapse(t);
    ExampleRemovePairs(t);
    ExampleStrip([t[0], t[1], t[4], t[5]]);
  }

  lemma ExampleCollapse(t: string)
    requires SpacedDunder(t)
    ensures Collapse(Collapse(t, IsNewline, ' '), IsSpace, ' ') == t
  {
    assert IsSpace(' ') && !IsSpace('_');
    CollapseFixpoint(t, IsNewline, ' ');
    CollapseFixpoint(t, IsSpace, ' ');
  }

  lemma ExampleRemovePairs(t: string)
    requires SpacedDunder(t)
    ensures RemoveUnderscorePairs(t) == [t[0], t[1], t[4], t[5]]
  {
    assert t[5..][1..] == [];
    RemovePairsKeeps(t[5..]);
    assert t[4..][1..] == t[5..];
    RemovePairsKeeps(t[4..]);
    assert t[2..][2..] == t[4..];
    RemovePairsDrops(t[2..]);
    assert t[1..][1..] == t[2..];
    RemovePairsKeeps(t[1..]);
    RemovePairsKeeps(t);
  }

  /** A character that does not start `__` is kept. */
  lemma RemovePairsKeeps(s: string)
    requires |s| > 0 && !(|s| >= 2 && s[0] == '_' && s[1] == '_')
    ensures RemoveUnderscorePairs(s) == [s[0]] + RemoveUnderscorePairs(s[1..])
  {
  }

  /** A leading `__` is removed. */
  lemma RemovePairsDrops(s: string)
    requires |s| >= 2 && s[0] == '_' && s[1] == '_'
    ensures RemoveUnderscorePairs(s) == RemoveUnderscorePairs(s[2..])
  {
  }

  lemma ExampleStrip(c: string)
    requires |c| == 4 && Plain(c[0]) && Plain(c[3])
    ensures Strip(c) == c
  {
    assert DropWhile(c, IsSpace) == c;
    assert DropWhileEnd(c, IsSpace) == c;
  }

  /** `s.strip()` followed by `re.sub(r'\s+', ' ', s)`: the words stay the
      same and are separated by single plain spaces. */
  function SpaceNormalized(s: string): (r: string)
    ensures SingleSpaced(r)
    ensures Words(r) == Words(s)
  {
    CollapsedStripSingleSpaced(s);
    WordsOfStrip(s);
    WordsOfCollapse(Strip(s));
    Collapse(Strip(s), IsSpace, ' ')
  }

  lemma CollapsedStripSingleSpaced(s: string)
    ensures SingleSpaced(Collapse(Strip(s), IsSpace, ' '))
  {
    assert IsSpace(' ');
  }

  lemma LetterEndsNoEdgeSpace(r: string)
    requires r == [] || (IsEntityLetter(r[0]) && IsEntityLetter(r[|r| - 1]))
    ensures NoEdgeSpace(r)
  {
    if r != [] {
      LetterIsNotSpace(r[0]);
      LetterIsNotSpace(r[|r| - 1]);
    }
  }

  /** `re.sub(r'^[^L]+|[^L]+$', '', c)` with `L` the letter class: the runs
      of non-letters at both ends are cut off. */
  function TrimNonLetters(c: string): string {
    Trim(c, IsNonLetter)
  }

  /** Trimming keeps a contiguous block of its input and cuts off only
      non-letters. */
  lemma TrimNonLettersSlice(c: string) returns (i: nat)
    ensures TrimmedBy(c, TrimNonLetters(c), i, i + |TrimNonLetters(c)|, IsNonLetter)
  {
    TrimSlice(c, IsNonLetter);
    i := |c| - |DropWhile(c, IsNonLetter)|;
  }

  /** What trimming keeps starts and ends with a letter. */
  lemma TrimNonLettersEnds(c: string)
    ensures var r := TrimNonLetters(c);
      r == [] || (IsEntityLetter(r[0]) && IsEntityLetter(r[|r| - 1]))
  {
    TrimSlice(c, IsNonLetter);
  }

  /** Trimming keeps a single-spaced substring whose ends are letters. */
  lemma TrimNonLettersShape(c: string)
    requires SingleSpaced(c)
    ensures var r := TrimNonLetters(c);
      && (r == [] || (IsEntityLetter(r[0]) && IsEntityLetter(r[|r| - 1])))
      && SingleSpaced(r)
      && exists i, j :: TrimmedBy(c, r, i, j, IsNonLetter)
  {
    var r := TrimNonLetters(c);
    var i := TrimNonLettersSlice(c);
    SubstringKeeps(c, i, i + |r|);
    TrimNonLettersEnds(c);
    LetterEndsNoEdgeSpace(r);
  }

  /** `_normalize_entity_text(s)`: whitespace is normalised, then the runs of
      non-letters at both ends are cut off; nothing else is removed. */
  function NormalizeEntityText(s: string): (r: string)
    ensures r == [] || (IsEntityLetter(r[0]) && IsEntityLetter(r[|r| - 1]))
    ensures SingleSpaced(r)
    ensures exists i, j :: TrimmedBy(SpaceNormalized(s), r, i, j, IsNonLetter)
  {
    TrimNonLettersShape(SpaceNormalized(s));
    TrimNonLetters(SpaceNormalized(s))
  }

  /** Normalising twice is normalising once. */
  lemma NormalizeIdempotent(s: string)
    ensures NormalizeEntityText(NormalizeEntityText(s)) == NormalizeEntityText(s)
  {
    var r := NormalizeEntityText(s);
    LetterEndsNoEdgeSpace(r);
    assert Strip(r) == r by {
      assert DropWhile(r, IsSpace) == r;
      assert DropWhileEnd(r, IsSpace) == r;
    }
    assert SpaceNormalized(r) == r by {
      CollapseFixpoint(r, IsSpace, ' ');
    }
    assert TrimNonLetters(r) == r by {
      assert DropWhile(r, IsNonLetter) == r;
      assert DropWhileEnd(r, IsNonLetter) == r;
    }
  }
}
