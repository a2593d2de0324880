/** The string primitives the Python code relies on: `str.strip()`,
    `str.split()`, `sep.join(...)`, substring search and the
    regular-expression substitution "replace each run of a class by one
    character". `str.split(sep)` is not called by the code; it is here only
    to state that a joined context splits back into its parts. */
module Strings {
  import opened Chars
  import opened Results

  /** `s` with its longest prefix of `p`-characters removed. */
  function DropWhile(s: string, p: char -> bool): (r: string)
    ensures |r| <= |s|
    ensures r == [] || !p(r[0])
    ensures forall i :: 0 <= i < |s| - |r| ==> p(s[i])
    decreases |s|
  {
    if s == [] || !p(s[0]) then s else DropWhile(s[1..], p)
  }

  /** `s` with its longest suffix of `p`-characters removed. */
  function DropWhileEnd(s: string, p: char -> bool): (r: string)
    ensures |r| <= |s|
    ensures r == [] || !p(r[|r| - 1])
    ensures forall i :: |r| <= i < |s| ==> p(s[i])
    decreases |s|
  {
    if s == [] || !p(s[|s| - 1]) then s else DropWhileEnd(s[..|s| - 1], p)
  }

  /** What `DropWhile` keeps is a suffix of its input. */
  lemma {:induction false} DropWhileSuffix(s: string, p: char -> bool)
    ensures DropWhile(s, p) == s[|s| - |DropWhile(s, p)|..]
    decreases |s|
  {
    if s != [] && p(s[0]) {
      DropWhileSuffix(s[1..], p);
    }
  }

  /** What `DropWhileEnd` keeps is a prefix of its input. */
  lemma {:induction false} DropWhileEndPrefix(s: string, p: char -> bool)
    ensures DropWhileEnd(s, p) == s[..|DropWhileEnd(s, p)|]
    decreases |s|
  {
    if s != [] && p(s[|s| - 1]) {
      DropWhileEndPrefix(s[..|s| - 1], p);
    }
  }

  /** What `TakeWhile` keeps is a prefix of its input. */
  lemma {:induction false} TakeWhilePrefix(s: string, p: char -> bool)
    ensures TakeWhile(s, p) == s[..|TakeWhile(s, p)|]
    decreases |s|
  {
    if s != [] && p(s[0]) {
      TakeWhilePrefix(s[1..], p);
    }
  }

  /** The longest prefix of `s` made of `p`-characters. */
  function TakeWhile(s: string, p: char -> bool): (r: string)
    ensures |r| <= |s|
    ensures forall i :: 0 <= i < |r| ==> p(r[i])
    ensures |r| < |s| ==> !p(s[|r|])
    decreases |s|
  {
    if s == [] || !p(s[0]) then [] else [s[0]] + TakeWhile(s[1..], p)
  }

  predicate NotSpace(c: char) {
    !IsSpace(c)
  }

  /** `r` is the block `s[i..j]`, and every character cut off at either end
      satisfies `p`. */
  predicate TrimmedBy(s: string, r: string, i: int, j: int, p: char -> bool) {
    && 0 <= i <= j <= |s|
    && r == s[i..j]
    && (forall k :: 0 <= k < i ==> p(s[k]))
    && (forall k :: j <= k < |s| ==> p(s[k]))
  }

  /** `s` with its longest prefix and its longest suffix of `p`-characters
      removed. */
  function Trim(s: string, p: char -> bool): string {
    DropWhileEnd(DropWhile(s, p), p)
  }

  /** Trimming keeps one block of its input, cuts off only `p`-characters,
      and leaves no `p`-character at either end. */
  lemma TrimSlice(s: string, p: char -> bool)
    ensures var i := |s| - |DropWhile(s, p)|;
      TrimmedBy(s, Trim(s, p), i, i + |Trim(s, p)|, p)
    ensures Trim(s, p) == [] || (!p(Trim(s, p)[0]) && !p(Trim(s, p)[|Trim(s, p)| - 1]))
  {
    TrimBlock(s, p);
    TrimTail(s, p);
    TrimEnds(s, p);
  }

  /** `Trim` leaves no `p`-character at either end. */
  lemma TrimEnds(s: string, p: char -> bool)
    ensures Trim(s, p) == [] || (!p(Trim(s, p)[0]) && !p(Trim(s, p)[|Trim(s, p)| - 1]))
  {
    var a := DropWhile(s, p);
    var r := DropWhileEnd(a, p);
    if r != [] {
      DropWhileEndPrefix(a, p);
      assert r[0] == a[0];
    }
  }

  /** What `Trim` keeps is the block of `s` after the dropped prefix. */
  lemma TrimBlock(s: string, p: char -> bool)
    ensures var i := |s| - |DropWhile(s, p)|;
      Trim(s, p) == s[i..i + |Trim(s, p)|]
  {
    var a := DropWhile(s, p);
    var r := DropWhileEnd(a, p);
    DropWhileSuffix(s, p);
    DropWhileEndPrefix(a, p);
    SliceOfSuffix(s, |s| - |a|, |r|);
  }

  lemma SliceOfSuffix(s: string, i: nat, m: nat)
    requires i + m <= |s|
    ensures s[i..][..m] == s[i..i + m]
  {
  }

  /** `Trim` drops only `p`-characters after the block it keeps. */
  lemma TrimTail(s: string, p: char -> bool)
    ensures var j := |s| - |DropWhile(s, p)| + |Trim(s, p)|;
      forall k :: j <= k < |s| ==> p(s[k])
  {
    var a := DropWhile(s, p);
    var r := DropWhileEnd(a, p);
    DropWhileSuffix(s, p);
    var i := |s| - |a|;
    forall k | i + |r| <= k < |s|
      ensures p(s[k])
    {
      assert a[k - i] == s[k];
    }
  }

  /** `str.strip()` with no argument: only whitespace is cut off, and only
      from the two ends. */
  function Strip(s: string): (r: string)
    ensures NoEdgeSpace(r)
    ensures exists i, j :: TrimmedBy(s, r, i, j, IsSpace)
  {
    TrimSlice(s, IsSpace);
    Trim(s, IsSpace)
  }

  /** Neither end of `s` is whitespace. */
  predicate NoEdgeSpace(s: string) {
    |s| > 0 ==> !IsSpace(s[0]) && !IsSpace(s[|s| - 1])
  }

  /** The only whitespace character in `s` is the plain space. */
  predicate OnlyPlainSpaces(s: string) {
    forall i :: 0 <= i < |s| && IsSpace(s[i]) ==> s[i] == ' '
  }

  /** No two whitespace characters stand next to each other in `s`. */
  predicate NoDoubleSpace(s: string) {
    forall i :: 0 <= i < |s| - 1 && IsSpace(s[i]) ==> !IsSpace(s[i + 1])
  }

  /** `s` is its words separated by single plain spaces. */
  predicate SingleSpaced(s: string) {
    NoEdgeSpace(s) && OnlyPlainSpaces(s) && NoDoubleSpace(s)
  }

  /** The regular-expression substitution `re.sub(P + '+', rep, s)`: every
      maximal run of `p`-characters becomes the one character `rep`. */
  function Collapse(s: string, p: char -> bool, rep: char): (r: string)
    ensures |r| <= |s|
    ensures |r| == 0 <==> |s| == 0
    ensures forall i :: 0 <= i < |r| ==> r[i] == rep || !p(r[i])
    ensures forall i :: 0 <= i < |r| - 1 && p(r[i]) ==> !p(r[i + 1])
    ensures |s| > 0 ==> r[0] == (if p(s[0]) then rep else s[0])
    ensures |s| > 0 ==> r[|r| - 1] == (if p(s[|s| - 1]) then rep else s[|s| - 1])
    decreases |s|
  {
    if s == [] then []
    else if p(s[0]) then
      DropWhileSuffix(s, p);
      [rep] + Collapse(DropWhile(s, p), p, rep)
    else [s[0]] + Collapse(s[1..], p, rep)
  }

  /** The `p`-characters of `s` are all `rep` and never adjacent. */
  predicate CollapsedBy(s: string, p: char -> bool, rep: char) {
    && (forall i :: 0 <= i < |s| && p(s[i]) ==> s[i] == rep)
    && (forall i :: 0 <= i < |s| - 1 && p(s[i]) ==> !p(s[i + 1]))
  }

  /** Collapsing changes nothing in a string whose `p`-characters are all
      `rep` and never adjacent. */
  lemma {:induction false} CollapseFixpoint(s: string, p: char -> bool, rep: char)
    requires CollapsedBy(s, p, rep)
    ensures Collapse(s, p, rep) == s
    decreases |s|
  {
    if s != [] {
      CollapsedTail(s, p, rep);
      CollapseFixpoint(s[1..], p, rep);
      CollapseHead(s, p, rep);
    }
  }

  /** `CollapsedBy` passes to the tail. */
  lemma CollapsedTail(s: string, p: char -> bool, rep: char)
    requires s != [] && CollapsedBy(s, p, rep)
    ensures CollapsedBy(s[1..], p, rep)
    ensures p(s[0]) ==> s[0] == rep && (|s| == 1 || !p(s[1]))
  {
    var t := s[1..];
    forall i | 0 <= i < |t| && p(t[i])
      ensures t[i] == rep
    {
      assert t[i] == s[i + 1];
    }
    forall i | 0 <= i < |t| - 1 && p(t[i])
      ensures !p(t[i + 1])
    {
      assert t[i] == s[i + 1] && t[i + 1] == s[i + 2];
    }
  }

  /** One step of `Collapse` on a string whose second character is not a
      `p`-character when the first is. */
  lemma CollapseHead(s: string, p: char -> bool, rep: char)
    requires s != [] && (p(s[0]) ==> s[0] == rep && (|s| == 1 || !p(s[1])))
    ensures Collapse(s, p, rep) == [s[0]] + Collapse(s[1..], p, rep)
  {
    if p(s[0]) {
      assert DropWhile(s, p) == DropWhile(s[1..], p);
      if |s| > 1 {
        assert s[1..][0] == s[1];
      }
      assert DropWhile(s[1..], p) == s[1..];
    }
  }

  /** The characters of `s` that satisfy `p`, in order. */
  function Keep(s: string, p: char -> bool): (r: string)
    ensures |r| <= |s|
    decreases |s|
  {
    if s == [] then [] else (if p(s[0]) then [s[0]] else []) + Keep(s[1..], p)
  }

  lemma {:induction false} KeepAppend(a: string, b: string, p: char -> bool)
    ensures Keep(a + b, p) == Keep(a, p) + Keep(b, p)
    decreases |a|
  {
    if a == [] {
      assert a + b == b;
    } else {
      var ab := a + b;
      var h := if p(a[0]) then [a[0]] else [];
      assert ab[0] == a[0];
      assert ab[1..] == a[1..] + b;
      KeepAppend(a[1..], b, p);
      assert Keep(ab, p) == h + Keep(ab[1..], p);
      assert Keep(a, p) == h + Keep(a[1..], p);
    }
  }

  lemma {:induction false} KeepNone(s: string, p: char -> bool)
    requires forall k :: 0 <= k < |s| ==> !p(s[k])
    ensures Keep(s, p) == []
    decreases |s|
  {
    if s != [] {
      assert forall k :: 0 <= k < |s| - 1 ==> s[1..][k] == s[k + 1];
      KeepNone(s[1..], p);
    }
  }

  /** Cutting off ends made of characters that `q` rejects keeps every
      `q`-character. */
  lemma KeepTrimmed(s: string, r: string, i: int, j: int, p: char -> bool, q: char -> bool)
    requires TrimmedBy(s, r, i, j, p)
    requires forall k :: 0 <= k < |s| && p(s[k]) ==> !q(s[k])
    ensures Keep(r, q) == Keep(s, q)
  {
    assert s == s[..i] + r + s[j..];
    KeepAppend(s[..i] + r, s[j..], q);
    KeepAppend(s[..i], r, q);
    assert forall k :: 0 <= k < i ==> s[..i][k] == s[k];
    KeepNone(s[..i], q);
    assert forall k :: 0 <= k < |s| - j ==> s[j..][k] == s[j + k];
    KeepNone(s[j..], q);
  }

  /** Collapsing keeps, in order, every character that `q` accepts, when `q`
      rejects the replacement and every `p`-character. */
  lemma {:induction false} CollapseKeep(s: string, p: char -> bool, rep: char, q: char -> bool)
    requires !q(rep)
    requires forall k :: 0 <= k < |s| && p(s[k]) ==> !q(s[k])
    ensures Keep(Collapse(s, p, rep), q) == Keep(s, q)
    decreases |s|
  {
    if s != [] {
      if p(s[0]) {
        var d := DropWhile(s, p);
        DropWhileSuffix(s, p);
        var n := |s| - |d|;
        assert TrimmedBy(s, d, n, |s|, p);
        KeepTrimmed(s, d, n, |s|, p, q);
        assert forall k :: 0 <= k < |d| ==> d[k] == s[n + k];
        CollapseKeep(d, p, rep, q);
        var c := Collapse(d, p, rep);
        assert ([rep] + c)[1..] == c;
      } else {
        CollapseKeep(s[1..], p, rep, q);
        var c := Collapse(s[1..], p, rep);
        assert ([s[0]] + c)[1..] == c;
      }
    }
  }

  /** A block without `p`-characters passes through `Collapse` unchanged. */
  lemma {:induction false} CollapsePlainPrefix(w: string, rest: string, p: char -> bool, rep: char)
    requires forall k :: 0 <= k < |w| ==> !p(w[k])
    ensures Collapse(w + rest, p, rep) == w + Collapse(rest, p, rep)
    decreases |w|
  {
    if w == [] {
      assert w + rest == rest;
    } else {
      var s := w + rest;
      assert s[0] == w[0] && !p(s[0]);
      assert s[1..] == w[1..] + rest;
      assert Collapse(s, p, rep) == [w[0]] + Collapse(s[1..], p, rep);
      CollapsePlainPrefix(w[1..], rest, p, rep);
      assert w == [w[0]] + w[1..];
      AppendAssoc([w[0]], w[1..], Collapse(rest, p, rep));
    }
  }

  lemma AppendAssoc<T>(a: seq<T>, b: seq<T>, c: seq<T>)
    ensures a + (b + c) == (a + b) + c
  {
  }

  /** A word of `str.split()`: non-empty, no whitespace. */
  predicate IsWord(w: string) {
    |w| > 0 && forall i :: 0 <= i < |w| ==> !IsSpace(w[i])
  }

  lemma LeadingWord(t: string)
    requires t != [] && !IsSpace(t[0])
    ensures IsWord(TakeWhile(t, NotSpace))
  {
    var w := TakeWhile(t, NotSpace);
    assert NotSpace(t[0]);
    forall i | 0 <= i < |w| ensures !IsSpace(w[i]) {
      assert NotSpace(w[i]);
    }
  }

  /** `str.split()` with no argument: the maximal runs of non-whitespace
      characters, in order. */
  function Words(s: string): (ws: seq<string>)
    ensures forall k :: 0 <= k < |ws| ==> IsWord(ws[k])
    decreases |s|
  {
    var t := DropWhile(s, IsSpace);
    if t == [] then []
    else
      var w := TakeWhile(t, NotSpace);
      LeadingWord(t);
      [w] + Words(t[|w|..])
  }

  /** `sep.join(ws)`. */
  function Join(ws: seq<string>, sep: string): (r: string)
    decreases |ws|
  {
    if |ws| == 0 then ""
    else if |ws| == 1 then ws[0]
    else ws[0] + sep + Join(ws[1..], sep)
  }

  /** Concatenation of a sequence of sequences. */
  function Flatten<T>(xss: seq<seq<T>>): (r: seq<T>)
    decreases |xss|
  {
    if xss == [] then [] else xss[0] + Flatten(xss[1..])
  }

  /** Element `p` of the concatenation is element `k` of sequence `d`. */
  lemma {:induction false} FlattenSource<T>(xss: seq<seq<T>>, p: nat) returns (d: nat, k: nat)
    requires p < |Flatten(xss)|
    ensures d < |xss| && k < |xss[d]| && Flatten(xss)[p] == xss[d][k]
    decreases |xss|
  {
    if p < |xss[0]| {
      d, k := 0, p;
    } else {
      var d', k' := FlattenSource(xss[1..], p - |xss[0]|);
      d, k := d' + 1, k';
    }
  }

  lemma {:induction false} FlattenAppend<T>(a: seq<seq<T>>, b: seq<seq<T>>)
    ensures Flatten(a + b) == Flatten(a) + Flatten(b)
    decreases |a|
  {
    if a == [] {
      assert a + b == b;
    } else {
      assert (a + b)[1..] == a[1..] + b;
      FlattenAppend(a[1..], b);
    }
  }

  lemma {:induction false} WordsSkipsLeadingSpace(c: char, s: string)
    requires IsSpace(c)
    ensures Words([c] + s) == Words(s)
  {
    assert ([c] + s)[1..] == s;
    assert DropWhile([c] + s, IsSpace) == DropWhile(s, IsSpace);
  }

  lemma {:induction false} TakeWhileWord(w: string, rest: string)
    requires IsWord(w)
    requires rest == [] || IsSpace(rest[0])
    ensures TakeWhile(w + rest, NotSpace) == w
    decreases |w|
  {
    if |w| == 1 {
      assert (w + rest)[1..] == rest;
    } else {
      assert (w + rest)[1..] == w[1..] + rest;
      TakeWhileWord(w[1..], rest);
    }
  }

  /** Words of one word followed by a whitespace-led rest. */
  lemma {:induction false} WordsCons(w: string, rest: string)
    requires IsWord(w)
    requires rest == [] || IsSpace(rest[0])
    ensures Words(w + rest) == [w] + Words(rest)
  {
    var s := w + rest;
    assert DropWhile(s, IsSpace) == s;
    TakeWhileWord(w, rest);
    assert s[|w|..] == rest;
  }

  /** Splitting single-space-joined words gives the words back. */
  lemma {:induction false} WordsOfJoin(ws: seq<string>)
    requires forall k :: 0 <= k < |ws| ==> IsWord(ws[k])
    ensures Words(Join(ws, " ")) == ws
    decreases |ws|
  {
    if |ws| == 0 {
      assert DropWhile("", IsSpace) == "";
    } else if |ws| == 1 {
      WordsCons(ws[0], "");
      assert ws[0] + "" == ws[0];
      assert DropWhile("", IsSpace) == "";
    } else {
      var rest := Join(ws[1..], " ");
      assert Join(ws, " ") == ws[0] + (" " + rest);
      WordsCons(ws[0], " " + rest);
      WordsSkipsLeadingSpace(' ', rest);
      WordsOfJoin(ws[1..]);
    }
  }

  lemma {:induction false} SingleSpacedConcat(a: string, b: string)
    requires SingleSpaced(a) && SingleSpaced(b) && |a| > 0 && |b| > 0
    ensures SingleSpaced(a + " " + b)
  {
    var s := a + " " + b;
    forall i | 0 <= i < |s| && IsSpace(s[i])
      ensures s[i] == ' '
    {
      if i < |a| { assert s[i] == a[i]; }
      else if i > |a| { assert s[i] == b[i - |a| - 1]; }
    }
    forall i | 0 <= i < |s| - 1 && IsSpace(s[i])
      ensures !IsSpace(s[i + 1])
    {
      if i < |a| - 1 { assert s[i] == a[i] && s[i + 1] == a[i + 1]; }
      else if i == |a| { assert s[i + 1] == b[0]; }
      else if i > |a| { assert s[i] == b[i - |a| - 1] && s[i + 1] == b[i - |a|]; }
    }
    assert s[0] == a[0];
    assert s[|s| - 1] == b[|b| - 1];
  }

  /** Words joined by single spaces form a non-empty single-spaced string. */
  lemma {:induction false} JoinWordsSingleSpaced(ws: seq<string>)
    requires |ws| > 0
    requires forall k :: 0 <= k < |ws| ==> IsWord(ws[k])
    ensures |Join(ws, " ")| > 0
    ensures SingleSpaced(Join(ws, " "))
    decreases |ws|
  {
    if |ws| == 1 {
      assert IsWord(ws[0]);
    } else {
      assert IsWord(ws[0]);
      JoinWordsSingleSpaced(ws[1..]);
      SingleSpacedConcat(ws[0], Join(ws[1..], " "));
    }
  }

  /** `str.split()` is empty exactly when the text is all whitespace. */
  lemma {:induction false} WordsEmptyIffBlank(s: string)
    ensures Words(s) == [] <==> forall i :: 0 <= i < |s| ==> IsSpace(s[i])
  {
    var t := DropWhile(s, IsSpace);
    DropWhileSuffix(s, IsSpace);
    if t == [] {
      assert forall i :: 0 <= i < |s| ==> IsSpace(s[i]);
    } else {
      assert !IsSpace(s[|s| - |t|]);
    }
  }

  /** Replacing every run of whitespace by one space keeps `str.split()`. */
  lemma WordsOfCollapse(s: string)
    ensures Words(Collapse(s, IsSpace, ' ')) == Words(s)
  {
    WordsOfCollapseBy(s, IsSpace);
  }

  /** Replacing every run of a class of whitespace characters by one space
      keeps `str.split()`. */
  lemma {:induction false} WordsOfCollapseBy(s: string, p: char -> bool)
    requires forall k :: 0 <= k < |s| && p(s[k]) ==> IsSpace(s[k])
    ensures Words(Collapse(s, p, ' ')) == Words(s)
    decreases |s|
  {
    if s == [] {
    } else if p(s[0]) {
      var d := DropWhile(s, p);
      DropWhileSuffix(s, p);
      SpaceClassSuffix(s, |s| - |d|, p);
      WordsOfCollapseBy(d, p);
      CollapseRunWords(s, p);
    } else if IsSpace(s[0]) {
      SpaceClassSuffix(s, 1, p);
      WordsOfCollapseBy(s[1..], p);
      CollapseSpaceWords(s, p);
    } else {
      var w := TakeWhile(s, NotSpace);
      LeadingWord(s);
      SpaceClassSuffix(s, |w|, p);
      WordsOfCollapseBy(s[|w|..], p);
      CollapseWordWords(s, p);
    }
  }

  /** A leading run of the class becomes one space, which `str.split()`
      skips as it skips the run. */
  lemma CollapseRunWords(s: string, p: char -> bool)
    requires s != [] && p(s[0])
    requires forall k :: 0 <= k < |s| && p(s[k]) ==> IsSpace(s[k])
    requires Words(Collapse(DropWhile(s, p), p, ' ')) == Words(DropWhile(s, p))
    ensures Words(Collapse(s, p, ' ')) == Words(s)
  {
    var d := DropWhile(s, p);
    WordsDropRun(s, p);
    WordsSkipsLeadingSpace(' ', Collapse(d, p, ' '));
    assert Collapse(s, p, ' ') == [' '] + Collapse(d, p, ' ');
  }

  /** Dropping a leading run of whitespace characters keeps `str.split()`. */
  lemma WordsDropRun(s: string, p: char -> bool)
    requires forall k :: 0 <= k < |s| && p(s[k]) ==> IsSpace(s[k])
    ensures Words(DropWhile(s, p)) == Words(s)
  {
    var n := |s| - |DropWhile(s, p)|;
    assert forall k :: 0 <= k < n ==> IsSpace(s[k]);
    WordsAfterSpacePrefix(s, n);
    assert s[n..] == DropWhile(s, p) by {
      DropWhileSuffix(s, p);
    }
  }

  /** `str.split()` skips a prefix of whitespace. */
  lemma {:induction false} WordsAfterSpacePrefix(s: string, n: nat)
    requires n <= |s|
    requires forall k :: 0 <= k < n ==> IsSpace(s[k])
    ensures Words(s[n..]) == Words(s)
    decreases n
  {
    if n > 0 {
      var t := s[1..];
      assert Words(t[n - 1..]) == Words(t) by {
        forall k | 0 <= k < n - 1 ensures IsSpace(t[k]) {
          assert t[k] == s[k + 1];
        }
        WordsAfterSpacePrefix(t, n - 1);
      }
      assert Words(t) == Words(s) by {
        WordsSkipsLeadingSpace(s[0], t);
        assert [s[0]] + t == s;
      }
      assert t[n - 1..] == s[n..];
    }
  }

  /** A leading whitespace character outside the class is kept, and
      `str.split()` skips it. */
  lemma CollapseSpaceWords(s: string, p: char -> bool)
    requires s != [] && !p(s[0]) && IsSpace(s[0])
    requires Words(Collapse(s[1..], p, ' ')) == Words(s[1..])
    ensures Words(Collapse(s, p, ' ')) == Words(s)
  {
    WordsSkipsLeadingSpace(s[0], Collapse(s[1..], p, ' '));
    WordsSkipsLeadingSpace(s[0], s[1..]);
    assert [s[0]] + s[1..] == s;
  }

  /** A leading word passes through unchanged and stays the first word. */
  lemma CollapseWordWords(s: string, p: char -> bool)
    requires s != [] && !IsSpace(s[0])
    requires forall k :: 0 <= k < |s| && p(s[k]) ==> IsSpace(s[k])
    requires var w := TakeWhile(s, NotSpace);
      Words(Collapse(s[|w|..], p, ' ')) == Words(s[|w|..])
    ensures Words(Collapse(s, p, ' ')) == Words(s)
  {
    var w := TakeWhile(s, NotSpace);
    var rest := s[|w|..];
    TakeWhilePrefix(s, NotSpace);
    SplitAt(s, |w|);
    assert IsWord(w) by {
      LeadingWord(s);
    }
    assert rest == [] || IsSpace(rest[0]) by {
      if rest != [] { assert !NotSpace(s[|w|]); }
    }
    var c := Collapse(rest, p, ' ');
    assert Collapse(s, p, ' ') == w + c by {
      forall k | 0 <= k < |w| ensures !p(w[k]) {
        assert w[k] == s[k];
      }
      CollapsePlainPrefix(w, rest, p, ' ');
    }
    CollapseStartsSpace(rest, p);
    WordsCons(w, c);
    WordsCons(w, rest);
  }

  lemma SplitAt<T>(s: seq<T>, m: nat)
    requires m <= |s|
    ensures s == s[..m] + s[m..]
  {
  }

  /** A text that is empty or starts with whitespace still does so after
      its whitespace runs become single spaces. */
  lemma CollapseStartsSpace(s: string, p: char -> bool)
    requires s == [] || IsSpace(s[0])
    ensures Collapse(s, p, ' ') == [] || IsSpace(Collapse(s, p, ' ')[0])
  {
  }

  /** A suffix of `s` keeps the fact that its `p`-characters are whitespace. */
  lemma SpaceClassSuffix(s: string, i: nat, p: char -> bool)
    requires i <= |s|
    requires forall k :: 0 <= k < |s| && p(s[k]) ==> IsSpace(s[k])
    ensures forall k :: 0 <= k < |s[i..]| && p(s[i..][k]) ==> IsSpace(s[i..][k])
  {
    assert forall k :: 0 <= k < |s[i..]| ==> s[i..][k] == s[i + k];
  }

  /** Whitespace in front of a string does not change `str.split()`. */
  lemma {:induction false} WordsAfterSpaces(a: string, b: string)
    requires forall k :: 0 <= k < |a| ==> IsSpace(a[k])
    ensures Words(a + b) == Words(b)
    decreases |a|
  {
    if a == [] {
      assert a + b == b;
    } else {
      assert a + b == [a[0]] + (a[1..] + b);
      WordsSkipsLeadingSpace(a[0], a[1..] + b);
      WordsAfterSpaces(a[1..], b);
    }
  }

  /** Whitespace after a string does not change `str.split()`. */
  lemma {:induction false} WordsBeforeSpaces(m: string, z: string)
    requires forall k :: 0 <= k < |z| ==> IsSpace(z[k])
    ensures Words(m + z) == Words(m)
    decreases |m|
  {
    if m == [] {
      assert m + z == z;
      WordsEmptyIffBlank(z);
      WordsEmptyIffBlank(m);
    } else if IsSpace(m[0]) {
      assert m + z == [m[0]] + (m[1..] + z);
      WordsSkipsLeadingSpace(m[0], m[1..] + z);
      WordsSkipsLeadingSpace(m[0], m[1..]);
      assert [m[0]] + m[1..] == m;
      WordsBeforeSpaces(m[1..], z);
    } else {
      var w := TakeWhile(m, NotSpace);
      var rest := m[|w|..];
      TakeWhilePrefix(m, NotSpace);
      LeadingWord(m);
      assert m == w + rest;
      assert rest == [] || IsSpace(rest[0]) by {
        if rest != [] { assert !NotSpace(m[|w|]); }
      }
      assert m + z == w + (rest + z);
      assert rest + z == [] || IsSpace((rest + z)[0]);
      WordsCons(w, rest);
      WordsCons(w, rest + z);
      WordsBeforeSpaces(rest, z);
    }
  }

  /** `str.strip()` does not change `str.split()`. */
  lemma WordsOfStrip(s: string)
    ensures Words(Strip(s)) == Words(s)
  {
    var r := Strip(s);
    var i, j :| TrimmedBy(s, r, i, j, IsSpace);
    TrimmedParts(s, r, i, j, IsSpace);
    WordsAfterSpaces(s[..i], r + s[j..]);
    WordsBeforeSpaces(r, s[j..]);
  }

  /** A trimmed string is the cut-off front, the block and the cut-off back. */
  lemma TrimmedParts(s: string, r: string, i: int, j: int, p: char -> bool)
    requires TrimmedBy(s, r, i, j, p)
    ensures s == s[..i] + (r + s[j..])
    ensures forall k :: 0 <= k < |s[..i]| ==> p(s[..i][k])
    ensures forall k :: 0 <= k < |s[j..]| ==> p(s[j..][k])
  {
    assert s == s[..i] + s[i..j] + s[j..];
    assert forall k :: 0 <= k < |s[..i]| ==> s[..i][k] == s[k];
    assert forall k :: 0 <= k < |s[j..]| ==> s[j..][k] == s[j + k];
  }

  /** `needle` occurs in `hay` starting at index `k`. */
  predicate OccursAt(hay: string, needle: string, k: int) {
    0 <= k && k + |needle| <= |hay| && hay[k..k + |needle|] == needle
  }

  /** `needle` occurs in `hay` as a contiguous block (Python's `needle in hay`). */
  predicate Contains(hay: string, needle: string) {
    exists k | 0 <= k <= |hay| - |needle| :: OccursAt(hay, needle, k)
  }

  /** The index of the first occurrence of `sep` in `s` (`str.find`). */
  function Find(s: string, sep: string): (r: Option<nat>)
    requires |sep| > 0
    ensures r.Some? ==> OccursAt(s, sep, r.value)
    ensures r.Some? ==> forall k :: 0 <= k < r.value ==> !OccursAt(s, sep, k)
    ensures r.None? ==> !Contains(s, sep)
    decreases |s|
  {
    if |s| < |sep| then None
    else if s[..|sep|] == sep then Some(0)
    else match Find(s[1..], sep)
      case None =>
        assert !Contains(s, sep) by {
          forall k | OccursAt(s, sep, k) ensures false {
            ShiftOccurrence(s, sep, k);
          }
        }
        None
      case Some(k) =>
        assert OccursAt(s, sep, k + 1) by {
          ShiftOccurrence(s, sep, k + 1);
        }
        assert forall j :: 0 <= j < k + 1 ==> !OccursAt(s, sep, j) by {
          forall j | 0 < j < k + 1 ensures !OccursAt(s, sep, j) {
            ShiftOccurrence(s, sep, j);
          }
        }
        Some(k + 1)
  }

  lemma ShiftOccurrence(s: string, sep: string, k: int)
    requires |s| > 0 && k >= 1
    ensures OccursAt(s, sep, k) <==> OccursAt(s[1..], sep, k - 1)
  {
    if k + |sep| <= |s| {
      assert s[1..][k - 1..k - 1 + |sep|] == s[k..k + |sep|];
    }
  }

  /** `s.split(sep)` for a non-empty separator. The code never calls it; it
      states what splitting a joined text gives back. */
  function SplitOn(s: string, sep: string): (r: seq<string>)
    requires |sep| > 0
    ensures |r| > 0
    decreases |s|
  {
    match Find(s, sep)
    case None => [s]
    case Some(k) => [s[..k]] + SplitOn(s[k + |sep|..], sep)
  }

  /** A piece that lacks the separator's first character hides no separator. */
  lemma {:induction false} FindAfterPiece(t: string, sep: string, rest: string)
    requires |sep| > 0
    requires forall i :: 0 <= i < |t| ==> t[i] != sep[0]
    ensures Find(t + sep + rest, sep) == Some(|t|)
    ensures Find(t, sep) == None
    decreases |t|
  {
    var s := t + sep + rest;
    if |t| == 0 {
      assert s[..|sep|] == sep;
      assert !Contains(t, sep) by {
        forall k | OccursAt(t, sep, k) ensures false { }
      }
    } else {
      assert s[0] == t[0];
      assert s[..|sep|] != sep by { assert s[..|sep|][0] != sep[0]; }
      assert s[1..] == t[1..] + sep + rest;
      FindAfterPiece(t[1..], sep, rest);
      if |t| >= |sep| {
        assert t[..|sep|][0] == t[0];
      }
    }
  }

  /** Joining pieces that lack the separator's first character and splitting
      on the separator gives the pieces back. */
  lemma {:induction false} SplitOnJoin(ts: seq<string>, sep: string)
    requires |sep| > 0 && |ts| > 0
    requires forall k, i :: 0 <= k < |ts| && 0 <= i < |ts[k]| ==> ts[k][i] != sep[0]
    ensures SplitOn(Join(ts, sep), sep) == ts
    decreases |ts|
  {
    if |ts| == 1 {
      FindAfterPiece(ts[0], sep, "");
    } else {
      var rest := Join(ts[1..], sep);
      FindAfterPiece(ts[0], sep, rest);
      var s := ts[0] + sep + rest;
      assert s[..|ts[0]|] == ts[0];
      assert s[|ts[0]| + |sep|..] == rest;
      SplitOnJoin(ts[1..], sep);
    }
  }
}
