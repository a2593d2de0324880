/** The entity filter of `extract_spacy_entities` in
    project/notebooks/teste_NER.py. The recogniser's output `nlp(text).ents`
    is an input here: a sequence of (text, tag) pairs. The filter keeps
    people and organisations, normalises their text, drops noise, and keeps
    the first occurrence of every text. */
module Entities {
  import opened Chars
  import opened Strings
  import opened Results
  import opened Cleaning

  /** One recognised entity: `(ent.text, ent.label_)`. */
  datatype RawEntity = RawEntity(text: string, tag: string)

  /** One returned entity: the normalised text and the upper-cased label. */
  datatype Entity = Entity(text: string, tag: string)

  /** `STOPWORDS_BOILERPLATE`: words of contract boilerplate that disqualify
      an entity when they occur anywhere in its lower-cased text. */
  const Stopwords: set<string> := {
    "parágrafo", "paragrafo", "cláusula", "clausula", "parte", "partes",
    "objeto", "contrato", "testemunhas", "artigo", "pagina", "página",
    "prazo", "preço", "preco", "lei", "lgpd", "constituição", "constituicao",
    "residentes", "residente", "extensão", "extensao", "recebimento",
    "condominio", "condomínio", "visibilidade", "marketing", "nps"
  }

  /** The labels the filter keeps. */
  const KeptLabels: set<string> := {"PER", "PERSON", "ORG"}

  /** The labels of people, which must show two capitalised words. */
  const PersonLabels: set<string> := {"PER", "PERSON"}

  /** `s.upper()`. */
  function Upper(s: string): (r: string)
    ensures |r| == |s|
    ensures forall i :: 0 <= i < |s| ==> r[i] == ToUpper(s[i])
  {
    seq(|s|, i requires 0 <= i < |s| => ToUpper(s[i]))
  }

  /** `s.lower()`. */
  function Lower(s: string): (r: string)
    ensures |r| == |s|
    ensures forall i :: 0 <= i < |s| ==> r[i] == ToLower(s[i])
  {
    seq(|s|, i requires 0 <= i < |s| => ToLower(s[i]))
  }

  /** `re.search(r'\d', s)` finds something. */
  predicate HasDigit(s: string) {
    exists i | 0 <= i < |s| :: IsDigit(s[i])
  }

  /** `s.isupper()`: there is a cased character and none is lower case. */
  predicate IsUpperText(s: string) {
    (exists i | 0 <= i < |s| :: IsUpper(s[i])) && !(exists i | 0 <= i < |s| :: IsLower(s[i]))
  }

  /** A text holding an ordinal indicator, as in "EMPRESA Nº UM", is not
      `isupper()`: `º` and `ª` are lower case. */
  lemma OrdinalNotUpper(s: string, i: nat)
    requires i < |s| && (s[i] == 'º' || s[i] == 'ª')
    ensures !IsUpperText(s)
  {
    assert IsLower(s[i]);
  }

  /** Some stopword occurs in the lower-cased text. */
  predicate HasBoilerplate(s: string) {
    exists sw | sw in Stopwords :: Contains(Lower(s), sw)
  }

  /** `len([w for w in tokens if w and w[0].isupper()])`. */
  function CapitalizedCount(tokens: seq<string>): nat
    decreases |tokens|
  {
    if tokens == [] then 0
    else (if |tokens[0]| > 0 && IsUpper(tokens[0][0]) then 1 else 0) + CapitalizedCount(tokens[1..])
  }

  /** A count of two or more means two distinct tokens start with an
      upper-case letter. */
  lemma {:induction false} CapitalizedCountWitness(tokens: seq<string>)
    requires CapitalizedCount(tokens) >= 2
    ensures exists j, k :: (0 <= j < k < |tokens| && |tokens[j]| > 0 && |tokens[k]| > 0
      && IsUpper(tokens[j][0]) && IsUpper(tokens[k][0]))
    decreases |tokens|
  {
    var rest := tokens[1..];
    if |tokens[0]| > 0 && IsUpper(tokens[0][0]) {
      var k := CapitalizedIndex(rest);
      assert tokens[k + 1] == rest[k];
    } else {
      CapitalizedCountWitness(rest);
      var j, k :| 0 <= j < k < |rest| && |rest[j]| > 0 && |rest[k]| > 0
        && IsUpper(rest[j][0]) && IsUpper(rest[k][0]);
      assert tokens[j + 1] == rest[j] && tokens[k + 1] == rest[k];
    }
  }

  /** A positive count has a capitalised token to show for it. */
  lemma {:induction false} CapitalizedIndex(tokens: seq<string>) returns (k: nat)
    requires CapitalizedCount(tokens) >= 1
    ensures k < |tokens| && |tokens[k]| > 0 && IsUpper(tokens[k][0])
    decreases |tokens|
  {
    if |tokens[0]| > 0 && IsUpper(tokens[0][0]) {
      k := 0;
    } else {
      k := CapitalizedIndex(tokens[1..]);
      assert tokens[k + 1] == tokens[1..][k];
      k := k + 1;
    }
  }

  /** The anti-noise rules an entity text must pass under its label. */
  predicate NoiseFree(text: string, tag: string) {
    && |text| >= 3
    && !HasDigit(text)
    && !IsUpperText(text)
    && !HasBoilerplate(text)
    && (tag in PersonLabels ==> CapitalizedCount(Words(text)) >= 2)
  }

  /** The body of the filter loop for one entity: the entity it would
      append if its text had not been seen, or `None` when a rule rejects
      it. */
  function Candidate(e: RawEntity): (r: Option<Entity>)
    ensures r.Some? <==>
      Upper(e.tag) in KeptLabels && NoiseFree(NormalizeEntityText(e.text), Upper(e.tag))
    ensures r.Some? ==> r.value == Entity(NormalizeEntityText(e.text), Upper(e.tag))
  {
    var tag := Upper(e.tag);
    if tag !in KeptLabels then None
    else
      var t := NormalizeEntityText(e.text);
      if t == "" then None
      else if HasDigit(t) then None
      else if IsUpperText(t) then None
      else if HasBoilerplate(t) then None
      else if |t| < 3 then None
      else if tag in PersonLabels && CapitalizedCount(Words(t)) < 2 then None
      else Some(Entity(t, tag))
  }

  /** The `Some` results of `f` over `xs`, in order. */
  function FilterMap<A, B>(f: A -> Option<B>, xs: seq<A>): seq<B>
    decreases |xs|
  {
    if xs == [] then []
    else
      match f(xs[0])
      case None => FilterMap(f, xs[1..])
      case Some(y) => [y] + FilterMap(f, xs[1..])
  }

  /** The entities that pass the label and noise rules, in input order. */
  function Candidates(ents: seq<RawEntity>): seq<Entity> {
    FilterMap(Candidate, ents)
  }

  /** The entities of `cs` whose text is neither in `seen` nor taken by an
      earlier entity of `cs`. */
  function DedupFrom(cs: seq<Entity>, seen: set<string>): seq<Entity>
    decreases |cs|
  {
    if cs == [] then []
    else if cs[0].text in seen then DedupFrom(cs[1..], seen)
    else [cs[0]] + DedupFrom(cs[1..], seen + {cs[0].text})
  }

  /** `extract_spacy_entities` over the recogniser's output. */
  function ExtractEntities(ents: seq<RawEntity>): seq<Entity> {
    DedupFrom(Candidates(ents), {})
  }

  /** Some entity of `cs` has text `t`. */
  predicate HasText(cs: seq<Entity>, t: string) {
    exists i :: 0 <= i < |cs| && cs[i].text == t
  }

  /** The position of the first entity of `cs` with text `t`. */
  function FirstIndex(cs: seq<Entity>, t: string): (i: nat)
    requires HasText(cs, t)
    ensures i < |cs| && cs[i].text == t
    ensures forall j :: 0 <= j < i ==> cs[j].text != t
    decreases |cs|
  {
    if cs[0].text == t then 0
    else
      var j :| 0 <= j < |cs| && cs[j].text == t;
      assert cs[1..][j - 1].text == t;
      1 + FirstIndex(cs[1..], t)
  }

  /** Some input entity becomes `c` under the filter. */
  predicate ComesFrom(ents: seq<RawEntity>, c: Entity) {
    exists i :: 0 <= i < |ents| && Candidate(ents[i]) == Some(c)
  }

  /** Every candidate is what the filter makes of some input entity, and
      every input entity that passes the filter is a candidate. */
  lemma CandidatesFromInput(ents: seq<RawEntity>)
    ensures forall k :: 0 <= k < |Candidates(ents)| ==> ComesFrom(ents, Candidates(ents)[k])
    ensures forall i :: 0 <= i < |ents| && Candidate(ents[i]).Some? ==>
      Candidate(ents[i]).value in Candidates(ents)
  {
    forall k | 0 <= k < |Candidates(ents)|
      ensures ComesFrom(ents, Candidates(ents)[k])
    {
      var i := FilterMapSource(Candidate, ents, k);
    }
    forall i | 0 <= i < |ents| && Candidate(ents[i]).Some?
      ensures Candidate(ents[i]).value in Candidates(ents)
    {
      var k := FilterMapPosition(Candidate, ents, i);
    }
  }

  /** The element of `xs` that the `k`-th result comes from: the one with
      exactly `k` kept elements before it. */
  lemma {:induction false} FilterMapSource<A, B>(f: A -> Option<B>, xs: seq<A>, k: nat) returns (i: nat)
    requires k < |FilterMap(f, xs)|
    ensures i < |xs| && f(xs[i]) == Some(FilterMap(f, xs)[k])
    ensures |FilterMap(f, xs[..i])| == k
    decreases |xs|
  {
    if f(xs[0]).Some? && k == 0 {
      i := 0;
      assert xs[..0] == [];
    } else {
      var j := FilterMapSource(f, xs[1..], if f(xs[0]).Some? then k - 1 else k);
      i := j + 1;
      assert xs[i] == xs[1..][j];
      FilterMapPrefixCons(f, xs, j);
    }
  }

  /** The position among the results of an element `f` maps to `Some`: the
      number of kept elements before it. */
  lemma {:induction false} FilterMapPosition<A, B>(f: A -> Option<B>, xs: seq<A>, i: nat) returns (k: nat)
    requires i < |xs| && f(xs[i]).Some?
    ensures k < |FilterMap(f, xs)| && FilterMap(f, xs)[k] == f(xs[i]).value
    ensures k == |FilterMap(f, xs[..i])|
    decreases |xs|
  {
    if i == 0 {
      k := 0;
      assert xs[..0] == [];
    } else {
      assert xs[i] == xs[1..][i - 1];
      var j := FilterMapPosition(f, xs[1..], i - 1);
      k := if f(xs[0]).Some? then j + 1 else j;
      FilterMapPrefixCons(f, xs, i - 1);
    }
  }

  /** `FilterMap` over a prefix of length `j + 1`, one step unfolded. */
  lemma FilterMapPrefixCons<A, B>(f: A -> Option<B>, xs: seq<A>, j: nat)
    requires j < |xs|
    ensures |FilterMap(f, xs[..j + 1])|
      == (if f(xs[0]).Some? then 1 else 0) + |FilterMap(f, xs[1..][..j])|
  {
    var p := xs[..j + 1];
    assert p[0] == xs[0];
    assert p[1..] == xs[1..][..j];
  }

  /** The results keep the order of the elements they come from: an earlier
      kept element gives an earlier result. */
  lemma {:induction false} FilterMapOrder<A, B>(f: A -> Option<B>, xs: seq<A>, i: nat, j: nat)
    requires i < j < |xs| && f(xs[i]).Some?
    ensures |FilterMap(f, xs[..i])| < |FilterMap(f, xs[..j])|
    decreases j - i
  {
    FilterMapAppendOne(f, xs, i);
    if i + 1 < j {
      FilterMapMono(f, xs, i + 1, j);
    }
  }

  /** Extending the prefix by one element adds its result, if any. */
  lemma FilterMapAppendOne<A, B>(f: A -> Option<B>, xs: seq<A>, i: nat)
    requires i < |xs|
    ensures |FilterMap(f, xs[..i + 1])| == |FilterMap(f, xs[..i])| + (if f(xs[i]).Some? then 1 else 0)
  {
    FilterMapConcat(f, xs[..i], [xs[i]]);
    assert xs[..i + 1] == xs[..i] + [xs[i]];
    assert [xs[i]][1..] == [];
  }

  /** A longer prefix never has fewer results. */
  lemma {:induction false} FilterMapMono<A, B>(f: A -> Option<B>, xs: seq<A>, i: nat, j: nat)
    requires i <= j <= |xs|
    ensures |FilterMap(f, xs[..i])| <= |FilterMap(f, xs[..j])|
    decreases j - i
  {
    if i < j {
      FilterMapAppendOne(f, xs, i);
      FilterMapMono(f, xs, i + 1, j);
    }
  }

  /** `FilterMap` of a concatenation. */
  lemma {:induction false} FilterMapConcat<A, B>(f: A -> Option<B>, a: seq<A>, b: seq<A>)
    ensures FilterMap(f, a + b) == FilterMap(f, a) + FilterMap(f, b)
    decreases |a|
  {
    if a == [] {
      assert a + b == b;
    } else {
      assert (a + b)[0] == a[0];
      assert (a + b)[1..] == a[1..] + b;
      FilterMapConcat(f, a[1..], b);
    }
  }

  /** Every kept entity comes from `cs` and has a text outside `seen`. */
  lemma {:induction false} DedupMembers(cs: seq<Entity>, seen: set<string>)
    ensures forall k :: 0 <= k < |DedupFrom(cs, seen)| ==>
      DedupFrom(cs, seen)[k] in cs && DedupFrom(cs, seen)[k].text !in seen
    decreases |cs|
  {
    if cs != [] {
      if cs[0].text in seen {
        DedupMembers(cs[1..], seen);
      } else {
        DedupMembers(cs[1..], seen + {cs[0].text});
      }
    }
  }

  /** The kept texts are pairwise distinct. */
  lemma {:induction false} DedupDistinct(cs: seq<Entity>, seen: set<string>)
    ensures forall k, l :: 0 <= k < l < |DedupFrom(cs, seen)| ==>
      DedupFrom(cs, seen)[k].text != DedupFrom(cs, seen)[l].text
    decreases |cs|
  {
    if cs != [] {
      var out := DedupFrom(cs, seen);
      if cs[0].text in seen {
        assert out == DedupFrom(cs[1..], seen);
        DedupDistinct(cs[1..], seen);
      } else {
        var seen' := seen + {cs[0].text};
        var rest := DedupFrom(cs[1..], seen');
        DedupDistinct(cs[1..], seen');
        DedupMembers(cs[1..], seen');
        assert out == [cs[0]] + rest;
        forall k, l | 0 <= k < l < |out|
          ensures out[k].text != out[l].text
        {
          assert out[l] == rest[l - 1];
          assert rest[l - 1].text !in seen';
          if k > 0 {
            assert out[k] == rest[k - 1];
          }
        }
      }
    }
  }

  /** No text is lost: every entity of `cs` whose text is outside `seen` has
      its text among the kept entities. */
  lemma {:induction false} DedupComplete(cs: seq<Entity>, seen: set<string>)
    ensures forall i :: 0 <= i < |cs| && cs[i].text !in seen ==>
      HasText(DedupFrom(cs, seen), cs[i].text)
  {
    forall i | 0 <= i < |cs| && cs[i].text !in seen
      ensures HasText(DedupFrom(cs, seen), cs[i].text)
    {
      var k := DedupCompleteAt(cs, seen, i);
    }
  }

  /** One position of `DedupComplete`, with an explicit witness. */
  lemma {:induction false} DedupCompleteAt(cs: seq<Entity>, seen: set<string>, i: nat) returns (k: nat)
    requires i < |cs| && cs[i].text !in seen
    ensures k < |DedupFrom(cs, seen)| && DedupFrom(cs, seen)[k].text == cs[i].text
    decreases |cs|
  {
    if cs[0].text in seen {
      k := DedupCompleteAt(cs[1..], seen, i - 1);
    } else if i == 0 {
      k := 0;
    } else if cs[i].text == cs[0].text {
      k := 0;
    } else {
      var j := DedupCompleteAt(cs[1..], seen + {cs[0].text}, i - 1);
      k := j + 1;
    }
  }

  /** Each kept entity is the first entity of `cs` with its text, label
      included. */
  lemma {:induction false} DedupKeepsFirst(cs: seq<Entity>, seen: set<string>)
    ensures forall k :: 0 <= k < |DedupFrom(cs, seen)| ==>
      HasText(cs, DedupFrom(cs, seen)[k].text)
      && DedupFrom(cs, seen)[k] == cs[FirstIndex(cs, DedupFrom(cs, seen)[k].text)]
    decreases |cs|
  {
    if cs != [] {
      var out := DedupFrom(cs, seen);
      if cs[0].text in seen {
        var rest := DedupFrom(cs[1..], seen);
        assert out == rest;
        DedupKeepsFirst(cs[1..], seen);
        DedupMembers(cs[1..], seen);
        forall k | 0 <= k < |out|
          ensures HasText(cs, out[k].text) && out[k] == cs[FirstIndex(cs, out[k].text)]
        {
          var t := rest[k].text;
          assert t !in seen;
          assert HasText(cs[1..], t) && rest[k] == cs[1..][FirstIndex(cs[1..], t)];
          ShiftFirstIndex(cs, t);
        }
      } else {
        var seen' := seen + {cs[0].text};
        var rest := DedupFrom(cs[1..], seen');
        DedupKeepsFirst(cs[1..], seen');
        DedupMembers(cs[1..], seen');
        assert out == [cs[0]] + rest;
        forall k | 0 <= k < |out|
          ensures HasText(cs, out[k].text) && out[k] == cs[FirstIndex(cs, out[k].text)]
        {
          if k == 0 {
            assert cs[0].text == out[0].text;
          } else {
            var t := rest[k - 1].text;
            assert out[k] == rest[k - 1];
            assert t !in seen';
            assert HasText(cs[1..], t) && rest[k - 1] == cs[1..][FirstIndex(cs[1..], t)];
            ShiftFirstIndex(cs, t);
          }
        }
      }
    }
  }

  /** A text other than the first entity's has its first occurrence one
      position further in `cs` than in `cs[1..]`. */
  lemma ShiftFirstIndex(cs: seq<Entity>, t: string)
    requires |cs| > 0 && cs[0].text != t && HasText(cs[1..], t)
    ensures HasText(cs, t)
    ensures FirstIndex(cs, t) == 1 + FirstIndex(cs[1..], t)
    ensures cs[FirstIndex(cs, t)] == cs[1..][FirstIndex(cs[1..], t)]
  {
    var j := FirstIndex(cs[1..], t);
    assert cs[j + 1] == cs[1..][j];
  }

  /** Texts `a` and `b` both occur in `cs`, `a` first. */
  predicate FirstBefore(cs: seq<Entity>, a: string, b: string) {
    HasText(cs, a) && HasText(cs, b) && FirstIndex(cs, a) < FirstIndex(cs, b)
  }

  /** The kept entities appear in the order of their first occurrences. */
  lemma DedupOrdered(cs: seq<Entity>, seen: set<string>)
    ensures forall k, l :: 0 <= k < l < |DedupFrom(cs, seen)| ==>
      FirstBefore(cs, DedupFrom(cs, seen)[k].text, DedupFrom(cs, seen)[l].text)
  {
    forall k, l | 0 <= k < l < |DedupFrom(cs, seen)|
      ensures FirstBefore(cs, DedupFrom(cs, seen)[k].text, DedupFrom(cs, seen)[l].text)
    {
      DedupOrderedAt(cs, seen, k, l);
    }
  }

  /** One pair of positions of `DedupOrdered`. */
  lemma {:induction false} DedupOrderedAt(cs: seq<Entity>, seen: set<string>, k: nat, l: nat)
    requires k < l < |DedupFrom(cs, seen)|
    ensures FirstBefore(cs, DedupFrom(cs, seen)[k].text, DedupFrom(cs, seen)[l].text)
    decreases |cs|, 1
  {
    if cs[0].text in seen {
      DedupSkipOrdered(cs, seen, k, l);
    } else {
      DedupKeepOrdered(cs, seen, k, l);
    }
  }

  lemma {:induction false} DedupSkipOrdered(cs: seq<Entity>, seen: set<string>, k: nat, l: nat)
    requires k < l < |DedupFrom(cs, seen)| && cs[0].text in seen
    ensures FirstBefore(cs, DedupFrom(cs, seen)[k].text, DedupFrom(cs, seen)[l].text)
    decreases |cs|, 0
  {
    var rest := DedupFrom(cs[1..], seen);
    assert DedupFrom(cs, seen) == rest;
    DedupOrderedAt(cs[1..], seen, k, l);
    DedupMemberAt(cs[1..], seen, k);
    DedupMemberAt(cs[1..], seen, l);
    FirstBeforeShift(cs, rest[k].text, rest[l].text);
  }

  lemma {:induction false} DedupKeepOrdered(cs: seq<Entity>, seen: set<string>, k: nat, l: nat)
    requires k < l < |DedupFrom(cs, seen)| && cs != [] && cs[0].text !in seen
    ensures FirstBefore(cs, DedupFrom(cs, seen)[k].text, DedupFrom(cs, seen)[l].text)
    decreases |cs|, 0
  {
    var seen' := seen + {cs[0].text};
    var rest := DedupFrom(cs[1..], seen');
    var out := DedupFrom(cs, seen);
    assert out == [cs[0]] + rest;
    assert out[l] == rest[l - 1];
    DedupMemberAt(cs[1..], seen', l - 1);
    if k == 0 {
      assert out[0] == cs[0];
      FirstBeforeHead(cs, rest[l - 1].text);
    } else {
      assert out[k] == rest[k - 1];
      DedupMemberAt(cs[1..], seen', k - 1);
      DedupOrderedAt(cs[1..], seen', k - 1, l - 1);
      var a, b := rest[k - 1].text, rest[l - 1].text;
      assert FirstBefore(cs[1..], a, b);
      assert cs[0].text != a && cs[0].text != b;
      FirstBeforeShift(cs, a, b);
    }
  }

  /** One position of `DedupMembers`, as a text of `cs` outside `seen`. */
  lemma DedupMemberAt(cs: seq<Entity>, seen: set<string>, k: nat)
    requires k < |DedupFrom(cs, seen)|
    ensures HasText(cs, DedupFrom(cs, seen)[k].text) && DedupFrom(cs, seen)[k].text !in seen
  {
    DedupMembers(cs, seen);
    var j :| 0 <= j < |cs| && cs[j] == DedupFrom(cs, seen)[k];
  }

  /** Prepending an entity with another text keeps the order of two texts. */
  lemma FirstBeforeShift(cs: seq<Entity>, a: string, b: string)
    requires |cs| > 0 && cs[0].text != a && cs[0].text != b
    requires FirstBefore(cs[1..], a, b)
    ensures FirstBefore(cs, a, b)
  {
    ShiftFirstIndex(cs, a);
    ShiftFirstIndex(cs, b);
  }

  /** The first entity's text comes before every other text of `cs`. */
  lemma FirstBeforeHead(cs: seq<Entity>, b: string)
    requires |cs| > 0 && cs[0].text != b
    requires HasText(cs[1..], b)
    ensures FirstBefore(cs, cs[0].text, b)
  {
    ShiftFirstIndex(cs, b);
  }

  /** What `extract_spacy_entities` returns, stated without the recursion:
      every entity comes from an input entity that passes the filter, so it
      carries a kept label and a noise-free text; the texts are pairwise
      distinct; and no input entity that passes the filter is lost. */
  lemma ExtractEntitiesSpec(ents: seq<RawEntity>)
    ensures forall k :: 0 <= k < |ExtractEntities(ents)| ==> ComesFrom(ents, ExtractEntities(ents)[k])
    ensures forall k :: 0 <= k < |ExtractEntities(ents)| ==>
      ExtractEntities(ents)[k].tag in KeptLabels
      && NoiseFree(ExtractEntities(ents)[k].text, ExtractEntities(ents)[k].tag)
    ensures forall k, l :: 0 <= k < l < |ExtractEntities(ents)| ==>
      ExtractEntities(ents)[k].text != ExtractEntities(ents)[l].text
    ensures forall i :: 0 <= i < |ents| && Candidate(ents[i]).Some? ==>
      HasText(ExtractEntities(ents), Candidate(ents[i]).value.text)
  {
    ExtractedFromInput(ents);
    forall k | 0 <= k < |ExtractEntities(ents)|
      ensures ExtractEntities(ents)[k].tag in KeptLabels
      ensures NoiseFree(ExtractEntities(ents)[k].text, ExtractEntities(ents)[k].tag)
    {
      PassesFilter(ents, ExtractEntities(ents)[k]);
    }
    DedupDistinct(Candidates(ents), {});
    ExtractedComplete(ents);
  }

  /** Every extracted entity is what the filter makes of an input entity. */
  lemma ExtractedFromInput(ents: seq<RawEntity>)
    ensures forall k :: 0 <= k < |ExtractEntities(ents)| ==> ComesFrom(ents, ExtractEntities(ents)[k])
  {
    var cs := Candidates(ents);
    var out := ExtractEntities(ents);
    CandidatesFromInput(ents);
    DedupMembers(cs, {});
    forall k | 0 <= k < |out|
      ensures ComesFrom(ents, out[k])
    {
      var j :| 0 <= j < |cs| && cs[j] == out[k];
    }
  }

  /** What the filter makes of an input entity carries a kept label and a
      noise-free text. */
  lemma PassesFilter(ents: seq<RawEntity>, c: Entity)
    requires ComesFrom(ents, c)
    ensures c.tag in KeptLabels && NoiseFree(c.text, c.tag)
  {
    var i :| 0 <= i < |ents| && Candidate(ents[i]) == Some(c);
  }

  /** No input entity that passes the filter loses its text. */
  lemma ExtractedComplete(ents: seq<RawEntity>)
    ensures forall i :: 0 <= i < |ents| && Candidate(ents[i]).Some? ==>
      HasText(ExtractEntities(ents), Candidate(ents[i]).value.text)
  {
    var cs := Candidates(ents);
    DedupComplete(cs, {});
    forall i | 0 <= i < |ents| && Candidate(ents[i]).Some?
      ensures HasText(ExtractEntities(ents), Candidate(ents[i]).value.text)
    {
      var k := FilterMapPosition(Candidate, ents, i);
    }
  }

  /** One step of `FilterMap`. */
  lemma FilterMapCons<A, B>(f: A -> Option<B>, xs: seq<A>)
    requires xs != []
    ensures FilterMap(f, xs) == (if f(xs[0]).Some? then [f(xs[0]).value] else []) + FilterMap(f, xs[1..])
  {
  }

  /** One iteration of the loop of `extract_spacy_entities`, on the
      functional side, for any filter `f`. */
  lemma ExtractStep<A>(f: A -> Option<Entity>, xs: seq<A>, i: nat, seen: set<string>)
    requires i < |xs|
    ensures f(xs[i]).None? ==>
      DedupFrom(FilterMap(f, xs[i..]), seen) == DedupFrom(FilterMap(f, xs[i + 1..]), seen)
    ensures f(xs[i]).Some? && f(xs[i]).value.text in seen ==>
      DedupFrom(FilterMap(f, xs[i..]), seen) == DedupFrom(FilterMap(f, xs[i + 1..]), seen)
    ensures f(xs[i]).Some? && f(xs[i]).value.text !in seen ==>
      DedupFrom(FilterMap(f, xs[i..]), seen)
      == [f(xs[i]).value] + DedupFrom(FilterMap(f, xs[i + 1..]), seen + {f(xs[i]).value.text})
  {
    assert xs[i..][1..] == xs[i + 1..];
    FilterMapCons(f, xs[i..]);
  }

  /** The loop of `extract_spacy_entities`: one pass over the recognised
      entities with a set of texts already taken. */
  method ExtractSpacyEntities(ents: seq<RawEntity>) returns (entities: seq<Entity>)
    ensures entities == ExtractEntities(ents)
  {
    entities := FilterDedupLoop(Candidate, ents);
  }

  /** The loop itself, for any per-entity filter `f`: apply `f`, and append
      what it keeps unless its text was already taken. */
  method FilterDedupLoop<A>(f: A -> Option<Entity>, xs: seq<A>) returns (out: seq<Entity>)
    ensures out == DedupFrom(FilterMap(f, xs), {})
  {
    var seen: set<string> := {};
    out := [];
    var i := 0;
    ghost var target := DedupFrom(FilterMap(f, xs), {});
    assert xs[i..] == xs;
    while i < |xs|
      invariant 0 <= i <= |xs|
      invariant out + DedupFrom(FilterMap(f, xs[i..]), seen) == target
    {
      ExtractStep(f, xs, i, seen);
      var candidate := f(xs[i]);
      if candidate.Some? && candidate.value.text !in seen {
        ghost var later := DedupFrom(FilterMap(f, xs[i + 1..]), seen + {candidate.value.text});
        assert out + [candidate.value] + later == out + ([candidate.value] + later);
        seen := seen + {candidate.value.text};
        out := out + [candidate.value];
      }
      i := i + 1;
    }
    assert xs[i..] == [];
  }
}
