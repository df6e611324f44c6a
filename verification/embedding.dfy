/** The keyword embedder (`DummyEmbedding`): a text is lower-cased and looked
    up in an ordered keyword table, first by whole phrase, then by any
    space-separated part of a phrase; the first hit's vector is the
    embedding, and a text with no hit embeds to the zero vector. */
module Embedding {

  import opened Reals
  import opened Text
  import opened Wrappers
  import opened Similarity

  /** Length of every embedding. */
  const Dim: nat := 64

  /** A vector of length `Dim` that repeats `a, b, c` by position modulo 3:
      it starts with `a, b, c` and has period 3. */
  function GenerateVector(a: real, b: real, c: real): (v: Vector)
    ensures |v| == Dim
    ensures v[0] == a && v[1] == b && v[2] == c
    ensures forall i :: 0 <= i < Dim - 3 ==> v[i + 3] == v[i]
  {
    seq(Dim, i requires 0 <= i < Dim => if i % 3 == 0 then a else if i % 3 == 1 then b else c)
  }

  /** Adding position `m` to `[0, m)` adds one to the count of its residue
      class and leaves the other two counts alone. */
  lemma ResidueStep(m: nat)
    ensures m % 3 == 0 ==> (m + 3) / 3 == (m + 2) / 3 + 1 && (m + 2) / 3 == (m + 1) / 3 && (m + 1) / 3 == m / 3
    ensures m % 3 == 1 ==> (m + 3) / 3 == (m + 2) / 3 && (m + 2) / 3 == (m + 1) / 3 + 1 && (m + 1) / 3 == m / 3
    ensures m % 3 == 2 ==> (m + 3) / 3 == (m + 2) / 3 && (m + 2) / 3 == (m + 1) / 3 && (m + 1) / 3 == m / 3 + 1
  {
  }

  /** One more position of a residue class adds its product once. */
  lemma CountStep(k: nat, x: real)
    ensures Mul((k + 1) as real, x) == Mul(k as real, x) + x
  {
    Distribute(x, k as real, 1.0);
    MulOne(x);
  }

  /** Dot product of generated prefixes: position `k < n` contributes its
      residue class, and `[0, n)` holds `(n+2)/3`, `(n+1)/3` and `n/3`
      positions of residue 0, 1 and 2. */
  lemma {:induction false} GeneratedDotPrefix(a: real, b: real, c: real, a': real, b': real, c': real, n: nat)
    requires n <= Dim
    ensures Dot(GenerateVector(a, b, c)[..n], GenerateVector(a', b', c')[..n])
         == Mul(((n + 2) / 3) as real, Mul(a, a'))
          + Mul(((n + 1) / 3) as real, Mul(b, b'))
          + Mul((n / 3) as real, Mul(c, c'))
    decreases n
  {
    if n > 0 {
      var u, v := GenerateVector(a, b, c), GenerateVector(a', b', c');
      var m := n - 1;
      GeneratedDotPrefix(a, b, c, a', b', c', m);
      assert u[..n][..m] == u[..m];
      assert v[..n][..m] == v[..m];
      assert Dot(u[..n], v[..n]) == Dot(u[..m], v[..m]) + Mul(u[m], v[m]);
      ResidueStep(m);
      if m % 3 == 0 {
        assert u[m] == a && v[m] == a';
        CountStep((m + 2) / 3, Mul(a, a'));
      } else if m % 3 == 1 {
        assert u[m] == b && v[m] == b';
        CountStep((m + 1) / 3, Mul(b, b'));
      } else {
        assert u[m] == c && v[m] == c';
        CountStep(m / 3, Mul(c, c'));
      }
    } else {
      MulZero(Mul(a, a'));
      MulZero(Mul(b, b'));
      MulZero(Mul(c, c'));
    }
  }

  /** Over all 64 positions the residue classes hold 22, 21 and 21 positions. */
  lemma GeneratedDot(a: real, b: real, c: real, a': real, b': real, c': real)
    ensures Dot(GenerateVector(a, b, c), GenerateVector(a', b', c'))
         == 22.0 * Mul(a, a') + 21.0 * Mul(b, b') + 21.0 * Mul(c, c')
  {
    GeneratedDotPrefix(a, b, c, a', b', c', Dim);
    assert (Dim + 2) / 3 == 22 && (Dim + 1) / 3 == 21 && Dim / 3 == 21;
    assert GenerateVector(a, b, c)[..Dim] == GenerateVector(a, b, c);
    assert GenerateVector(a', b', c')[..Dim] == GenerateVector(a', b', c');
  }

  /** A keyword phrase and the vector it stands for. */
  datatype Keyword = Keyword(phrase: string, vector: Vector)

  const EfCoreVector: Vector := GenerateVector(1.0, 0.0, 0.0)
  const AuthenticationVector: Vector := GenerateVector(0.0, 1.0, 0.0)
  const PerformanceVector: Vector := GenerateVector(0.0, 0.0, 1.0)

  /** The keyword table, in the order the lookup passes visit it. */
  const KeywordVectors: seq<Keyword> := [
    Keyword("ef core", EfCoreVector),
    Keyword("authentication", AuthenticationVector),
    Keyword("performance", PerformanceVector)
  ]

  /** The three keyword vectors are different and none is the zero vector;
      the first three entries tell them apart. */
  lemma KeywordVectorsDiffer()
    ensures EfCoreVector != AuthenticationVector
    ensures EfCoreVector != PerformanceVector
    ensures AuthenticationVector != PerformanceVector
    ensures EfCoreVector != Zero(Dim) && AuthenticationVector != Zero(Dim) && PerformanceVector != Zero(Dim)
  {
    assert EfCoreVector[0] == 1.0 && AuthenticationVector[0] == 0.0 && PerformanceVector[0] == 0.0;
    assert AuthenticationVector[1] == 1.0 && PerformanceVector[1] == 0.0 && Zero(Dim)[1] == 0.0;
    assert PerformanceVector[2] == 1.0 && Zero(Dim)[2] == 0.0;
  }

  /** The table holds "ef core", "authentication" and "performance", in that
      order, three different phrases, each with its own vector of 64 entries
      (that these vectors differ is `KeywordVectorsDiffer`). */
  lemma KeywordTable()
    ensures |KeywordVectors| == 3
    ensures KeywordVectors[0] == Keyword("ef core", EfCoreVector)
    ensures KeywordVectors[1] == Keyword("authentication", AuthenticationVector)
    ensures KeywordVectors[2] == Keyword("performance", PerformanceVector)
    ensures forall k :: 0 <= k < 3 ==> |KeywordVectors[k].vector| == Dim
    ensures forall j, k :: 0 <= j < k < 3 ==> KeywordVectors[j].phrase != KeywordVectors[k].phrase
  {
  }

  /** The two lookup passes: whole phrase, then any space-separated part. */
  datatype Pass = WholePhrase | AnyPart

  /** True when some part occurs in the text (`parts.Any(text.Contains)`). */
  function AnyPartIn(parts: seq<string>, text: string): (r: bool)
    ensures r <==> exists k :: 0 <= k < |parts| && Contains(text, parts[k])
    decreases |parts|
  {
    if |parts| == 0 then false
    else Contains(text, parts[0]) || AnyPartIn(parts[1..], text)
  }

  /** The test of one pass against one keyword of the table. */
  predicate Hit(text: string, key: Keyword, pass: Pass)
  {
    match pass
    case WholePhrase => Contains(text, key.phrase)
    case AnyPart => AnyPartIn(Split(key.phrase, ' '), text)
  }

  /** `i` is the first entry of the table that the pass hits. */
  ghost predicate IsFirst(table: seq<Keyword>, text: string, pass: Pass, i: int)
  {
    && 0 <= i < |table|
    && Hit(text, table[i], pass)
    && forall j :: 0 <= j < i ==> !Hit(text, table[j], pass)
  }

  /** The pass hits no entry of the table. */
  ghost predicate NoHit(table: seq<Keyword>, text: string, pass: Pass)
  {
    forall j :: 0 <= j < |table| ==> !Hit(text, table[j], pass)
  }

  /** One pass of the lookup, from entry `from` on: the index of the first
      entry hit, or nothing when no remaining entry is hit. */
  function FirstHit(table: seq<Keyword>, text: string, pass: Pass, from: nat): (r: Option<nat>)
    ensures r.Some? ==> from <= r.value < |table| && Hit(text, table[r.value], pass)
    ensures r.Some? ==> forall j :: from <= j < r.value ==> !Hit(text, table[j], pass)
    ensures r.None? <==> forall j :: from <= j < |table| ==> !Hit(text, table[j], pass)
    decreases |table| - from
  {
    if from >= |table| then None
    else if Hit(text, table[from], pass) then Some(from)
    else FirstHit(table, text, pass, from + 1)
  }

  /** Which entry, if any, a text resolves to. */
  datatype Match = Phrase(index: nat) | Part(index: nat) | NoKeyword

  /** The two passes over the lower-cased text: a whole-phrase hit anywhere in
      the table wins over any part hit, each pass takes its first hit, and
      there is no match exactly when neither pass hits. */
  function Lookup(table: seq<Keyword>, text: string): (m: Match)
    ensures m.Phrase? <==> !NoHit(table, Lower(text), WholePhrase)
    ensures m.Phrase? ==> IsFirst(table, Lower(text), WholePhrase, m.index)
    ensures m.Part? ==> NoHit(table, Lower(text), WholePhrase)
    ensures m.Part? ==> IsFirst(table, Lower(text), AnyPart, m.index)
    ensures m.NoKeyword? <==> NoHit(table, Lower(text), WholePhrase) && NoHit(table, Lower(text), AnyPart)
  {
    var normalized := Lower(text);
    match FirstHit(table, normalized, WholePhrase, 0)
    case Some(i) => Phrase(i)
    case None =>
      match FirstHit(table, normalized, AnyPart, 0)
      case Some(i) => Part(i)
      case None => NoKeyword
  }

  /** The embedding of a text against a table: the vector of the first
      whole-phrase hit, else of the first part hit, else 64 zeros. */
  function EmbedWith(table: seq<Keyword>, text: string): (v: Vector)
    ensures forall i :: IsFirst(table, Lower(text), WholePhrase, i) ==> v == table[i].vector
    ensures NoHit(table, Lower(text), WholePhrase) ==>
              forall i :: IsFirst(table, Lower(text), AnyPart, i) ==> v == table[i].vector
    ensures NoHit(table, Lower(text), WholePhrase) && NoHit(table, Lower(text), AnyPart) ==> v == Zero(Dim)
    ensures (forall k :: 0 <= k < |table| ==> |table[k].vector| == Dim) ==> |v| == Dim
  {
    match Lookup(table, text)
    case Phrase(i) => table[i].vector
    case Part(i) => table[i].vector
    case NoKeyword => Zero(Dim)
  }

  /** `DummyEmbedding.GetEmbeddingAsync`. */
  function Embed(text: string): (v: Vector)
    ensures |v| == Dim
  {
    EmbedWith(KeywordVectors, text)
  }

  /** The embedding ignores ASCII case: a text and its lower-cased form embed
      alike. */
  lemma EmbedIgnoresCase(text: string)
    ensures Embed(Lower(text)) == Embed(text)
  {
    LowerIdempotent(text);
  }

  /** Every embedding is one of the table's vectors or the zero vector. */
  lemma EmbedRange(text: string)
    ensures Embed(text) in {EfCoreVector, AuthenticationVector, PerformanceVector, Zero(Dim)}
  {
  }

  /** The parts the second pass tries for each phrase of the table. */
  lemma KeywordParts()
    ensures Split("ef core", ' ') == ["ef", "core"]
    ensures Split("authentication", ' ') == ["authentication"]
    ensures Split("performance", ' ') == ["performance"]
  {
    assert Join(["ef", "core"], ' ') == "ef core";
    SplitJoin(["ef", "core"], ' ');
    SplitFree("authentication", ' ');
    SplitFree("performance", ' ');
  }

  /** The part test of a phrase with parts `[p]` or `[p, q]`. */
  lemma AnyPartInSmall(n: string, p: string, q: string)
    ensures AnyPartIn([p], n) == Contains(n, p)
    ensures AnyPartIn([p, q], n) == (Contains(n, p) || Contains(n, q))
  {
    assert [p][1..] == [];
    assert [p, q][1..] == [q];
  }

  /** The hits of both passes against the table, stated on the text itself. */
  lemma TableHits(n: string)
    ensures Hit(n, KeywordVectors[0], WholePhrase) == Contains(n, "ef core")
    ensures Hit(n, KeywordVectors[1], WholePhrase) == Contains(n, "authentication")
    ensures Hit(n, KeywordVectors[2], WholePhrase) == Contains(n, "performance")
    ensures Hit(n, KeywordVectors[0], AnyPart) == (Contains(n, "ef") || Contains(n, "core"))
    ensures Hit(n, KeywordVectors[1], AnyPart) == Contains(n, "authentication")
    ensures Hit(n, KeywordVectors[2], AnyPart) == Contains(n, "performance")
  {
    KeywordParts();
    AnyPartInSmall(n, "ef", "core");
    AnyPartInSmall(n, "authentication", "");
    AnyPartInSmall(n, "performance", "");
  }

  /** No phrase of the table occurs in the text. */
  predicate NoPhrase(n: string)
  {
    !Contains(n, "ef core") && !Contains(n, "authentication") && !Contains(n, "performance")
  }

  /** A text holding "ef core" embeds to its vector, whatever else it holds. */
  lemma EmbedEfCore(text: string)
    requires Contains(Lower(text), "ef core")
    ensures Embed(text) == EfCoreVector
  {
    TableHits(Lower(text));
    assert IsFirst(KeywordVectors, Lower(text), WholePhrase, 0);
  }

  /** "authentication" counts only when "ef core" is absent. */
  lemma EmbedAuthentication(text: string)
    requires !Contains(Lower(text), "ef core") && Contains(Lower(text), "authentication")
    ensures Embed(text) == AuthenticationVector
  {
    TableHits(Lower(text));
    assert IsFirst(KeywordVectors, Lower(text), WholePhrase, 1);
  }

  /** "performance" counts only when both earlier phrases are absent. */
  lemma EmbedPerformance(text: string)
    requires !Contains(Lower(text), "ef core") && !Contains(Lower(text), "authentication")
    requires Contains(Lower(text), "performance")
    ensures Embed(text) == PerformanceVector
  {
    var n := Lower(text);
    TableHits(n);
    assert FirstHit(KeywordVectors, n, WholePhrase, 2) == Some(2);
    assert FirstHit(KeywordVectors, n, WholePhrase, 1) == Some(2);
    assert FirstHit(KeywordVectors, n, WholePhrase, 0) == Some(2);
    assert Lookup(KeywordVectors, text) == Phrase(2);
  }

  /** With no whole phrase, the part "ef" or "core" selects the first entry. */
  lemma EmbedPart(text: string)
    requires NoPhrase(Lower(text))
    requires Contains(Lower(text), "ef") || Contains(Lower(text), "core")
    ensures Embed(text) == EfCoreVector
  {
    var n := Lower(text);
    TableHits(n);
    assert FirstHit(KeywordVectors, n, WholePhrase, 3) == None;
    assert FirstHit(KeywordVectors, n, WholePhrase, 2) == None;
    assert FirstHit(KeywordVectors, n, WholePhrase, 1) == None;
    assert FirstHit(KeywordVectors, n, WholePhrase, 0) == None;
    assert FirstHit(KeywordVectors, n, AnyPart, 0) == Some(0);
    assert Lookup(KeywordVectors, text) == Part(0);
  }

  /** With no phrase and no part, the embedding is the zero vector. */
  lemma EmbedNothing(text: string)
    requires NoPhrase(Lower(text))
    requires !Contains(Lower(text), "ef") && !Contains(Lower(text), "core")
    ensures Embed(text) == Zero(Dim)
  {
    var n := Lower(text);
    TableHits(n);
    assert FirstHit(KeywordVectors, n, WholePhrase, 3) == None;
    assert FirstHit(KeywordVectors, n, WholePhrase, 2) == None;
    assert FirstHit(KeywordVectors, n, WholePhrase, 1) == None;
    assert FirstHit(KeywordVectors, n, WholePhrase, 0) == None;
    assert FirstHit(KeywordVectors, n, AnyPart, 3) == None;
    assert FirstHit(KeywordVectors, n, AnyPart, 2) == None;
    assert FirstHit(KeywordVectors, n, AnyPart, 1) == None;
    assert FirstHit(KeywordVectors, n, AnyPart, 0) == None;
    assert Lookup(KeywordVectors, text) == NoKeyword;
  }

  /** The reference vectors are pairwise orthogonal with squared magnitudes
      22, 21 and 21. */
  lemma ReferenceVectors()
    ensures SumSq(EfCoreVector) == 22.0
    ensures SumSq(AuthenticationVector) == 21.0
    ensures SumSq(PerformanceVector) == 21.0
    ensures Dot(EfCoreVector, AuthenticationVector) == 0.0
    ensures Dot(EfCoreVector, PerformanceVector) == 0.0
    ensures Dot(AuthenticationVector, PerformanceVector) == 0.0
    ensures Dot(AuthenticationVector, EfCoreVector) == 0.0
    ensures Dot(PerformanceVector, EfCoreVector) == 0.0
    ensures Dot(PerformanceVector, AuthenticationVector) == 0.0
  {
    MulZero(0.0);
    MulZero(1.0);
    MulOne(1.0);
    GeneratedDot(1.0, 0.0, 0.0, 1.0, 0.0, 0.0);
    GeneratedDot(0.0, 1.0, 0.0, 0.0, 1.0, 0.0);
    GeneratedDot(0.0, 0.0, 1.0, 0.0, 0.0, 1.0);
    GeneratedDot(1.0, 0.0, 0.0, 0.0, 1.0, 0.0);
    GeneratedDot(1.0, 0.0, 0.0, 0.0, 0.0, 1.0);
    GeneratedDot(0.0, 1.0, 0.0, 0.0, 0.0, 1.0);
    GeneratedDot(0.0, 1.0, 0.0, 1.0, 0.0, 0.0);
    GeneratedDot(0.0, 0.0, 1.0, 1.0, 0.0, 0.0);
    GeneratedDot(0.0, 0.0, 1.0, 0.0, 1.0, 0.0);
  }

  /** Between embeddings, the similarity is 1 for the same keyword vector and
      0 otherwise, including whenever either side is the zero vector. */
  lemma EmbeddingSimilarity(s: string, t: string)
    ensures CosineKey(Embed(s), Embed(t))
         == if Embed(s) == Embed(t) && Embed(s) != Zero(Dim) then 1.0 else 0.0
  {
    var u, v := Embed(s), Embed(t);
    EmbedRange(s);
    EmbedRange(t);
    ReferenceVectors();
    SumSqOfZeros(Zero(Dim));
    if u == Zero(Dim) || v == Zero(Dim) {
      ZeroMagnitudeCosine(u, v);
    } else if u == v {
      SelfCosine(u);
    } else {
      assert Dot(u, v) == 0.0;
      SignedSquareSign(0.0);
    }
  }
}
