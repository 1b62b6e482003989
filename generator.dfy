/**
 * The multiple-choice generator: rank sentences by score and keep the top
 * ones, pool their entities, and for every entity with a same-kind
 * alternative build a question with up to three distractors and shuffled
 * options.
 *
 * Sentence segmentation, scoring and entity recognition come from outside
 * libraries and are inputs here; random choices are nondeterministic.
 */
module Generator {
  import opened Wrappers
  import opened Domain
  import opened PyStr

  // ---------------------------------------------------------------------------
  // Top-N selection

  /** Index `a` comes before index `b` in the ranking: a higher score, or the
      same score and an earlier position (the sort is stable). */
  predicate RanksBefore(scores: seq<int>, a: nat, b: nat)
    requires a < |scores| && b < |scores|
  {
    scores[a] > scores[b] || (scores[a] == scores[b] && a < b)
  }

  predicate Ranked(scores: seq<int>, r: seq<nat>)
  {
    && (forall k :: 0 <= k < |r| ==> r[k] < |scores|)
    && (forall i, j :: 0 <= i < j < |r| ==> RanksBefore(scores, r[i], r[j]))
  }

  /** Inserts the index `x`, greater than every index in `r`, after all
      indices whose score is at least its own. */
  function Insert(scores: seq<int>, r: seq<nat>, x: nat): (r': seq<nat>)
    requires x < |scores| && Ranked(scores, r)
    requires forall k :: 0 <= k < |r| ==> r[k] < x
    ensures Ranked(scores, r')
    ensures |r'| == |r| + 1
    ensures forall y: nat :: y in r' <==> y in r || y == x
  {
    if r == [] then [x]
    else if scores[r[0]] >= scores[x] then
      var rest := Insert(scores, r[1..], x);
      RankedCons(scores, r, x, rest);
      [r[0]] + rest
    else [x] + r
  }

  /** The head of a ranking ranks before anything ranked after it or
      inserted behind it. */
  lemma RankedCons(scores: seq<int>, r: seq<nat>, x: nat, rest: seq<nat>)
    requires x < |scores| && Ranked(scores, r) && r != []
    requires r[0] < x && scores[r[0]] >= scores[x]
    requires Ranked(scores, rest)
    requires forall y: nat :: y in rest <==> y in r[1..] || y == x
    ensures Ranked(scores, [r[0]] + rest)
  {
    forall k | 0 <= k < |rest|
      ensures RanksBefore(scores, r[0], rest[k])
    {
      assert rest[k] in rest;
      if rest[k] != x {
        var m :| 0 <= m < |r| - 1 && r[1..][m] == rest[k];
        assert r[m + 1] == rest[k];
      }
    }
    var c := [r[0]] + rest;
    forall i, j | 0 <= i < j < |c|
      ensures RanksBefore(scores, c[i], c[j])
    {
      if i > 0 {
        assert c[i] == rest[i - 1] && c[j] == rest[j - 1];
      } else {
        assert c[j] == rest[j - 1];
      }
    }
  }

  /** The indices `0 .. n - 1` sorted by descending score, ties in index order:
      `sorted(range(n), key=score, reverse=True)`. */
  function RankPrefix(scores: seq<int>, n: nat): (r: seq<nat>)
    requires n <= |scores|
    ensures Ranked(scores, r)
    ensures |r| == n
    ensures forall y: nat :: y in r <==> y < n
  {
    if n == 0 then []
    else
      var r := RankPrefix(scores, n - 1);
      assert forall k :: 0 <= k < |r| ==> r[k] in r;
      Insert(scores, r, n - 1)
  }

  /** The first `topN` indices of the ranking. */
  function TopIndices(scores: seq<int>, topN: nat): (top: seq<nat>)
    ensures |top| == Min(topN, |scores|)
    ensures Ranked(scores, top)
    ensures forall i :: 0 <= i < |scores| && i !in top ==>
              forall k :: 0 <= k < |top| ==> RanksBefore(scores, top[k], i)
  {
    var all := RankPrefix(scores, |scores|);
    var top := all[..Min(topN, |scores|)];
    assert forall i: nat :: i < |scores| && i !in top ==> i in all[|top|..] by {
      forall i: nat | i < |scores| && i !in top
        ensures i in all[|top|..]
      {
        assert i in all;
        var p :| 0 <= p < |all| && all[p] == i;
        assert all[|top|..][p - |top|] == i;
      }
    }
    top
  }

  /** A ranked sequence holds no index twice. */
  lemma RankedDistinct(scores: seq<int>, r: seq<nat>)
    requires Ranked(scores, r)
    ensures forall i, j :: 0 <= i < j < |r| ==> r[i] != r[j]
  {
  }

  /** The ranking is the only arrangement of the indices in this order: any
      sequence of the same indices sorted the same way is equal to it. */
  lemma {:induction false} RankedUnique(scores: seq<int>, r1: seq<nat>, r2: seq<nat>)
    requires Ranked(scores, r1) && Ranked(scores, r2)
    requires forall y :: y in r1 <==> y in r2
    ensures r1 == r2
    decreases |r1| + |r2|
  {
    assert r1 != [] ==> r1[0] in r2;
    assert r2 != [] ==> r2[0] in r1;
    if r1 != [] && r2 != [] {
      var a, b := r1[0], r2[0];
      var i :| 0 <= i < |r1| && r1[i] == b;
      var j :| 0 <= j < |r2| && r2[j] == a;
      assert i == 0 || RanksBefore(scores, a, b);
      assert j == 0 || RanksBefore(scores, b, a);
      assert forall k :: 0 < k < |r1| ==> r1[k] != a;
      assert forall k :: 0 < k < |r2| ==> r2[k] != a;
      forall y
        ensures y in r1[1..] <==> y in r2[1..]
      {
        assert y in r1[1..] <==> y in r1 && y != a;
        assert y in r2[1..] <==> y in r2 && y != a;
      }
      RankedUnique(scores, r1[1..], r2[1..]);
    }
  }

  /** Scoring an empty list of sentences fails: there is no vocabulary. */
  datatype ScoringError = EmptyVocabulary

  /** `get_top_sentences`: the sentences in ranking order, at most `topN` of them. */
  function TopSentences(sentences: seq<String>, scores: seq<int>, topN: nat): (r: Result<seq<String>, ScoringError>)
    requires |scores| == |sentences|
    ensures r.Failure? <==> sentences == []
    ensures r.Success? ==>
              var top := TopIndices(scores, topN);
              |r.value| == |top| && forall k :: 0 <= k < |top| ==> r.value[k] == sentences[top[k]]
  {
    if sentences == [] then Failure(EmptyVocabulary)
    else
      var top := TopIndices(scores, topN);
      Success(seq(|top|, k requires 0 <= k < |top| => sentences[top[k]]))
  }

  // ---------------------------------------------------------------------------
  // Distractors

  /** The texts of the pool's entities of kind `kind` other than `correct`, in
      pool order, repeats included. */
  function SameKind(correct: String, kind: String, pool: seq<Entity>): (cands: seq<String>)
    ensures forall x :: x != correct ==> multiset(cands)[x] == multiset(pool)[Entity(x, kind)]
    ensures multiset(cands)[correct] == 0
  {
    if pool == [] then []
    else
      var init := pool[..|pool| - 1];
      var e := pool[|pool| - 1];
      assert pool == init + [e];
      var rest := SameKind(correct, kind, init);
      if e.kind == kind && e.text != correct then rest + [e.text] else rest
  }

  /** The candidates are exactly the pool's entities of the same kind and
      another text. */
  lemma SameKindMembers(correct: String, kind: String, pool: seq<Entity>, x: String)
    ensures x in SameKind(correct, kind, pool) <==> x != correct && Entity(x, kind) in pool
  {
    var cands := SameKind(correct, kind, pool);
    assert x in cands <==> multiset(cands)[x] > 0;
    assert Entity(x, kind) in pool <==> multiset(pool)[Entity(x, kind)] > 0;
  }

  /** `d` could come out of `random.sample(population, k)`: `k` picks at
      distinct positions, in any order. */
  ghost predicate IsSample(d: seq<String>, population: seq<String>, k: nat)
  {
    |d| == k && multiset(d) <= multiset(population)
  }

  /** `random.sample(population, k)`: each step takes a random position of the
      live part of the pool and moves the last live element into it. */
  method Sample(population: seq<String>, k: nat) returns (d: seq<String>)
    requires k <= |population|
    ensures IsSample(d, population, k)
  {
    var n := |population|;
    var pool := new String[n](i requires 0 <= i < n => population[i]);
    assert pool[..n] == population;
    d := [];
    var i := 0;
    ghost var live := population;
    while i < k
      invariant 0 <= i <= k
      invariant |d| == i
      invariant live == pool[..n - i]
      invariant multiset(d) + multiset(live) == multiset(population)
    {
      var j :| 0 <= j < n - i;
      ghost var taken, before := d, live;
      var x := TakeAt(pool, n - i, j, before);
      d := d + [x];
      live := before[j := before[n - i - 1]][..n - i - 1];
      SampleStep(taken, before, j, d, live);
      i := i + 1;
    }
  }

  /** Takes the element at `j` out of the live prefix `pool[..m]` by moving
      the last live element into its place. */
  method TakeAt(pool: array<String>, m: nat, j: nat, ghost live: seq<String>) returns (x: String)
    requires j < m <= pool.Length && pool[..m] == live
    modifies pool
    ensures x == live[j]
    ensures pool[..m - 1] == live[j := live[m - 1]][..m - 1]
  {
    x := pool[j];
    pool[j] := pool[m - 1];
    assert forall t :: 0 <= t < m - 1 ==> pool[t] == live[j := live[m - 1]][t];
  }

  /** One step of the pool algorithm keeps the taken and live elements together. */
  lemma SampleStep(taken: seq<String>, live: seq<String>, j: nat, taken': seq<String>, live': seq<String>)
    requires j < |live|
    requires taken' == taken + [live[j]] && live' == live[j := live[|live| - 1]][..|live| - 1]
    ensures multiset(taken') + multiset(live') == multiset(taken) + multiset(live)
  {
    TakeOverwritten(live, j, |live|);
    assert live[..|live|] == live;
  }

  /** Overwriting position `j < m` with element `m - 1` and keeping the first
      `m - 1` elements removes one copy of `s[j]` from `s[..m]`. */
  lemma TakeOverwritten(s: seq<String>, j: nat, m: nat)
    requires j < m <= |s|
    ensures multiset(s[j := s[m - 1]][..m - 1]) + multiset{s[j]} == multiset(s[..m])
  {
    var t := s[j := s[m - 1]];
    assert s[..m] == s[..m - 1] + [s[m - 1]];
    if j < m - 1 {
      assert t[..m - 1] == s[..m - 1][j := s[m - 1]];
    } else {
      assert t[..m - 1] == s[..m - 1];
    }
  }

  /** `generate_distractors`: up to three distinct picks among the same-kind
      candidates; none when there is no candidate. */
  method GenerateDistractors(correct: String, kind: String, pool: seq<Entity>) returns (d: seq<String>)
    ensures var cands := SameKind(correct, kind, pool);
            IsSample(d, cands, Min(3, |cands|))
    ensures forall x :: x in d ==> x != correct && Entity(x, kind) in pool
  {
    var cands := SameKind(correct, kind, pool);
    if cands != [] {
      d := Sample(cands, Min(3, |cands|));
    } else {
      d := [];
    }
    forall x | x in d
      ensures x != correct && Entity(x, kind) in pool
    {
      assert multiset(d)[x] > 0;
      SameKindMembers(correct, kind, pool, x);
    }
  }

  // ---------------------------------------------------------------------------
  // Question assembly

  /** `random.shuffle`: swaps each position, from the last down, with a random
      position at or before it. */
  method Shuffle(a: array<String>)
    modifies a
    ensures multiset(a[..]) == multiset(old(a[..]))
  {
    var i := a.Length - 1;
    while i > 0
      invariant multiset(a[..]) == multiset(old(a[..]))
    {
      var j :| 0 <= j <= i;
      a[i], a[j] := a[j], a[i];
      i := i - 1;
    }
  }

  datatype Mcq = Mcq(question: String, options: seq<String>, answer: String)

  /** `create_mcq`: the sentence with every occurrence of the entity blanked,
      the distractors and the entity in shuffled order, and the entity as answer. */
  method CreateMcq(sentence: String, entity: String, distractors: seq<String>) returns (m: Mcq)
    ensures m.question == Replace(sentence, entity, Blank)
    ensures m.answer == entity
    ensures multiset(m.options) == multiset(distractors) + multiset{entity}
    ensures |m.options| == |distractors| + 1
    ensures entity !in distractors ==> multiset(m.options)[entity] == 1
  {
    var opts := distractors + [entity];
    var options := new String[|opts|](i requires 0 <= i < |opts| => opts[i]);
    assert options[..] == opts;
    Shuffle(options);
    m := Mcq(Replace(sentence, entity, Blank), options[..], entity);
    assert |m.options| == |multiset(m.options)|;
    assert multiset(distractors)[entity] == 0 <== entity !in distractors;
  }

  /** Blanking leaves a sentence without the entity unchanged, and otherwise
      puts the blank between the pieces the entity separates. */
  lemma QuestionBlanking(sentence: String, entity: String)
    ensures !Contains(sentence, entity) ==> Replace(sentence, entity, Blank) == sentence
    ensures entity != [] ==> Replace(sentence, entity, Blank) == Join(Split(sentence, entity), Blank)
  {
    if !Contains(sentence, entity) {
      ReplaceAbsent(sentence, entity, Blank);
    }
    if entity != [] {
      ReplaceIsJoinOfSplit(sentence, entity, Blank);
    }
  }

  // ---------------------------------------------------------------------------
  // Pipeline

  /** The entities of all the sentences, sentence by sentence. */
  function EntityPool(sents: seq<String>, ner: String -> seq<Entity>): seq<Entity>
  {
    if sents == [] then []
    else EntityPool(sents[..|sents| - 1], ner) + ner(sents[|sents| - 1])
  }

  /** A (sentence, entity) pair that receives a question. */
  datatype Slot = Slot(sentence: String, entity: Entity)

  /** The entities of one sentence that have a same-kind alternative in the pool. */
  function SentenceSlots(sentence: String, ents: seq<Entity>, pool: seq<Entity>): seq<Slot>
  {
    if ents == [] then []
    else
      var e := ents[|ents| - 1];
      SentenceSlots(sentence, ents[..|ents| - 1], pool)
      + (if SameKind(e.text, e.kind, pool) != [] then [Slot(sentence, e)] else [])
  }

  /** The slots of all sentences, sentence then entity order. */
  function Slots(sents: seq<String>, ner: String -> seq<Entity>, pool: seq<Entity>): seq<Slot>
  {
    if sents == [] then []
    else
      var s := sents[|sents| - 1];
      Slots(sents[..|sents| - 1], ner, pool) + SentenceSlots(s, ner(s), pool)
  }

  /** `m` is a question the generator can produce for `slot`. */
  ghost predicate IsMcqFor(m: Mcq, slot: Slot, pool: seq<Entity>)
  {
    var cands := SameKind(slot.entity.text, slot.entity.kind, pool);
    && m.question == Replace(slot.sentence, slot.entity.text, Blank)
    && m.answer == slot.entity.text
    && multiset(m.options)[m.answer] == 1
    && IsSample(Remove(m.options, m.answer), cands, Min(3, |cands|))
  }

  /** The options without the answer. */
  function Remove(options: seq<String>, x: String): (r: seq<String>)
    ensures multiset(r) == multiset(options)[x := 0]
  {
    if options == [] then []
    else
      assert options == [options[0]] + options[1..];
      (if options[0] == x then [] else [options[0]]) + Remove(options[1..], x)
  }

  /** `mcqs` holds one question for each slot, in the same order. */
  ghost predicate MatchSlots(mcqs: seq<Mcq>, slots: seq<Slot>, pool: seq<Entity>)
  {
    |mcqs| == |slots| && forall k :: 0 <= k < |slots| ==> IsMcqFor(mcqs[k], slots[k], pool)
  }

  lemma MatchAppend(m1: seq<Mcq>, s1: seq<Slot>, m2: seq<Mcq>, s2: seq<Slot>, pool: seq<Entity>)
    requires MatchSlots(m1, s1, pool) && MatchSlots(m2, s2, pool)
    ensures MatchSlots(m1 + m2, s1 + s2, pool)
  {
    forall k | 0 <= k < |s1 + s2|
      ensures IsMcqFor((m1 + m2)[k], (s1 + s2)[k], pool)
    {
      if k >= |s1| {
        assert (m1 + m2)[k] == m2[k - |s1|] && (s1 + s2)[k] == s2[k - |s1|];
      }
    }
  }

  /** The questions the generator emits for the top sentences `top`. */
  ghost predicate McqsFor(mcqs: seq<Mcq>, top: seq<String>, ner: String -> seq<Entity>)
  {
    var pool := EntityPool(top, ner);
    MatchSlots(mcqs, Slots(top, ner, pool), pool)
  }

  lemma CreatedIsMcqFor(m: Mcq, slot: Slot, pool: seq<Entity>, d: seq<String>)
    requires var cands := SameKind(slot.entity.text, slot.entity.kind, pool);
             IsSample(d, cands, Min(3, |cands|))
    requires m.question == Replace(slot.sentence, slot.entity.text, Blank)
    requires m.answer == slot.entity.text
    requires multiset(m.options) == multiset(d) + multiset{m.answer}
    ensures IsMcqFor(m, slot, pool)
  {
    var cands := SameKind(slot.entity.text, slot.entity.kind, pool);
    assert multiset(d)[m.answer] == 0 by {
      assert multiset(d)[m.answer] <= multiset(cands)[m.answer];
    }
    assert multiset(Remove(m.options, m.answer)) == multiset(d);
    assert |Remove(m.options, m.answer)| == |d| by {
      assert |multiset(Remove(m.options, m.answer))| == |multiset(d)|;
    }
  }

  /** The body of the inner loop of `generate_mcqs_from_text`: a question for
      the entity when it has a distractor, none otherwise. */
  method EntityMcq(sent: String, e: Entity, pool: seq<Entity>) returns (more: seq<Mcq>)
    ensures MatchSlots(more, if SameKind(e.text, e.kind, pool) != [] then [Slot(sent, e)] else [], pool)
  {
    var distractors := GenerateDistractors(e.text, e.kind, pool);
    if distractors != [] {
      var mcq := CreateMcq(sent, e.text, distractors);
      CreatedIsMcqFor(mcq, Slot(sent, e), pool, distractors);
      more := [mcq];
    } else {
      more := [];
    }
  }

  /** The inner loop of `generate_mcqs_from_text`: a question for every entity
      of the sentence that has a distractor, in entity order. */
  method SentenceMcqs(sent: String, entities: seq<Entity>, pool: seq<Entity>) returns (mcqs: seq<Mcq>)
    ensures MatchSlots(mcqs, SentenceSlots(sent, entities, pool), pool)
  {
    mcqs := [];
    for j := 0 to |entities|
      invariant MatchSlots(mcqs, SentenceSlots(sent, entities[..j], pool), pool)
    {
      var e := entities[j];
      ghost var done := SentenceSlots(sent, entities[..j], pool);
      assert SentenceSlots(sent, entities[..j + 1], pool)
             == done + (if SameKind(e.text, e.kind, pool) != [] then [Slot(sent, e)] else []) by {
        assert entities[..j + 1][..j] == entities[..j];
      }
      var more := EntityMcq(sent, e, pool);
      MatchAppend(mcqs, done, more, if SameKind(e.text, e.kind, pool) != [] then [Slot(sent, e)] else [], pool);
      mcqs := mcqs + more;
    }
    assert entities[..|entities|] == entities;
  }

  /** The first loop of `generate_mcqs_from_text`: the entities of every top
      sentence, sentence by sentence. */
  method PoolEntities(top: seq<String>, ner: String -> seq<Entity>) returns (pool: seq<Entity>)
    ensures pool == EntityPool(top, ner)
  {
    pool := [];
    for i := 0 to |top|
      invariant pool == EntityPool(top[..i], ner)
    {
      assert top[..i + 1][..i] == top[..i];
      pool := pool + ner(top[i]);
    }
    assert top[..|top|] == top;
  }

  /** The loops of `generate_mcqs_from_text` after the ranking: pool the
      entities of all sentences, then build the questions sentence by sentence. */
  method McqsFromSentences(top: seq<String>, ner: String -> seq<Entity>) returns (mcqs: seq<Mcq>)
    ensures McqsFor(mcqs, top, ner)
  {
    var allEntities := PoolEntities(top, ner);
    mcqs := [];
    for i := 0 to |top|
      invariant MatchSlots(mcqs, Slots(top[..i], ner, allEntities), allEntities)
    {
      var sent := top[i];
      assert top[..i + 1][..i] == top[..i];
      var more := SentenceMcqs(sent, ner(sent), allEntities);
      MatchAppend(mcqs, Slots(top[..i], ner, allEntities), more, SentenceSlots(sent, ner(sent), allEntities), allEntities);
      mcqs := mcqs + more;
    }
    assert top[..|top|] == top;
  }

  /** `generate_mcqs_from_text`: the top ten sentences, then the questions. */
  method GenerateMcqsFromText(sentences: seq<String>, scores: seq<int>, ner: String -> seq<Entity>)
    returns (r: Result<seq<Mcq>, ScoringError>)
    requires |scores| == |sentences|
    ensures r.Failure? <==> sentences == []
    ensures r.Success? ==> McqsFor(r.value, TopSentences(sentences, scores, 10).value, ner)
  {
    var top := TopSentences(sentences, scores, 10);
    if top.Failure? {
      return Failure(top.error);
    }
    var mcqs := McqsFromSentences(top.value, ner);
    return Success(mcqs);
  }
}
