/**
 * The sentence classifier and the question renderers: a sentence is labelled
 * assertion-reason (AR), true/false (TF) or multiple choice (MCQ), and then
 * rendered as a statement or as a list of entity questions.
 *
 * The dependency parse and the named entities come from the NLP pipeline and
 * are inputs here.
 */
module IoPairs {
  import opened Wrappers
  import opened Domain
  import opened PyStr

  datatype QuestionType = MCQ | TF | AR

  /** Substrings of the lowered sentence that make it an assertion-reason item. */
  const CausalKeywords: seq<String> :=
    ["because", "due to", "as a result", "therefore", "since", "so", "hence", "thus"]

  /** Texts of "mark" tokens that make it an assertion-reason item. */
  const CausalMarkers: set<String> :=
    {"because", "since", "as", "although", "though", "due to", "so", "therefore", "thus"}

  /** Substrings of the lowered sentence that make it a definition. */
  const DefinitionPhrases: seq<String> :=
    [" is the ", " are the ", " refers to ", " is defined as ", " can be defined as ",
     " known as ", " means ", " is called ", " is known as "]

  /** Some token is a subordinating marker whose lowered text is a causal marker. */
  predicate HasCausalClause(tokens: seq<Token>)
  {
    exists k :: 0 <= k < |tokens| && tokens[k].dep == "mark" && Lower(tokens[k].text) in CausalMarkers
  }

  /** Some phrase of the list occurs in `text` as a raw substring. */
  predicate AnyOccurs(phrases: seq<String>, text: String)
  {
    exists k :: 0 <= k < |phrases| && Contains(text, phrases[k])
  }

  /** The text the keyword tests look at: the sentence lowered, then stripped. */
  function Normalized(sentence: String): String
  {
    Strip(Lower(sentence))
  }

  /** The fixed-priority decision: causal first, then definition, then the
      long declarative sentence, and multiple choice for everything else. */
  function Classify(sentence: String, tokens: seq<Token>): QuestionType
  {
    var text := Normalized(sentence);
    if HasCausalClause(tokens) || AnyOccurs(CausalKeywords, text) then AR
    else if AnyOccurs(DefinitionPhrases, text) then MCQ
    else if EndsWith(text, ".") && |Words(text)| >= 7 then TF
    else MCQ
  }

  /** A causal clause or a causal keyword anywhere makes the sentence AR, even
      when it also contains a definition phrase. */
  lemma CausalWins(sentence: String, tokens: seq<Token>, k: nat, i: nat)
    ensures HasCausalClause(tokens) ==> Classify(sentence, tokens) == AR
    ensures k < |CausalKeywords| && OccursAt(Normalized(sentence), CausalKeywords[k], i)
            ==> Classify(sentence, tokens) == AR
  {
  }

  /** Keywords are raw substrings: a sentence containing "also" is causal,
      because "so" occurs inside it. */
  lemma AlsoIsCausal(sentence: String, tokens: seq<Token>, i: nat)
    ensures OccursAt(Normalized(sentence), "also", i) ==> Classify(sentence, tokens) == AR
  {
    if OccursAt(Normalized(sentence), "also", i) {
      SoInsideAlso(Normalized(sentence), i);
      CausalWins(sentence, tokens, 5, i + 2);
    }
  }

  lemma SoInsideAlso(text: String, i: nat)
    requires OccursAt(text, "also", i)
    ensures OccursAt(text, "so", i + 2)
  {
    assert text[i + 2..i + 4] == text[i..i + 4][2..4];
  }

  /** Without a causal trigger, a definition phrase gives MCQ. */
  lemma DefinitionGivesMcq(sentence: String, tokens: seq<Token>, k: nat)
    ensures !HasCausalClause(tokens) && !AnyOccurs(CausalKeywords, Normalized(sentence))
            && k < |DefinitionPhrases| && Contains(Normalized(sentence), DefinitionPhrases[k])
            ==> Classify(sentence, tokens) == MCQ
  {
  }

  /** Otherwise TF exactly for a sentence ending in a dot with at least seven
      words, and MCQ in every other case. */
  lemma TrueFalseExactly(sentence: String, tokens: seq<Token>)
    requires !HasCausalClause(tokens)
    requires !AnyOccurs(CausalKeywords, Normalized(sentence))
    requires !AnyOccurs(DefinitionPhrases, Normalized(sentence))
    ensures Classify(sentence, tokens) == TF <==>
            EndsWith(Normalized(sentence), ".") && |Words(Normalized(sentence))| >= 7
    ensures Classify(sentence, tokens) != AR
  {
  }

  // ---------------------------------------------------------------------------
  // Statement renderers

  const TrueFalseMarker: String := " (True/False)"

  /** The stripped statement followed by the true/false marker. */
  function TrueFalse(sentence: String): (r: String)
    ensures EndsWith(r, TrueFalseMarker)
    ensures r[..|r| - |TrueFalseMarker|] == Strip(sentence)
  {
    Strip(sentence) + TrueFalseMarker
  }

  const Because: String := " because "

  /** "Assertion: A. Reason: R." from the two sides of a single " because ",
      and an unknown reason otherwise. */
  function AssertionReason(sentence: String): String
  {
    var parts := Split(sentence, Because);
    if |parts| == 2 then
      "Assertion: " + RStripDots(Strip(parts[0])) + ". Reason: " + RStripDots(Strip(parts[1])) + "."
    else
      "Assertion: " + Strip(sentence) + ". Reason: [Unknown]."
  }

  /** When the split gives two parts, the sentence is assertion + " because " +
      reason, neither side holds " because ", and each reappears stripped and
      without trailing dots. */
  lemma AssertionReasonParts(sentence: String)
    requires |Split(sentence, Because)| == 2
    ensures var parts := Split(sentence, Because);
            && sentence == parts[0] + Because + parts[1]
            && !Contains(parts[0], Because) && !Contains(parts[1], Because)
            && AssertionReason(sentence)
               == "Assertion: " + RStripDots(Strip(parts[0])) + ". Reason: " + RStripDots(Strip(parts[1])) + "."
  {
    SplitInTwo(sentence, Because);
  }

  /** Conversely, assertion + " because " + reason renders its two sides,
      provided " because " is found nowhere else. */
  lemma AssertionReasonOf(a: String, b: String)
    requires !Contains(a + Because[..|Because| - 1], Because) && !Contains(b, Because)
    ensures AssertionReason(a + Because + b)
            == "Assertion: " + RStripDots(Strip(a)) + ". Reason: " + RStripDots(Strip(b)) + "."
  {
    SplitOfTwo(a, Because, b);
  }

  /** Without exactly one " because ", the reason is unknown. */
  lemma AssertionReasonFallback(sentence: String)
    requires |Split(sentence, Because)| != 2
    ensures AssertionReason(sentence) == "Assertion: " + Strip(sentence) + ". Reason: [Unknown]."
  {
  }

  // ---------------------------------------------------------------------------
  // Generic question

  function MeantBy(sentence: String): String
  {
    "What is meant by: \"" + Strip(sentence) + "\"?"
  }

  /** "<lead><tail>?" when `pattern` splits the sentence into exactly two
      parts, the tail being the second part stripped and without trailing dots. */
  function PatternQuestion(sentence: String, pattern: String, lead: String): String
    requires pattern != []
  {
    var parts := Split(sentence, pattern);
    if |parts| == 2 then lead + RStripDots(Strip(parts[1])) + "?" else MeantBy(sentence)
  }

  /** " is the " is tested before " are the " on the lowered text; the split
      itself is case-sensitive. */
  function GenericQuestion(sentence: String): String
  {
    var lowered := Lower(sentence);
    if Contains(lowered, " is the ") then PatternQuestion(sentence, " is the ", "What is the ")
    else if Contains(lowered, " are the ") then PatternQuestion(sentence, " are the ", "What are the ")
    else MeantBy(sentence)
  }

  /** A lowercase pattern occurring in a string occurs in its lowered form too. */
  lemma LowerKeepsOccurrence(s: String, t: String, i: nat)
    requires OccursAt(s, t, i) && Lower(t) == t
    ensures OccursAt(Lower(s), t, i)
  {
    forall k | 0 <= k < |t|
      ensures Lower(s)[i + k] == t[k]
    {
      assert s[i + k] == t[k];
      assert Lower(t)[k] == LowerChar(t[k]);
    }
    assert Lower(s)[i..i + |t|] == t;
  }

  /** "X is the Y" with a single " is the " asks "What is the Y?". */
  lemma GenericIsThe(a: String, b: String)
    requires !Contains(a + " is the", " is the ") && !Contains(b, " is the ")
    ensures GenericQuestion(a + " is the " + b) == "What is the " + RStripDots(Strip(b)) + "?"
  {
    var s := a + " is the " + b;
    assert Contains(Lower(s), " is the ") by {
      PatternFound(a, " is the ", b);
    }
    assert Split(s, " is the ") == [a, b] by {
      assert " is the "[..7] == " is the";
      SplitOfTwo(a, " is the ", b);
    }
    IsTheFirst(s);
  }

  lemma IsTheFirst(s: String)
    requires Contains(Lower(s), " is the ")
    ensures GenericQuestion(s) == PatternQuestion(s, " is the ", "What is the ")
  {
  }

  /** A lowercase pattern between two pieces is found in the lowered text. */
  lemma PatternFound(a: String, pattern: String, b: String)
    requires Lower(pattern) == pattern
    ensures Contains(Lower(a + pattern + b), pattern)
  {
    var s := a + pattern + b;
    assert s[|a|..|a| + |pattern|] == pattern;
    LowerKeepsOccurrence(s, pattern, |a|);
  }

  /** Once " is the " appears in the lowered text, " are the " is never tried:
      a split that does not give two parts falls back to "What is meant by". */
  lemma IsTheShadowsAreThe(sentence: String)
    requires Contains(Lower(sentence), " is the ") && |Split(sentence, " is the ")| != 2
    ensures GenericQuestion(sentence) == MeantBy(sentence)
  {
  }

  /** "X are the Y" with a single " are the " and no " is the " anywhere asks
      "What are the Y?". */
  lemma GenericAreThe(a: String, b: String)
    requires !Contains(Lower(a + " are the " + b), " is the ")
    requires !Contains(a + " are the", " are the ") && !Contains(b, " are the ")
    ensures GenericQuestion(a + " are the " + b) == "What are the " + RStripDots(Strip(b)) + "?"
  {
    var s := a + " are the " + b;
    assert Contains(Lower(s), " are the ") by {
      PatternFound(a, " are the ", b);
    }
    assert Split(s, " are the ") == [a, b] by {
      assert " are the "[..8] == " are the";
      SplitOfTwo(a, " are the ", b);
    }
    AreTheSecond(s);
  }

  lemma AreTheSecond(s: String)
    requires !Contains(Lower(s), " is the ") && Contains(Lower(s), " are the ")
    ensures GenericQuestion(s) == PatternQuestion(s, " are the ", "What are the ")
  {
  }

  /** With " are the " but no " is the " in the lowered text, a split that does
      not give two parts falls back to "What is meant by". */
  lemma AreTheSplitFallback(sentence: String)
    requires !Contains(Lower(sentence), " is the ") && Contains(Lower(sentence), " are the ")
    requires |Split(sentence, " are the ")| != 2
    ensures GenericQuestion(sentence) == MeantBy(sentence)
  {
  }

  /** Without either pattern, the sentence is wrapped. */
  lemma GenericFallback(sentence: String)
    requires !Contains(Lower(sentence), " is the ") && !Contains(Lower(sentence), " are the ")
    ensures GenericQuestion(sentence) == MeantBy(sentence)
  {
  }

  // ---------------------------------------------------------------------------
  // Entity questions

  datatype Template = AboutEntity(prefix: String) | AboutSentence(prefix: String)

  /** Entity kind to question template; every template ends with "?". */
  const EntityQuestionTemplates: map<String, Template> := map[
    "PERSON" := AboutEntity("Who is "),
    "ORG" := AboutEntity("What is "),
    "PRODUCT" := AboutEntity("What is "),
    "EVENT" := AboutEntity("What is "),
    "WORK_OF_ART" := AboutEntity("What is "),
    "GPE" := AboutEntity("Where is "),
    "LOC" := AboutEntity("Where is "),
    "DATE" := AboutSentence("When did "),
    "TIME" := AboutSentence("When did "),
    "MONEY" := AboutEntity("How much is "),
    "QUANTITY" := AboutEntity("How much is "),
    "PERCENT" := AboutEntity("How much is "),
    "ORDINAL" := AboutEntity("What is the order of "),
    "CARDINAL" := AboutEntity("What is the number of "),
    "LAW" := AboutEntity("What is the law regarding "),
    "LANGUAGE" := AboutEntity("What is the language of "),
    "NORM" := AboutEntity("What is the norm regarding "),
    "FAC" := AboutEntity("What is the facility of "),
    "MISC" := AboutEntity("What is the miscellaneous information about ")
  ]

  /** The question an entity's template yields, if its kind has one. */
  function TemplateQuestion(sentence: String, e: Entity): Option<String>
  {
    if e.kind in EntityQuestionTemplates then
      match EntityQuestionTemplates[e.kind]
      case AboutEntity(p) => Some(p + e.text + "?")
      case AboutSentence(p) => Some(p + Strip(Replace(sentence, e.text, Blank)) + "?")
    else None
  }

  /** Date and time questions blank every occurrence of the entity text. */
  lemma DateQuestion(sentence: String, text: String)
    requires text != []
    ensures TemplateQuestion(sentence, Entity(text, "DATE"))
            == Some("When did " + Strip(Join(Split(sentence, text), Blank)) + "?")
  {
    ReplaceIsJoinOfSplit(sentence, text, Blank);
  }

  /** The template questions of the entities, in entity order, repeats included. */
  function Generated(sentence: String, ents: seq<Entity>): seq<String>
  {
    Collect(ents, e => TemplateQuestion(sentence, e))
  }

  /** The values `f` yields over `ents`, in order. */
  function Collect(ents: seq<Entity>, f: Entity -> Option<String>): seq<String>
  {
    if ents == [] then []
    else
      var rest := Collect(ents[..|ents| - 1], f);
      match f(ents[|ents| - 1])
      case Some(q) => rest + [q]
      case None => rest
  }

  lemma {:induction false} CollectMembers(ents: seq<Entity>, f: Entity -> Option<String>, q: String)
    ensures q in Collect(ents, f) <==> exists k :: 0 <= k < |ents| && f(ents[k]) == Some(q)
  {
    if ents != [] {
      var init := ents[..|ents| - 1];
      CollectMembers(init, f, q);
      assert forall k :: 0 <= k < |init| ==> init[k] == ents[k];
    }
  }

  lemma GeneratedMembers(sentence: String, ents: seq<Entity>, q: String)
    ensures q in Generated(sentence, ents) <==>
            exists k :: 0 <= k < |ents| && TemplateQuestion(sentence, ents[k]) == Some(q)
  {
    CollectMembers(ents, e => TemplateQuestion(sentence, e), q);
  }

  predicate NoDuplicates(xs: seq<String>)
  {
    forall i, j :: 0 <= i < j < |xs| ==> xs[i] != xs[j]
  }

  /** The elements of `xs` in the order of their first occurrence, each once. */
  function Dedup(xs: seq<String>): (d: seq<String>)
    ensures NoDuplicates(d)
    ensures forall x :: x in d <==> x in xs
  {
    if xs == [] then []
    else
      var d := Dedup(xs[..|xs| - 1]);
      var x := xs[|xs| - 1];
      assert forall y :: y in xs <==> y in xs[..|xs| - 1] || y == x;
      if x in d then d else d + [x]
  }

  /** Index of the first occurrence of `x` in `xs`. */
  function FirstIndex(xs: seq<String>, x: String): (i: nat)
    requires x in xs
    ensures i < |xs| && xs[i] == x && x !in xs[..i]
  {
    if xs[0] == x then 0 else 1 + FirstIndex(xs[1..], x)
  }

  /** The first occurrence is the index holding `x` with no `x` before it. */
  lemma {:induction false} FirstIndexAt(xs: seq<String>, x: String, i: nat)
    requires i < |xs| && xs[i] == x && x !in xs[..i]
    ensures FirstIndex(xs, x) == i
  {
    if i > 0 {
      assert xs[..i][0] == xs[0];
      assert xs[1..][..i - 1] == xs[..i][1..];
      FirstIndexAt(xs[1..], x, i - 1);
    }
  }

  lemma FirstIndexExtend(xs: seq<String>, x: String, y: String)
    requires y in xs
    ensures FirstIndex(xs + [x], y) == FirstIndex(xs, y)
  {
    var i := FirstIndex(xs, y);
    assert (xs + [x])[..i] == xs[..i];
    FirstIndexAt(xs + [x], y, i);
  }

  /** Deduplicating keeps the order of first occurrence. */
  lemma {:induction false} DedupOrder(xs: seq<String>)
    ensures forall i, j :: 0 <= i < j < |Dedup(xs)| ==>
              FirstIndex(xs, Dedup(xs)[i]) < FirstIndex(xs, Dedup(xs)[j])
  {
    if xs != [] {
      var init := xs[..|xs| - 1];
      var x := xs[|xs| - 1];
      assert xs == init + [x];
      DedupOrder(init);
      var d := Dedup(init);
      forall y | y in d
        ensures FirstIndex(xs, y) == FirstIndex(init, y)
      {
        FirstIndexExtend(init, x, y);
      }
      if x !in d {
        assert xs[..|init|] == init;
        FirstIndexAt(xs, x, |init|);
      }
    }
  }

  /** The entity-question loop: each template question is appended unless it
      is already in the list. */
  method EntityQuestions(sentence: String, ents: seq<Entity>) returns (questions: seq<String>)
    ensures questions == Dedup(Generated(sentence, ents))
  {
    questions := [];
    for i := 0 to |ents|
      invariant questions == Dedup(Generated(sentence, ents[..i]))
    {
      assert ents[..i + 1][..i] == ents[..i];
      match TemplateQuestion(sentence, ents[i])
      case Some(question) =>
        if question !in questions {
          questions := questions + [question];
        }
      case None =>
    }
    assert ents[..|ents|] == ents;
  }

  /** What `generate_output` returns: a rendered statement or a question list. */
  datatype Output = Statement(text: String) | QuestionList(items: seq<String>)

  /** TF and AR sentences are rendered as statements; any other type gets the
      entity questions without repeats, or the generic question when no entity
      has a template. */
  method GenerateOutput(sentence: String, qType: QuestionType, ents: seq<Entity>) returns (out: Output)
    ensures qType == TF ==> out == Statement(TrueFalse(sentence))
    ensures qType == AR ==> out == Statement(AssertionReason(sentence))
    ensures qType == MCQ ==> out.QuestionList? && out.items != [] && NoDuplicates(out.items)
    ensures qType == MCQ && Generated(sentence, ents) != [] ==> out == QuestionList(Dedup(Generated(sentence, ents)))
    ensures qType == MCQ && Generated(sentence, ents) == [] ==> out == QuestionList([GenericQuestion(sentence)])
  {
    var questions := EntityQuestions(sentence, ents);
    if questions == [] {
      questions := questions + [GenericQuestion(sentence)];
    }
    if qType == TF {
      out := Statement(TrueFalse(sentence));
    } else if qType == AR {
      out := Statement(AssertionReason(sentence));
    } else {
      out := QuestionList(questions);
    }
  }
}
