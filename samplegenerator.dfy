/**
 * The PDF variant of the generator: page texts are concatenated, sentences
 * are stripped and kept only when longer than 30 characters, and the kept
 * sentences go through the same ranking and question building.
 *
 * The PDF reader and the sentence segmenter are outside libraries; their
 * outputs (page texts, raw sentences) are inputs here.
 */
module SampleGenerator {
  import opened Wrappers
  import opened Domain
  import opened PyStr
  import Generator

  // ---------------------------------------------------------------------------
  // Page text

  /** The text a page contributes: its content and a newline, or nothing for
      a page with no text. */
  function PageText(page: Option<String>): String
  {
    if page.Some? && page.value != [] then page.value + "\n" else []
  }

  /** The pieces one after the other. */
  function Concat(pieces: seq<String>): String
  {
    if pieces == [] then [] else Concat(pieces[..|pieces| - 1]) + pieces[|pieces| - 1]
  }

  /** The text each page contributes, page by page. */
  function PageTexts(pages: seq<Option<String>>): seq<String>
  {
    seq(|pages|, k requires 0 <= k < |pages| => PageText(pages[k]))
  }

  /** The page texts in page order. */
  function PagesText(pages: seq<Option<String>>): String
  {
    Concat(PageTexts(pages))
  }

  /** `extract_text_from_pdf`: appends each non-empty page's content and a
      newline to the text. */
  method ExtractText(pages: seq<Option<String>>) returns (text: String)
    ensures text == PagesText(pages)
  {
    text := "";
    for i := 0 to |pages|
      invariant text == PagesText(pages[..i])
    {
      assert PageTexts(pages[..i + 1]) == PageTexts(pages[..i]) + [PageText(pages[i])];
      var content := pages[i];
      if content.Some? && content.value != [] {
        text := text + content.value + "\n";
      }
    }
    assert pages[..|pages|] == pages;
  }

  lemma {:induction false} ConcatAppend(a: seq<String>, b: seq<String>)
    ensures Concat(a + b) == Concat(a) + Concat(b)
    decreases |b|
  {
    if b == [] {
      assert a + b == a;
    } else {
      var init, last := b[..|b| - 1], b[|b| - 1];
      calc {
        Concat(a + b);
        { assert (a + b)[..|a + b| - 1] == a + init; }
        Concat(a + init) + last;
        { ConcatAppend(a, init); }
        (Concat(a) + Concat(init)) + last;
        Concat(a) + (Concat(init) + last);
        Concat(a) + Concat(b);
      }
    }
  }

  /** The text of a document is the text of its first pages followed by the
      text of the rest. */
  lemma PagesTextAppend(p1: seq<Option<String>>, p2: seq<Option<String>>)
    ensures PagesText(p1 + p2) == PagesText(p1) + PagesText(p2)
  {
    assert PageTexts(p1 + p2) == PageTexts(p1) + PageTexts(p2);
    ConcatAppend(PageTexts(p1), PageTexts(p2));
  }

  /** Pages without text contribute nothing. */
  lemma EmptyPagesAddNothing(pages: seq<Option<String>>, page: Option<String>)
    requires page == None || page == Some([])
    ensures PagesText(pages + [page]) == PagesText(pages)
  {
    PagesTextAppend(pages, [page]);
    assert PageTexts([page]) == [[]];
    assert Concat([[]]) == Concat([]) + [];
  }

  lemma {:induction false} ConcatEmpty(pieces: seq<String>)
    ensures Concat(pieces) == [] <==> forall k :: 0 <= k < |pieces| ==> pieces[k] == []
  {
    if pieces != [] {
      var init := pieces[..|pieces| - 1];
      ConcatEmpty(init);
      assert forall k :: 0 <= k < |init| ==> init[k] == pieces[k];
    }
  }

  lemma {:induction false} ConcatLast(pieces: seq<String>, c: char)
    requires forall k :: 0 <= k < |pieces| && pieces[k] != [] ==> pieces[k][|pieces[k]| - 1] == c
    ensures Concat(pieces) != [] ==> Concat(pieces)[|Concat(pieces)| - 1] == c
  {
    if pieces != [] {
      ConcatLast(pieces[..|pieces| - 1], c);
    }
  }

  /** The text is empty exactly when no page has text, and otherwise ends with
      a newline. */
  lemma PagesTextEmpty(pages: seq<Option<String>>)
    ensures PagesText(pages) == [] <==> forall k :: 0 <= k < |pages| ==> PageText(pages[k]) == []
    ensures PagesText(pages) != [] ==> PagesText(pages)[|PagesText(pages)| - 1] == '\n'
  {
    var texts := PageTexts(pages);
    assert forall k :: 0 <= k < |pages| ==> texts[k] == PageText(pages[k]);
    ConcatEmpty(texts);
    PageTextsEndInNewline(texts, pages);
    ConcatLast(texts, '\n');
  }

  lemma PageTextsEndInNewline(texts: seq<String>, pages: seq<Option<String>>)
    requires texts == PageTexts(pages)
    ensures forall k :: 0 <= k < |texts| && texts[k] != [] ==> texts[k][|texts[k]| - 1] == '\n'
  {
    forall k | 0 <= k < |texts| && texts[k] != []
      ensures texts[k][|texts[k]| - 1] == '\n'
    {
      assert texts[k] == PageText(pages[k]);
    }
  }

  // ---------------------------------------------------------------------------
  // Sentence filter

  /** The length a sentence must exceed, once stripped, to be kept. */
  const MinSentenceLength: nat := 30

  /** `f` applied to each string, in order. */
  function MapAll(ss: seq<String>, f: String -> String): seq<String>
  {
    seq(|ss|, k requires 0 <= k < |ss| => f(ss[k]))
  }

  lemma MapAppend(a: seq<String>, b: seq<String>, f: String -> String)
    ensures MapAll(a + b, f) == MapAll(a, f) + MapAll(b, f)
  {
  }

  lemma MapMembers(ss: seq<String>, f: String -> String, s: String)
    ensures s in MapAll(ss, f) <==> exists k :: 0 <= k < |ss| && f(ss[k]) == s
  {
    if s in MapAll(ss, f) {
      var k :| 0 <= k < |ss| && MapAll(ss, f)[k] == s;
    }
    if exists k :: 0 <= k < |ss| && f(ss[k]) == s {
      var k :| 0 <= k < |ss| && f(ss[k]) == s;
      assert MapAll(ss, f)[k] == s;
    }
  }

  /** Each raw sentence stripped of its surrounding whitespace. */
  function Stripped(raw: seq<String>): seq<String>
  {
    MapAll(raw, Strip)
  }

  /** The sentences longer than 30 characters, in order. */
  function LongOnly(ss: seq<String>): (kept: seq<String>)
    ensures |kept| <= |ss|
    ensures forall k :: 0 <= k < |kept| ==> |kept[k]| > MinSentenceLength
  {
    if ss == [] then []
    else
      var last := ss[|ss| - 1];
      LongOnly(ss[..|ss| - 1]) + (if |last| > MinSentenceLength then [last] else [])
  }

  /** The stripped sentences longer than 30 characters, in order. */
  function KeptSentences(raw: seq<String>): seq<String>
  {
    LongOnly(Stripped(raw))
  }

  lemma {:induction false} LongOnlyAppend(a: seq<String>, b: seq<String>)
    ensures LongOnly(a + b) == LongOnly(a) + LongOnly(b)
    decreases |b|
  {
    if b == [] {
      assert a + b == a;
    } else {
      var init := b[..|b| - 1];
      assert (a + b)[..|a + b| - 1] == a + init;
      LongOnlyAppend(a, init);
    }
  }

  lemma {:induction false} LongOnlyMembers(ss: seq<String>, s: String)
    ensures s in LongOnly(ss) <==> |s| > MinSentenceLength && s in ss
  {
    if ss != [] {
      var init := ss[..|ss| - 1];
      LongOnlyMembers(init, s);
      assert ss == init + [ss[|ss| - 1]];
    }
  }

  /** Filtering distributes over concatenation: the kept sentences stay in
      their original order. */
  lemma KeptAppend(r1: seq<String>, r2: seq<String>)
    ensures KeptSentences(r1 + r2) == KeptSentences(r1) + KeptSentences(r2)
  {
    MapAppend(r1, r2, Strip);
    LongOnlyAppend(Stripped(r1), Stripped(r2));
  }

  /** Some raw sentence strips to `s`. */
  ghost predicate StripsTo(raw: seq<String>, s: String)
  {
    exists k :: 0 <= k < |raw| && Strip(raw[k]) == s
  }

  /** A sentence is kept exactly when some raw sentence strips to it and it is
      longer than 30 characters. */
  lemma KeptMembers(raw: seq<String>, s: String)
    ensures s in KeptSentences(raw) <==> |s| > MinSentenceLength && StripsTo(raw, s)
  {
    LongOnlyMembers(Stripped(raw), s);
    MapMembers(raw, Strip, s);
  }

  /** Kept sentences are already stripped. */
  lemma KeptStripped(raw: seq<String>)
    ensures Stripped(KeptSentences(raw)) == KeptSentences(raw)
  {
    var kept := KeptSentences(raw);
    forall k | 0 <= k < |kept|
      ensures Strip(kept[k]) == kept[k]
    {
      KeptMembers(raw, kept[k]);
      var j :| 0 <= j < |raw| && Strip(raw[j]) == kept[k];
      StripIdempotent(raw[j]);
    }
  }

  /** `get_top_sentences` of this variant: the ranking runs over the kept
      sentences, and fails when none is kept. */
  function TopSentences(raw: seq<String>, scores: seq<int>, topN: nat): (r: Result<seq<String>, Generator.ScoringError>)
    requires |scores| == |KeptSentences(raw)|
    ensures r == Generator.TopSentences(KeptSentences(raw), scores, topN)
    ensures r.Failure? <==> KeptSentences(raw) == []
    ensures r.Success? ==> |r.value| == Min(topN, |KeptSentences(raw)|)
    ensures r.Success? ==> forall k :: 0 <= k < |r.value| ==>
              |r.value[k]| > MinSentenceLength && r.value[k] in KeptSentences(raw)
  {
    var kept := KeptSentences(raw);
    var r := Generator.TopSentences(kept, scores, topN);
    assert r.Success? ==> forall k :: 0 <= k < |r.value| ==>
             r.value[k] == kept[Generator.TopIndices(scores, topN)[k]];
    r
  }

  /** The number of top sentences the PDF variant asks questions about. */
  const TopCount: nat := 10

  /** `generate_mcqs_from_text` of this variant: the top ten kept sentences,
      then one question per entity with a same-kind alternative. */
  method GenerateMcqsFromText(raw: seq<String>, scores: seq<int>, ner: String -> seq<Entity>)
    returns (r: Result<seq<Generator.Mcq>, Generator.ScoringError>)
    requires |scores| == |KeptSentences(raw)|
    ensures r.Failure? <==> KeptSentences(raw) == []
    ensures r.Success? ==> Generator.McqsFor(r.value, TopSentences(raw, scores, TopCount).value, ner)
  {
    var top := TopSentences(raw, scores, TopCount);
    if top.Failure? {
      return Failure(top.error);
    }
    var mcqs := Generator.McqsFromSentences(top.value, ner);
    return Success(mcqs);
  }
}
