# MCQ Generator — a verified model of its question logic

The MCQ Generator turns English text into quiz items. This project models the
deterministic (or constrained-random) logic under its NLP library calls:

- **Question-type classifier** (`classify_question_type`). A sentence is
  labelled assertion-reason (AR), true/false (TF) or multiple choice (MCQ) by a
  fixed-priority decision: a causal clause or causal keyword first, then a
  definition phrase, then "ends with a dot and has at least seven words".
- **Renderers** (`generate_output`, `generate_generic_question`).
  - A TF sentence gets the " (True/False)" suffix.
  - An AR sentence is split on " because " into "Assertion: …. Reason: …."
  - Any other sentence gets de-duplicated entity-template questions, or a
    generic "What is the …?" / "What is meant by …?" question when no entity
    has a template.
- **Distractors and question assembly** (`generate_distractors`, `create_mcq`,
  `generate_mcqs_from_text`, in both `generator.py` and `Samplegenerator.py`).
  - Up to three distractors are sampled without replacement from the pooled
    entities of the same kind.
  - The entity is blanked out of the sentence, and the options are shuffled.
  - Blanking uses `str.replace`, so it replaces every occurrence of the entity
    text.
- **Top-N selection and the PDF variant** (`get_top_sentences`,
  `extract_text_from_pdf`).
  - Sentence indices are stable-sorted by descending score and cut to `top_n`.
  - The PDF variant first joins the page texts, then keeps only the stripped
    sentences longer than 30 characters.

The files:

- `pystr.dfy` models the Python `str` operations the code relies on: `lower`,
  `strip`, `rstrip('.')`, `endswith`, `in`, `split(sep)`, `split()`, `join`
  and `replace`.
- `iopairs.dfy` models `iopairs.py`.
- `generator.dfy` models `generator.py`.
- `samplegenerator.dfy` models `Samplegenerator.py`. Its copies of
  `generate_distractors`, `create_mcq` and the question loops are identical to
  those in `generator.py`, so it reuses the `Generator` members.
- `domain.dfy` holds the shared entity and token types.
- `wrappers.dfy` holds `Option` and `Result`.

Outside components become inputs:

- The dependency parse is a sequence of `(text, dep)` tokens.
- The named-entity recogniser is a function from a sentence to its
  `(text, label)` entities.
- The sentence segmenter's output is a sequence of sentences.
- The TF-IDF sentence scores are integers aligned with the sentences.
- The PDF reader's output is a sequence of optional page texts.
- Random choices are nondeterministic (`:|`). They are constrained only as the
  source constrains them: `random.sample` picks distinct positions, and
  `random.shuffle` permutes.

## Model

| member | source | states |
|---|---|---|
| PyStr.Lower | MCQ_Generator/iopairs.py:11 | the lowered text has the same length and lowers each character |
| PyStr.Strip | MCQ_Generator/iopairs.py:11 | the result is the slice of the input left after dropping whitespace on both ends: everything cut off is whitespace, and the result neither starts nor ends with whitespace |
| PyStr.StripIdempotent | MCQ_Generator/Samplegenerator.py:23 | stripping a stripped string changes nothing |
| PyStr.RStripDots | MCQ_Generator/iopairs.py:92-93 | the result is a prefix with no trailing dot, and everything dropped is a dot |
| PyStr.IndexOf | MCQ_Generator/iopairs.py:90 | the separator search used by `split` and `replace` finds the first occurrence; none means the substring occurs nowhere |
| PyStr.Contains | MCQ_Generator/iopairs.py:24-25 | `t in s` holds exactly when `t` occurs at some index of `s` |
| PyStr.Split | MCQ_Generator/iopairs.py:90 | splitting gives at least one part, and no part contains the separator |
| PyStr.SplitLeftmost | MCQ_Generator/iopairs.py:90 | every cut is at the leftmost occurrence: no occurrence of the separator starts inside a part that a cut follows, so with the round trip the parts are fixed even for separators that overlap themselves |
| PyStr.SplitJoin | MCQ_Generator/iopairs.py:90 | joining the parts with the separator gives back the original string |
| PyStr.SplitInTwo | MCQ_Generator/iopairs.py:90-91 | two parts means the string is first part + separator + second part |
| PyStr.SplitOfTwo | MCQ_Generator/iopairs.py:90-91 | `a + sep + b` splits into exactly `[a, b]` when no other occurrence of `sep` is present |
| PyStr.ReplaceIsJoinOfSplit | MCQ_Generator/generator.py:28 | replacing a non-empty pattern is splitting on it and joining with the replacement, so every occurrence is replaced |
| PyStr.ReplaceAbsent | MCQ_Generator/generator.py:28 | a string without the pattern is left unchanged |
| PyStr.Words | MCQ_Generator/iopairs.py:27 | `split()` yields only non-empty runs of non-whitespace characters |
| PyStr.WordsCount | MCQ_Generator/iopairs.py:27 | the word count of `split()` is the number of non-whitespace characters at the start of the text or right after whitespace |
| IoPairs.CausalWins | MCQ_Generator/iopairs.py:23-31 | a causal "mark" token, or a causal keyword anywhere in the lowered, stripped sentence, gives AR, whatever definition phrase is also present |
| IoPairs.AlsoIsCausal | MCQ_Generator/iopairs.py:14-24 | keywords match as raw substrings: any sentence whose normalised text contains "also" is AR, because "so" occurs inside it |
| IoPairs.DefinitionGivesMcq | MCQ_Generator/iopairs.py:18-33 | with no causal clause or keyword, a definition phrase gives MCQ |
| IoPairs.TrueFalseExactly | MCQ_Generator/iopairs.py:27-37 | with no causal or definition trigger, the label is TF exactly when the text ends with "." and has at least seven words; it is never AR |
| IoPairs.TrueFalse | MCQ_Generator/iopairs.py:86-87 | the TF rendering is the stripped sentence followed by " (True/False)" |
| IoPairs.AssertionReasonParts | MCQ_Generator/iopairs.py:89-94 | when the split on " because " gives two parts, the sentence is assertion + " because " + reason, neither part contains " because ", and the output renders both parts stripped and without trailing dots |
| IoPairs.AssertionReasonOf | MCQ_Generator/iopairs.py:89-94 | conversely, `a + " because " + b` with no other " because " renders as "Assertion: a'. Reason: b'." |
| IoPairs.AssertionReasonFallback | MCQ_Generator/iopairs.py:95-96 | without exactly two parts, the reason is "[Unknown]" and the assertion is the stripped sentence |
| IoPairs.GenericIsThe | MCQ_Generator/iopairs.py:102-107 | `a + " is the " + b` with no other " is the " gives "What is the " + b stripped and without trailing dots + "?" |
| IoPairs.IsTheShadowsAreThe | MCQ_Generator/iopairs.py:103-112 | once " is the " occurs in the lowered text, " are the " is never tried: a split without two parts falls back to "What is meant by" |
| IoPairs.GenericAreThe | MCQ_Generator/iopairs.py:102-111 | `a + " are the " + b` with no " is the " in the lowered text and no other " are the " gives "What are the " + b stripped and without trailing dots + "?" |
| IoPairs.AreTheSplitFallback | MCQ_Generator/iopairs.py:108-112 | with " are the " but no " is the " in the lowered text, a split without two parts falls back to "What is meant by" |
| IoPairs.GenericFallback | MCQ_Generator/iopairs.py:103-112 | without either pattern the question is `What is meant by: "<stripped>"?` |
| IoPairs.DateQuestion | MCQ_Generator/iopairs.py:52-74 | a DATE question blanks every occurrence of the entity text, then strips the sentence |
| IoPairs.GeneratedMembers | MCQ_Generator/iopairs.py:66-76 | a question is generated exactly when some entity's template yields it |
| IoPairs.Dedup | MCQ_Generator/iopairs.py:78-79 | the list has no duplicates and has the same members as the generated questions |
| IoPairs.DedupOrder | MCQ_Generator/iopairs.py:66-79 | the questions keep the order of their first generation |
| IoPairs.EntityQuestions | MCQ_Generator/iopairs.py:66-79 | the append-unless-present loop yields the de-duplicated generated questions |
| IoPairs.GenerateOutput | MCQ_Generator/iopairs.py:39-99 | TF and AR give the rendered statements; any other type gives a non-empty, duplicate-free list: the entity questions, or the generic question when there are none |
| Generator.RankPrefix | MCQ_Generator/generator.py:15 | the ranking holds each index exactly once, in descending score order with ties by position |
| Generator.TopIndices | MCQ_Generator/generator.py:15 | min(top_n, n) indices in ranking order, and every index left out ranks after every index kept |
| Generator.RankedDistinct | MCQ_Generator/generator.py:15 | no index is selected twice |
| Generator.RankedUnique | MCQ_Generator/generator.py:15 | two rankings of the same indices are equal, so the stable descending sort is fully determined |
| Generator.TopSentences | MCQ_Generator/generator.py:11-16 | fails exactly on an empty sentence list; otherwise returns the sentences at the top indices, in order |
| Generator.SameKind | MCQ_Generator/generator.py:23 | each text other than the correct one occurs as often as its same-kind entity occurs in the pool; the correct text never occurs |
| Generator.SameKindMembers | MCQ_Generator/generator.py:23 | a candidate is exactly a different text whose entity of that kind is in the pool |
| Generator.Sample | MCQ_Generator/generator.py:24 | `random.sample` returns `k` elements forming a sub-multiset of the population |
| Generator.GenerateDistractors | MCQ_Generator/generator.py:22-25 | min(3, candidates) distractors, a sub-multiset of the candidates, each of the requested kind and different from the correct text; the PDF variant's copy (Samplegenerator.py lines 35-38) is identical |
| Generator.Shuffle | MCQ_Generator/generator.py:30 | the shuffled options are a permutation of the original ones |
| Generator.CreateMcq | MCQ_Generator/generator.py:27-35 | the question blanks the entity, the answer is the entity, the options are a permutation of distractors + [entity], and the entity occurs once when it is not a distractor; the PDF variant's copy (Samplegenerator.py lines 41-48) is identical |
| Generator.QuestionBlanking | MCQ_Generator/generator.py:28 | a sentence without the entity is unchanged; otherwise the blank stands between the pieces the entity separates |
| Generator.CreatedIsMcqFor | MCQ_Generator/generator.py:49-51 | a question built from sampled distractors has its answer exactly once among the options, and the other options form a sample of the candidates |
| Generator.EntityMcq | MCQ_Generator/generator.py:49-52 | one question for an entity with a same-kind alternative, none otherwise |
| Generator.SentenceMcqs | MCQ_Generator/generator.py:47-52 | one question per entity of the sentence with a distractor, in entity order |
| Generator.PoolEntities | MCQ_Generator/generator.py:42-44 | the pool is the concatenation of all top sentences' entities |
| Generator.McqsFromSentences | MCQ_Generator/generator.py:41-53 | one question per (sentence, entity) pair with a distractor, in sentence-then-entity order, drawn from the pooled entities |
| Generator.GenerateMcqsFromText | MCQ_Generator/generator.py:37-53 | fails exactly when there is no sentence; otherwise the questions for the top ten sentences |
| SampleGenerator.ExtractText | MCQ_Generator/Samplegenerator.py:11-18 | the text is each non-empty page's content followed by a newline, in page order |
| SampleGenerator.PagesTextAppend | MCQ_Generator/Samplegenerator.py:13-17 | the text of a document is the text of its first pages followed by the text of the rest |
| SampleGenerator.EmptyPagesAddNothing | MCQ_Generator/Samplegenerator.py:15-17 | a page with no content or empty content adds nothing |
| SampleGenerator.PagesTextEmpty | MCQ_Generator/Samplegenerator.py:13-18 | the text is empty exactly when no page has content, and otherwise ends with a newline |
| SampleGenerator.LongOnly | MCQ_Generator/Samplegenerator.py:23 | every kept sentence is longer than 30 characters, and no more sentences come out than went in |
| SampleGenerator.KeptMembers | MCQ_Generator/Samplegenerator.py:23 | a sentence is kept exactly when some raw sentence strips to it and it is longer than 30 characters |
| SampleGenerator.KeptAppend | MCQ_Generator/Samplegenerator.py:23 | filtering distributes over concatenation, so kept sentences stay in their original order |
| SampleGenerator.KeptStripped | MCQ_Generator/Samplegenerator.py:23 | kept sentences are already stripped |
| SampleGenerator.TopSentences | MCQ_Generator/Samplegenerator.py:21-27 | the ranking of the plain generator applied to the kept sentences: fails exactly when no sentence is kept; otherwise the kept sentences at the top min(top_n, kept) indices in descending score order with ties by position, each longer than 30 characters |
| SampleGenerator.GenerateMcqsFromText | MCQ_Generator/Samplegenerator.py:52-66 | fails exactly when no sentence is kept; otherwise the questions for the top ten kept sentences, as in the plain generator |

## Left out

- Loading spaCy, and its parse and NER. These are foreign calls, so the parse and the entities are inputs. The recogniser is a function, so the two calls per sentence in `generate_mcqs_from_text` give the same entities.
- NLTK's `sent_tokenize` and spaCy's sentence splitting. These are foreign calls, so the sentences are inputs.
- Generator.TopSentences: TF-IDF scores are floats computed by scikit-learn; here they are integer inputs. The vectorizer also fails on a non-empty list that contains no word token; the model fails only on the empty list.
- SampleGenerator.TopSentences: the same abstraction of scores and vectorizer failures.
- The PyPDF2 reader. Only the fold over the pages' extracted texts is modelled.
- The Streamlit interface (`Samplegenerator.py:68-90`, `frontend.py`), and the file reading and table printing at `iopairs.py:126-135`. These are user interface and I/O.
- `create_io_pairs` (`iopairs.py:115-124`). Its only caller passes a raw string, so it iterates over characters, and it calls `.strip()` on list outputs. Its per-sentence work is `Classify` followed by `GenerateOutput`.
- `preprocessing.py`, which does not parse, and `dataset.py`, which only downloads data.
- Actual randomness. `random.sample` and `random.shuffle` follow CPython's algorithms with nondeterministic index choices. CPython uses a set-based strategy for large populations; it yields the same possible outcomes, so it is not modelled separately.
- PyStr.Lower: lowers only the ASCII letters A-Z, while Python lowers every Unicode letter.
- Generator.TopSentences: `top_n` is a natural number. Negative slice bounds are never used by the callers.
- `IoPairs.Classify` and `IoPairs.GenericQuestion` carry no contract of their own. Their behaviour is stated by the lemmas that follow them.
