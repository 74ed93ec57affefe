/**
 * The rules behind the question generator: model selection, the sentence
 * split, the per-language candidate filters, the filter/dedup loop of
 * `generate_questions_from_text` as a function of the model's outputs, the
 * answer and distractor rules of the exam builder, and grading.
 */
module QuestionRules {
  import opened Wrappers
  import opened Text

  // ---------------------------------------------------------------------------
  // Model selection (`__init__`) and language
  // ---------------------------------------------------------------------------

  /** The name prefix of the Spanish models. */
  const SpanishPrefix: string := "mrm8488"

  const DefaultModel: string := SpanishPrefix + "/t5-base-finetuned-question-generation-ap"

  /** The keys of `SUPPORTED_MODELS`. */
  const SupportedModels: set<string> :=
    {"iarfmoose/t5-base-question-generator", "t5-small", DefaultModel}

  /** The model name the generator keeps: the requested one when it is
      supported, the Spanish default otherwise (and when none is given). */
  function ResolveModelName(requested: Option<string>): (name: string)
    ensures name in SupportedModels
    ensures requested == Some(name) <==> requested.Some? && requested.value in SupportedModels
    ensures requested != Some(name) ==> name == DefaultModel
  {
    if requested.None? || requested.value !in SupportedModels then DefaultModel else requested.value
  }

  /** Resolving a resolved name changes nothing. */
  lemma ResolveIdempotent(requested: Option<string>)
    ensures ResolveModelName(Some(ResolveModelName(requested))) == ResolveModelName(requested)
  {
  }

  datatype Language = English | Spanish

  /** Names starting with "mrm8488" select Spanish prompts and filters. */
  function LanguageOf(model: string): Language {
    if StartsWith(model, SpanishPrefix) then Spanish else English
  }

  /** Of the supported models only the default one is Spanish. */
  lemma SupportedLanguages()
    ensures LanguageOf(DefaultModel) == Spanish
    ensures LanguageOf("t5-small") == English
    ensures LanguageOf("iarfmoose/t5-base-question-generator") == English
  {
    assert DefaultModel[..|SpanishPrefix|] == SpanishPrefix;
    assert "t5-small"[0] != 'm';
    assert "iarfmoose/t5-base-question-generator"[0] != 'm';
  }

  /** The prompt for one sentence, which serves as context and answer. */
  function Prompt(lang: Language, sentence: string): string {
    match lang
    case Spanish => "contexto: " + sentence + " respuesta: " + sentence
    case English => "generate question: " + sentence + " answer: " + sentence
  }

  // ---------------------------------------------------------------------------
  // Candidate filters
  // ---------------------------------------------------------------------------

  /** An English candidate (already stripped): 10 < length < 200, holds '?',
      starts with a capital, holds neither '¿' nor '¡', and does not start
      with "context:" or "answer:" in any letter case. */
  predicate IsValidEnglish(q: string) {
    && 10 < |q| < 200
    && '?' in q
    && IsUpper(q[0])
    && '¿' !in q && '¡' !in q
    && !StartsWith(Lower(q), "context:")
    && !StartsWith(Lower(q), "answer:")
  }

  /** A Spanish candidate (already stripped): 10 < length < 200, holds '¿' or
      '?', and its lower-case form does not start with an English
      interrogative. */
  predicate IsValidSpanish(q: string) {
    && 10 < |q| < 200
    && ('¿' in q || '?' in q)
    && !StartsWith(Lower(q), "what")
    && !StartsWith(Lower(q), "who")
    && !StartsWith(Lower(q), "when")
    && !StartsWith(Lower(q), "where")
    && !StartsWith(Lower(q), "why")
    && !StartsWith(Lower(q), "how")
  }

  predicate IsValidFor(lang: Language, q: string) {
    match lang
    case English => IsValidEnglish(q)
    case Spanish => IsValidSpanish(q)
  }

  /** The English filter refuses a candidate that starts with "context:" or
      "answer:" written in any mix of letter cases. */
  lemma EnglishRejectsTagsInAnyCase(q: string, tag: string)
    requires Lower(tag) == "context:" || Lower(tag) == "answer:"
    requires StartsWith(q, tag)
    ensures !IsValidEnglish(q)
  {
    StartsWithLower(q, tag);
  }

  /** The Spanish filter refuses a candidate that starts with an English
      interrogative written in any mix of letter cases. */
  lemma SpanishRejectsEnglishInterrogatives(q: string, word: string)
    requires Lower(word) in {"what", "who", "when", "where", "why", "how"}
    requires StartsWith(q, word)
    ensures !IsValidSpanish(q)
  {
    StartsWithLower(q, word);
  }

  // ---------------------------------------------------------------------------
  // Sentence split: re.split(r'(?<=[.!?])\s+', text)
  // ---------------------------------------------------------------------------

  predicate IsSentenceEnd(c: char) {
    c == '.' || c == '!' || c == '?'
  }

  /** The pieces of `s`, where `cur` is the part of the current piece already
      read: a whitespace run right after '.', '!' or '?' ends a piece and is
      dropped. */
  function SplitSentencesFrom(s: string, cur: string): (pieces: seq<string>)
    ensures |pieces| >= 1
    decreases |s|
  {
    if s == [] then [cur]
    else if IsSentenceEnd(s[0]) && |s| > 1 && IsSpace(s[1]) then
      [cur + [s[0]]] + SplitSentencesFrom(TrimStart(s[1..]), [])
    else SplitSentencesFrom(s[1..], cur + [s[0]])
  }

  /** The sentence pieces of `text`: at least one; the text is cut after
      every '.', '!' or '?' that whitespace follows, and nowhere else; only
      the whitespace at the cuts is lost. */
  function SplitSentences(text: string): (pieces: seq<string>)
    ensures |pieces| >= 1
    ensures forall i :: 0 <= i < |pieces| - 1 ==> EndsSentence(pieces[i])
    ensures forall i :: 0 <= i < |pieces| ==> !HoldsBreak(pieces[i])
    ensures Words(JoinWith(pieces, " ")) == Words(text)
  {
    SentencePiecesEnd(text, []);
    SentencePiecesUnbroken(text, []);
    SentencePiecesKeepWords(text, []);
    assert [] + text == text;
    SplitSentencesFrom(text, [])
  }

  predicate EndsSentence(p: string) {
    p != [] && IsSentenceEnd(p[|p| - 1])
  }

  /** `p` holds a sentence end followed by whitespace, where the split cuts. */
  predicate HoldsBreak(p: string) {
    exists j :: 0 <= j < |p| - 1 && IsSentenceEnd(p[j]) && IsSpace(p[j + 1])
  }

  /** No piece holds a sentence end followed by whitespace: every such place
      is a cut. */
  lemma {:induction false} SentencePiecesUnbroken(s: string, cur: string)
    requires !HoldsBreak(cur)
    requires cur != [] && IsSentenceEnd(cur[|cur| - 1]) && s != [] ==> !IsSpace(s[0])
    ensures forall i :: 0 <= i < |SplitSentencesFrom(s, cur)| ==> !HoldsBreak(SplitSentencesFrom(s, cur)[i])
    decreases |s|
  {
    if s != [] {
      var c := cur + [s[0]];
      assert !HoldsBreak(c) by {
        forall j | 0 <= j < |c| - 1 ensures !(IsSentenceEnd(c[j]) && IsSpace(c[j + 1])) {
          assert c[j] == cur[j];
          if j < |cur| - 1 {
            assert c[j + 1] == cur[j + 1];
          }
        }
      }
      if IsSentenceEnd(s[0]) && |s| > 1 && IsSpace(s[1]) {
        var rest := SplitSentencesFrom(TrimStart(s[1..]), []);
        SentencePiecesUnbroken(TrimStart(s[1..]), []);
        assert SplitSentencesFrom(s, cur) == [c] + rest;
      } else {
        assert SplitSentencesFrom(s, cur) == SplitSentencesFrom(s[1..], c);
        SentencePiecesUnbroken(s[1..], c);
      }
    }
  }

  /** Joining the pieces with single spaces gives back the words of the text
      read so far (`cur`) and of the rest (`s`). */
  lemma {:induction false} SentencePiecesKeepWords(s: string, cur: string)
    ensures Words(JoinWith(SplitSentencesFrom(s, cur), " ")) == Words(cur + s)
    decreases |s|
  {
    if s == [] {
      assert cur + s == cur;
    } else {
      var c := cur + [s[0]];
      assert cur + s == c + s[1..];
      if IsSentenceEnd(s[0]) && |s| > 1 && IsSpace(s[1]) {
        var rest := SplitSentencesFrom(TrimStart(s[1..]), []);
        var ps := [c] + rest;
        assert SplitSentencesFrom(s, cur) == ps;
        var joined := JoinWith(rest, " ");
        assert JoinWith(ps, " ") == c + " " + joined by {
          assert ps[1..] == rest;
        }
        assert c + " " + joined == c + (" " + joined);
        WordsAppend(c, " " + joined);
        assert TrimStart(" " + joined) == TrimStart(joined) by {
          assert (" " + joined)[1..] == joined;
        }
        SentencePiecesKeepWords(TrimStart(s[1..]), []);
        assert [] + TrimStart(s[1..]) == TrimStart(s[1..]);
        WordsTrimStart(s[1..]);
        WordsAppend(c, s[1..]);
      } else {
        assert SplitSentencesFrom(s, cur) == SplitSentencesFrom(s[1..], c);
        SentencePiecesKeepWords(s[1..], c);
      }
    }
  }

  /** Every piece but the last ends with '.', '!' or '?'. */
  lemma {:induction false} SentencePiecesEnd(s: string, cur: string)
    ensures forall i :: 0 <= i < |SplitSentencesFrom(s, cur)| - 1 ==> EndsSentence(SplitSentencesFrom(s, cur)[i])
    decreases |s|
  {
    if s != [] {
      if IsSentenceEnd(s[0]) && |s| > 1 && IsSpace(s[1]) {
        var rest := SplitSentencesFrom(TrimStart(s[1..]), []);
        SentencePiecesEnd(TrimStart(s[1..]), []);
        var ps := [cur + [s[0]]] + rest;
        assert SplitSentencesFrom(s, cur) == ps;
        forall i | 0 <= i < |ps| - 1
          ensures EndsSentence(ps[i])
        {
          if i > 0 {
            assert ps[i] == rest[i - 1];
          } else {
            assert ps[0][|ps[0]| - 1] == s[0];
          }
        }
      } else {
        assert SplitSentencesFrom(s, cur) == SplitSentencesFrom(s[1..], cur + [s[0]]);
        SentencePiecesEnd(s[1..], cur + [s[0]]);
      }
    }
  }

  // ---------------------------------------------------------------------------
  // The filter/dedup loop of `generate_questions_from_text`
  // ---------------------------------------------------------------------------

  /** One generated question: its text, its type tag and the model name. */
  datatype Question = Question(text: string, kind: string, model: string)

  /** The question texts, in order. */
  function Texts(qs: seq<Question>): (ts: seq<string>)
    ensures |ts| == |qs|
    ensures forall i :: 0 <= i < |qs| ==> ts[i] == qs[i].text
  {
    seq(|qs|, i requires 0 <= i < |qs| => qs[i].text)
  }

  /** The inner loop over the model's candidates for one prompt: each is
      stripped and appended when it passes the language's filter and its text
      is not yet among the questions. */
  function AcceptCandidates(acc: seq<Question>, cands: seq<string>, model: string): seq<Question>
    decreases |cands|
  {
    if cands == [] then acc
    else
      var q := Strip(cands[0]);
      var acc' := if IsValidFor(LanguageOf(model), q) && q !in Texts(acc)
        then acc + [Question(q, "QG", model)] else acc;
      AcceptCandidates(acc', cands[1..], model)
  }

  /** The outer loop over the sentences, with the questions gathered so far:
      a stripped sentence under 30 characters is skipped, the loop stops at
      the first longer sentence once `num` questions are gathered, and
      otherwise the model's outputs for the sentence's prompt are filtered. */
  function CollectQuestions(sents: seq<string>, num: int, model: string,
                            gen: string -> seq<string>, acc: seq<Question>): seq<Question>
    decreases |sents|
  {
    if sents == [] then acc
    else
      var s := Strip(sents[0]);
      if |s| < 30 then CollectQuestions(sents[1..], num, model, gen, acc)
      else if |acc| >= num then acc
      else CollectQuestions(sents[1..], num, model, gen,
                            AcceptCandidates(acc, gen(Prompt(LanguageOf(model), s)), model))
  }

  /** One turn of the sentence loop. */
  lemma CollectStep(sents: seq<string>, num: int, model: string, gen: string -> seq<string>, acc: seq<Question>)
    requires sents != []
    ensures var s := Strip(sents[0]);
      CollectQuestions(sents, num, model, gen, acc) ==
        if |s| < 30 then CollectQuestions(sents[1..], num, model, gen, acc)
        else if |acc| >= num then acc
        else CollectQuestions(sents[1..], num, model, gen, AcceptCandidates(acc, gen(Prompt(LanguageOf(model), s)), model))
  {
  }

  /** What `generate_questions_from_text(text, num)` returns once the model is
      loaded, when the model answers prompt `p` with `gen(p)`. */
  function Generated(text: string, num: int, model: string, gen: string -> seq<string>): seq<Question> {
    CollectQuestions(SplitSentences(text), num, model, gen, [])
  }

  /** Every question passes the model's language filter and carries the type
      "QG" and the model name. */
  predicate WellTagged(qs: seq<Question>, model: string) {
    forall i :: 0 <= i < |qs| ==>
      qs[i].kind == "QG" && qs[i].model == model && IsValidFor(LanguageOf(model), qs[i].text)
  }

  /** No two questions share a text. */
  predicate DistinctTexts(qs: seq<Question>) {
    forall i, j :: 0 <= i < j < |qs| ==> qs[i].text != qs[j].text
  }

  /** The candidate loop keeps the questions already gathered, adds at most
      one per candidate, and keeps the tags right and the texts distinct. */
  lemma {:induction false} AcceptKeeps(acc: seq<Question>, cands: seq<string>, model: string)
    requires WellTagged(acc, model) && DistinctTexts(acc)
    ensures var r := AcceptCandidates(acc, cands, model);
      && |acc| <= |r| <= |acc| + |cands|
      && r[..|acc|] == acc
      && WellTagged(r, model) && DistinctTexts(r)
    decreases |cands|
  {
    if cands != [] {
      var q := Strip(cands[0]);
      if IsValidFor(LanguageOf(model), q) && q !in Texts(acc) {
        var acc' := acc + [Question(q, "QG", model)];
        assert forall i :: 0 <= i < |acc| ==> acc[i].text != q by {
          forall i | 0 <= i < |acc| ensures acc[i].text != q {
            assert Texts(acc)[i] == acc[i].text;
          }
        }
        AcceptKeeps(acc', cands[1..], model);
        var r := AcceptCandidates(acc', cands[1..], model);
        assert r[..|acc'|][..|acc|] == r[..|acc|];
      } else {
        AcceptKeeps(acc, cands[1..], model);
      }
    }
  }

  /** The sentence loop keeps the tags right and the texts distinct. */
  lemma {:induction false} CollectKeeps(sents: seq<string>, num: int, model: string,
                                        gen: string -> seq<string>, acc: seq<Question>)
    requires WellTagged(acc, model) && DistinctTexts(acc)
    ensures var r := CollectQuestions(sents, num, model, gen, acc);
      WellTagged(r, model) && DistinctTexts(r) && |acc| <= |r|
    decreases |sents|
  {
    if sents != [] {
      var s := Strip(sents[0]);
      if |s| < 30 {
        CollectKeeps(sents[1..], num, model, gen, acc);
      } else if |acc| < num {
        var cands := gen(Prompt(LanguageOf(model), s));
        AcceptKeeps(acc, cands, model);
        CollectKeeps(sents[1..], num, model, gen, AcceptCandidates(acc, cands, model));
      }
    }
  }

  /** Within one call the questions pass the language filter, carry "QG" and
      the model name, and have pairwise distinct texts. */
  lemma GeneratedWellFormed(text: string, num: int, model: string, gen: string -> seq<string>)
    ensures WellTagged(Generated(text, num, model, gen), model)
    ensures DistinctTexts(Generated(text, num, model, gen))
  {
    CollectKeeps(SplitSentences(text), num, model, gen, []);
  }

  /** Once `num` questions are gathered nothing is added. */
  lemma {:induction false} CollectStopsAtCount(sents: seq<string>, num: int, model: string,
                                               gen: string -> seq<string>, acc: seq<Question>)
    requires |acc| >= num
    ensures CollectQuestions(sents, num, model, gen, acc) == acc
    decreases |sents|
  {
    if sents != [] && |Strip(sents[0])| < 30 {
      CollectStopsAtCount(sents[1..], num, model, gen, acc);
    }
  }

  /** A request for no questions (or a negative number) gets none. */
  lemma GeneratedNonPositive(text: string, num: int, model: string, gen: string -> seq<string>)
    requires num <= 0
    ensures Generated(text, num, model, gen) == []
  {
    CollectStopsAtCount(SplitSentences(text), num, model, gen, []);
  }

  /** With at most 3 candidates per prompt the sentence loop overshoots the
      requested count by at most 2: the count is checked only before each
      sentence. */
  lemma {:induction false} CollectBound(sents: seq<string>, num: int, model: string,
                                        gen: string -> seq<string>, acc: seq<Question>)
    requires forall p :: |gen(p)| <= 3
    ensures |CollectQuestions(sents, num, model, gen, acc)| <= Max(|acc|, num + 2)
    decreases |sents|
  {
    if sents != [] {
      var s := Strip(sents[0]);
      if |s| < 30 {
        CollectBound(sents[1..], num, model, gen, acc);
      } else if |acc| < num {
        var cands := gen(Prompt(LanguageOf(model), s));
        AcceptKeepsLength(acc, cands, model);
        CollectBound(sents[1..], num, model, gen, AcceptCandidates(acc, cands, model));
      }
    }
  }

  /** The candidate loop adds at most one question per candidate. */
  lemma {:induction false} AcceptKeepsLength(acc: seq<Question>, cands: seq<string>, model: string)
    ensures |acc| <= |AcceptCandidates(acc, cands, model)| <= |acc| + |cands|
    decreases |cands|
  {
    if cands != [] {
      var q := Strip(cands[0]);
      if IsValidFor(LanguageOf(model), q) && q !in Texts(acc) {
        AcceptKeepsLength(acc + [Question(q, "QG", model)], cands[1..], model);
      } else {
        AcceptKeepsLength(acc, cands[1..], model);
      }
    }
  }

  /** The overshoot bound for one call: at most `num + 2` questions. */
  lemma GeneratedAtMostTwoOver(text: string, num: int, model: string, gen: string -> seq<string>)
    requires forall p :: |gen(p)| <= 3
    requires num >= 0
    ensures |Generated(text, num, model, gen)| <= num + 2
  {
    CollectBound(SplitSentences(text), num, model, gen, []);
  }

  /** Candidates that are stripped, valid, pairwise distinct and new are
      all accepted. */
  lemma {:induction false} AcceptAllNew(acc: seq<Question>, cands: seq<string>, model: string)
    requires forall i :: 0 <= i < |cands| ==>
      Strip(cands[i]) == cands[i] && IsValidFor(LanguageOf(model), cands[i]) && cands[i] !in Texts(acc)
    requires forall i, j :: 0 <= i < j < |cands| ==> cands[i] != cands[j]
    ensures |AcceptCandidates(acc, cands, model)| == |acc| + |cands|
    decreases |cands|
  {
    if cands != [] {
      var q := cands[0];
      var acc' := acc + [Question(q, "QG", model)];
      assert Texts(acc') == Texts(acc) + [q];
      assert forall i :: 0 <= i < |cands[1..]| ==> cands[1..][i] == cands[i + 1];
      AcceptAllNew(acc', cands[1..], model);
    }
  }

  /** The bound is reached: when the first sentence is long and its prompt
      yields three distinct valid stripped candidates, a request for one
      question gets at least three. */
  lemma OvershootReached(text: string, model: string, gen: string -> seq<string>)
    requires |Strip(SplitSentences(text)[0])| >= 30
    requires var cands := gen(Prompt(LanguageOf(model), Strip(SplitSentences(text)[0])));
      && |cands| == 3
      && (forall i :: 0 <= i < 3 ==> Strip(cands[i]) == cands[i] && IsValidFor(LanguageOf(model), cands[i]))
      && (forall i, j :: 0 <= i < j < 3 ==> cands[i] != cands[j])
    ensures |Generated(text, 1, model, gen)| >= 3
  {
    var sents := SplitSentences(text);
    var cands := gen(Prompt(LanguageOf(model), Strip(sents[0])));
    AcceptAllNew([], cands, model);
    AcceptKeeps([], cands, model);
    var q3 := AcceptCandidates([], cands, model);
    assert Generated(text, 1, model, gen) == CollectQuestions(sents[1..], 1, model, gen, q3);
    CollectKeeps(sents[1..], 1, model, gen, q3);
  }

  /** Sentences shorter than 30 characters are never prompted: two models
      that answer alike on every prompt built from a sentence of at least 30
      characters give the same questions. */
  lemma {:induction false} CollectIgnoresShortSentences(sents: seq<string>, num: int, model: string,
                                                        gen: string -> seq<string>, gen': string -> seq<string>,
                                                        acc: seq<Question>)
    requires forall s :: |s| >= 30 ==> gen(Prompt(LanguageOf(model), s)) == gen'(Prompt(LanguageOf(model), s))
    ensures CollectQuestions(sents, num, model, gen, acc) == CollectQuestions(sents, num, model, gen', acc)
    decreases |sents|
  {
    if sents != [] {
      var s := Strip(sents[0]);
      if |s| < 30 || |acc| >= num {
        CollectIgnoresShortSentences(sents[1..], num, model, gen, gen', acc);
      } else {
        var next := AcceptCandidates(acc, gen(Prompt(LanguageOf(model), s)), model);
        CollectIgnoresShortSentences(sents[1..], num, model, gen, gen', next);
      }
    }
  }

  lemma GeneratedIgnoresShortSentences(text: string, num: int, model: string,
                                       gen: string -> seq<string>, gen': string -> seq<string>)
    requires forall s :: |s| >= 30 ==> gen(Prompt(LanguageOf(model), s)) == gen'(Prompt(LanguageOf(model), s))
    ensures Generated(text, num, model, gen) == Generated(text, num, model, gen')
  {
    CollectIgnoresShortSentences(SplitSentences(text), num, model, gen, gen', []);
  }

  // ---------------------------------------------------------------------------
  // Answers and distractors of the exam builder
  // ---------------------------------------------------------------------------

  const NoAnswer: string := "Respuesta no disponible"
  const FallbackDistractor: string := "Opción incorrecta"

  /** The stripped pieces longer than 10 characters, in order. */
  function LongPieces(parts: seq<string>): (qs: seq<string>)
    ensures |qs| <= |parts|
  {
    if parts == [] then []
    else
      var s := Strip(parts[0]);
      (if |s| > 10 then [s] else []) + LongPieces(parts[1..])
  }

  /** The sentences both helpers draw from: the context split on '.', each
      piece stripped, kept when longer than 10 characters. */
  function ContextSentences(context: string): seq<string> {
    LongPieces(SplitOn(context, '.'))
  }

  /** Every long piece is stripped and longer than 10 characters. */
  lemma {:induction false} LongPiecesShape(parts: seq<string>)
    ensures forall i :: 0 <= i < |LongPieces(parts)| ==>
      |LongPieces(parts)[i]| > 10 && Strip(LongPieces(parts)[i]) == LongPieces(parts)[i]
  {
    if parts != [] {
      var s := Strip(parts[0]);
      LongPiecesShape(parts[1..]);
      StripIdempotent(parts[0]);
      assert LongPieces(parts) == (if |s| > 10 then [s] else []) + LongPieces(parts[1..]);
    }
  }

  /** `xs` without the elements equal to `x`. */
  function Without(xs: seq<string>, x: string): (r: seq<string>)
    ensures |r| <= |xs|
  {
    if xs == [] then []
    else (if xs[0] == x then [] else [xs[0]]) + Without(xs[1..], x)
  }

  /** `Without` keeps exactly the elements different from `x`. */
  lemma {:induction false} WithoutMembers(xs: seq<string>, x: string)
    ensures forall y :: y in Without(xs, x) <==> y in xs && y != x
  {
    if xs != [] {
      WithoutMembers(xs[1..], x);
      assert xs == [xs[0]] + xs[1..];
    }
  }

  /** The pool `_generate_distractors` samples from: the context sentences
      other than the correct answer. */
  function DistractorPool(context: string, correct: string): seq<string> {
    Without(ContextSentences(context), correct)
  }

  /** `_extract_answer_from_question`, given difflib's pick `best` among the
      context sentences: the pick, else the first sentence, else the
      placeholder. */
  function ExtractAnswer(sentences: seq<string>, best: Option<string>): string {
    if best.Some? then best.value
    else if sentences != [] then sentences[0]
    else NoAnswer
  }

  /** An answer the exam builder may give for a chunk: one of its sentences,
      or the placeholder exactly when it has none. */
  predicate IsAnswerFor(answer: string, context: string) {
    var sentences := ContextSentences(context);
    if sentences == [] then answer == NoAnswer else answer in sentences
  }

  /** Whatever difflib picks among the sentences, the answer is an answer for
      the context. */
  lemma ExtractAnswerIsAnswer(context: string, best: Option<string>)
    requires best.None? || best.value in ContextSentences(context)
    ensures IsAnswerFor(ExtractAnswer(ContextSentences(context), best), context)
  {
  }

  /** `n` copies of `x` (Python's `[x] * n`, empty for `n <= 0`). */
  function Repeat(x: string, n: int): (r: seq<string>)
    ensures |r| == Max(0, n)
    ensures forall i :: 0 <= i < |r| ==> r[i] == x
    decreases n
  {
    if n <= 0 then [] else [x] + Repeat(x, n - 1)
  }

  /** A multiset of distractors `_generate_distractors(correct, context, n)`
      may return: `min(n, |pool|)` sentences sampled from the pool, or `n`
      copies of the fallback text when the pool is empty. */
  predicate IsDistractorDraw(ds: multiset<string>, correct: string, context: string, n: int) {
    var pool := DistractorPool(context, correct);
    if pool == [] then ds == multiset(Repeat(FallbackDistractor, n))
    else |ds| == Min(n, |pool|) && ds <= multiset(pool)
  }

  /** `random.sample` refuses a negative sample size: with a non-empty pool
      and `n < 0` the helper raises. */
  predicate SampleFails(correct: string, context: string, n: int) {
    DistractorPool(context, correct) != [] && n < 0
  }

  /** One exam entry: the question, the shuffled options and the answer. */
  datatype ExamItem = ExamItem(question: string, options: seq<string>, answer: string)

  /** An exam entry built from a chunk with `numOptions` requested options:
      its answer is an answer for the chunk, and its options are the answer
      plus a distractor draw, in any order. */
  predicate IsExamItemFor(item: ExamItem, chunk: string, numOptions: int) {
    && IsAnswerFor(item.answer, chunk)
    && item.answer in item.options
    && IsDistractorDraw(multiset(item.options) - multiset{item.answer}, item.answer, chunk, numOptions - 1)
  }

  /** Putting a draw and the answer together, in any order, gives an exam
      entry. */
  lemma MakeExamItem(question: string, chunk: string, numOptions: int,
                     answer: string, ds: seq<string>, options: seq<string>)
    requires IsAnswerFor(answer, chunk)
    requires IsDistractorDraw(multiset(ds), answer, chunk, numOptions - 1)
    requires multiset(options) == multiset(ds + [answer])
    ensures IsExamItemFor(ExamItem(question, options, answer), chunk, numOptions)
  {
    assert answer in multiset(options);
    assert multiset(options) - multiset{answer} == multiset(ds);
  }

  /** What a draw holds: the fallback text, or sentences of the context
      other than the correct answer; at most `max(0, n)` of them, and exactly
      `min(n, |pool|)` when the pool is not empty. */
  lemma DrawShape(ds: multiset<string>, correct: string, context: string, n: int)
    requires IsDistractorDraw(ds, correct, context, n)
    ensures forall o :: o in ds ==> o == FallbackDistractor || (o in ContextSentences(context) && o != correct)
    ensures |ds| <= Max(0, n)
    ensures DistractorPool(context, correct) != [] ==> |ds| == Min(n, |DistractorPool(context, correct)|)
  {
    var pool := DistractorPool(context, correct);
    WithoutMembers(ContextSentences(context), correct);
    if pool == [] {
      var r := Repeat(FallbackDistractor, n);
      assert forall o :: o in ds ==> o in r;
    } else {
      assert forall o :: o in ds ==> o in multiset(pool);
    }
  }

  /** What an exam entry's options are: the answer, and otherwise sentences
      of the chunk different from the answer or the fallback text; there are
      at most `max(1, numOptions)` of them, and exactly `min(numOptions - 1,
      |pool|) + 1` when the chunk has a distractor sentence, so a short pool
      is not padded. */
  lemma ExamItemOptions(item: ExamItem, chunk: string, numOptions: int)
    requires IsExamItemFor(item, chunk, numOptions)
    ensures item.answer in item.options
    ensures forall o :: o in item.options ==>
      o == item.answer || o == FallbackDistractor || (o in ContextSentences(chunk) && o != item.answer)
    ensures |item.options| <= Max(1, numOptions)
    ensures DistractorPool(chunk, item.answer) != [] ==>
      |item.options| == Min(numOptions - 1, |DistractorPool(chunk, item.answer)|) + 1
  {
    var ms := multiset(item.options);
    var ds := ms - multiset{item.answer};
    DrawShape(ds, item.answer, chunk, numOptions - 1);
    assert ms == ds + multiset{item.answer};
    assert |item.options| == |ds| + 1;
    forall o | o in item.options && o != item.answer
      ensures o == FallbackDistractor || (o in ContextSentences(chunk) && o != item.answer)
    {
      assert o in ds;
    }
  }

  // ---------------------------------------------------------------------------
  // Grading (`grade_multiple_choice_exam`)
  // ---------------------------------------------------------------------------

  /** One graded answer. */
  datatype Detail = Detail(question: string, selected: string, correctAnswer: string, isCorrect: bool)

  /** The grade: percentage, number right, number of questions, details. */
  datatype Grade = Grade(score: real, correct: nat, total: nat, details: seq<Detail>)

  /** How one exam entry and one selected option are graded. */
  function GradeOne(item: ExamItem, selected: string): Detail {
    Detail(item.question, selected, item.answer, selected == item.answer)
  }

  /** The details of a grading: one per zipped pair of entry and selected
      option, in order (extra entries or answers are ignored). */
  function GradeDetails(exam: seq<ExamItem>, answers: seq<string>): (ds: seq<Detail>)
    ensures |ds| == Min(|exam|, |answers|)
    ensures forall i :: 0 <= i < |ds| ==> ds[i] == GradeOne(exam[i], answers[i])
  {
    seq(Min(|exam|, |answers|), i requires 0 <= i < Min(|exam|, |answers|) => GradeOne(exam[i], answers[i]))
  }

  /** The number of details marked correct. */
  function CountCorrect(ds: seq<Detail>): (c: nat)
    ensures c <= |ds|
  {
    if ds == [] then 0
    else CountCorrect(ds[..|ds| - 1]) + (if ds[|ds| - 1].isCorrect then 1 else 0)
  }

  /** The percentage: correct / total * 100, and 0 for an empty exam. */
  function Score(correct: nat, total: nat): real {
    if total > 0 then (correct as real) / (total as real) * 100.0 else 0.0
  }

  lemma DivSelf(t: real)
    requires t > 0.0
    ensures t / t == 1.0
  {
  }

  /** A ratio of a part to a positive whole lies in [0, 1] and is 1 only for
      the whole. */
  lemma RatioBounds(c: real, t: real)
    requires 0.0 <= c <= t && 0.0 < t
    ensures 0.0 <= c / t <= 1.0
    ensures c / t == 1.0 <==> c == t
  {
    var q := c / t;
    assert q * t == c;
    if q == 1.0 {
      assert c == 1.0 * t;
    }
    if c == t {
      DivSelf(t);
    }
  }

  /** The score is a percentage, and 100 exactly when every question of a
      non-empty exam is answered right. */
  lemma ScoreRange(correct: nat, total: nat)
    requires correct <= total
    ensures 0.0 <= Score(correct, total) <= 100.0
    ensures Score(correct, total) == 100.0 <==> 0 < total && correct == total
  {
    if total > 0 {
      RatioBounds(correct as real, total as real);
    }
  }

  /** Details marked all correct are all counted. */
  lemma {:induction false} CountAllCorrect(ds: seq<Detail>)
    requires forall i :: 0 <= i < |ds| ==> ds[i].isCorrect
    ensures CountCorrect(ds) == |ds|
  {
    if ds != [] {
      CountAllCorrect(ds[..|ds| - 1]);
    }
  }

  /** Details marked all wrong count nothing. */
  lemma {:induction false} CountNoneCorrect(ds: seq<Detail>)
    requires forall i :: 0 <= i < |ds| ==> !ds[i].isCorrect
    ensures CountCorrect(ds) == 0
  {
    if ds != [] {
      CountNoneCorrect(ds[..|ds| - 1]);
    }
  }

  /** Answering every entry of a non-empty exam right scores 100. */
  lemma PerfectAnswersFullMarks(exam: seq<ExamItem>, answers: seq<string>)
    requires 0 < |exam| <= |answers|
    requires forall i :: 0 <= i < |exam| ==> answers[i] == exam[i].answer
    ensures Score(CountCorrect(GradeDetails(exam, answers)), |exam|) == 100.0
  {
    CountAllCorrect(GradeDetails(exam, answers));
    ScoreRange(|exam|, |exam|);
  }

  /** Entries left unanswered count as wrong: with fewer answers than entries
      the score stays below 100. */
  lemma MissingAnswersLoseMarks(exam: seq<ExamItem>, answers: seq<string>)
    requires |answers| < |exam|
    ensures CountCorrect(GradeDetails(exam, answers)) <= |answers|
    ensures Score(CountCorrect(GradeDetails(exam, answers)), |exam|) < 100.0
  {
    ScoreRange(CountCorrect(GradeDetails(exam, answers)), |exam|);
  }

  /** Answering every entry wrong scores 0. */
  lemma AllWrongScoresZero(exam: seq<ExamItem>, answers: seq<string>)
    requires forall i :: 0 <= i < Min(|exam|, |answers|) ==> answers[i] != exam[i].answer
    ensures Score(CountCorrect(GradeDetails(exam, answers)), |exam|) == 0.0
  {
    CountNoneCorrect(GradeDetails(exam, answers));
  }
}
