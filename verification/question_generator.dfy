/**
 * The question generator object: its model name, whether its pipeline is
 * loaded, question generation over a text, the multiple-choice exam builder
 * and grading. The text-generation model is the function `generator` from
 * prompt to candidate texts (an exception counts as no candidates), and
 * `loadable` says whether loading the model succeeds; both are fixed when
 * the object is built. `random.sample`, `random.shuffle` and difflib's pick
 * are nondeterministic choices.
 */
module QuestionGeneration {
  import opened Wrappers
  import opened Text
  import opened MemoryOptimizer
  import opened PdfChunking
  import opened PdfStreaming
  import opened QuestionRules

  datatype GenError =
    | ModelLoadFailed     // the RuntimeError raised when the model cannot be loaded
    | NegativeSampleSize  // the ValueError `random.sample` raises for a negative size

  /** The chunks the exam builder works on: those of a default processor. */
  function ExamChunks(text: string, m: MemorySnapshot): seq<string> {
    DefaultChunkSizeExceedsOverlap(0, m);
    TextChunks(text, GetOptimalChunkSizeAsWritten(0, DefaultChunkSize, m), DefaultOverlap)
  }

  /** The question texts of an exam, in order. */
  function ExamQuestions(exam: seq<ExamItem>): (qs: seq<string>)
    ensures |qs| == |exam|
    ensures forall i :: 0 <= i < |exam| ==> qs[i] == exam[i].question
  {
    seq(|exam|, i requires 0 <= i < |exam| => exam[i].question)
  }

  /** The questions one chunk adds to an exam whose questions so far are
      `acc`: each of `qs` not yet asked is appended, and the chunk is left as
      soon as the exam holds `n`. */
  function TakeNew(acc: seq<string>, qs: seq<string>, n: int): seq<string>
    decreases |qs|
  {
    if qs == [] then acc
    else if qs[0] in acc then TakeNew(acc, qs[1..], n)
    else if |acc| + 1 >= n then acc + [qs[0]]
    else TakeNew(acc + [qs[0]], qs[1..], n)
  }

  /** The questions of the exam built from chunk `k` on, when the entries so
      far ask `acc`: one request for a single question per chunk, until the
      exam holds `n` entries or the chunks run out. */
  function ExamQuestionsFrom(chunks: seq<string>, k: nat, n: int, model: string,
                             gen: string -> seq<string>, acc: seq<string>): seq<string>
    requires k <= |chunks|
    decreases |chunks| - k
  {
    if |acc| >= n || k == |chunks| then acc
    else ExamQuestionsFrom(chunks, k + 1, n, model, gen, TakeNew(acc, Texts(Generated(chunks[k], 1, model, gen)), n))
  }

  /** `xs` appended to `acc`, each element only when it is not there yet. */
  function DedupOnto(acc: seq<string>, xs: seq<string>): seq<string>
    decreases |xs|
  {
    if xs == [] then acc
    else DedupOnto(if xs[0] in acc then acc else acc + [xs[0]], xs[1..])
  }

  /** The questions generated for chunks `k..`, in chunk order. */
  function ChunkQuestions(chunks: seq<string>, k: nat, model: string, gen: string -> seq<string>): seq<string>
    requires k <= |chunks|
    decreases |chunks| - k
  {
    if k == |chunks| then []
    else Texts(Generated(chunks[k], 1, model, gen)) + ChunkQuestions(chunks, k + 1, model, gen)
  }

  /** The reference for the exam's questions: all chunks' questions in chunk
      order, repeats dropped, the first `n` of them. */
  function FirstNewQuestions(chunks: seq<string>, n: int, model: string, gen: string -> seq<string>): seq<string> {
    var d := DedupOnto([], ChunkQuestions(chunks, 0, model, gen));
    d[..Min(Max(0, n), |d|)]
  }

  /** One step of `TakeNew`. */
  lemma TakeNewStep(acc: seq<string>, rest: seq<string>, n: int)
    requires rest != []
    ensures rest[0] in acc ==> TakeNew(acc, rest, n) == TakeNew(acc, rest[1..], n)
    ensures rest[0] !in acc && |acc| + 1 >= n ==> TakeNew(acc, rest, n) == acc + [rest[0]]
    ensures rest[0] !in acc && |acc| + 1 < n ==> TakeNew(acc, rest, n) == TakeNew(acc + [rest[0]], rest[1..], n)
  {
  }

  /** A chunk extends the questions asked so far, and one that leaves the
      exam short of `n` has asked every question it generated. */
  lemma {:induction false} TakeNewShortTakesAll(acc: seq<string>, qs: seq<string>, n: int)
    ensures acc <= TakeNew(acc, qs, n)
    ensures |TakeNew(acc, qs, n)| < n ==> forall q :: q in qs ==> q in TakeNew(acc, qs, n)
    decreases |qs|
  {
    if qs != [] {
      var r := TakeNew(acc, qs, n);
      if qs[0] in acc {
        TakeNewShortTakesAll(acc, qs[1..], n);
        assert qs[0] in r;
      } else if |acc| + 1 < n {
        TakeNewShortTakesAll(acc + [qs[0]], qs[1..], n);
        assert qs[0] in acc + [qs[0]];
      }
      assert qs == [qs[0]] + qs[1..];
    }
  }

  /** Deduplicating onto `acc` keeps `acc` as its start. */
  lemma {:induction false} DedupOntoExtends(acc: seq<string>, xs: seq<string>)
    ensures |acc| <= |DedupOnto(acc, xs)| && DedupOnto(acc, xs)[..|acc|] == acc
    decreases |xs|
  {
    if xs != [] {
      var acc' := if xs[0] in acc then acc else acc + [xs[0]];
      DedupOntoExtends(acc', xs[1..]);
      assert acc'[..|acc|] == acc;
    }
  }

  /** Deduplicating a concatenation is deduplicating its halves in turn. */
  lemma {:induction false} DedupOntoAppend(acc: seq<string>, xs: seq<string>, ys: seq<string>)
    ensures DedupOnto(acc, xs + ys) == DedupOnto(DedupOnto(acc, xs), ys)
    decreases |xs|
  {
    if xs == [] {
      assert xs + ys == ys;
    } else {
      assert (xs + ys)[0] == xs[0] && (xs + ys)[1..] == xs[1..] + ys;
      var acc' := if xs[0] in acc then acc else acc + [xs[0]];
      DedupOntoAppend(acc', xs[1..], ys);
    }
  }

  /** One chunk adds its new questions in order, cut off at `n`. */
  lemma {:induction false} TakeNewIsPrefix(acc: seq<string>, qs: seq<string>, n: int)
    requires |acc| < n
    ensures var d := DedupOnto(acc, qs);
      TakeNew(acc, qs, n) == d[..Min(n, |d|)]
    decreases |qs|
  {
    if qs != [] {
      if qs[0] in acc {
        TakeNewIsPrefix(acc, qs[1..], n);
      } else if |acc| + 1 >= n {
        DedupOntoExtends(acc + [qs[0]], qs[1..]);
      } else {
        TakeNewIsPrefix(acc + [qs[0]], qs[1..], n);
      }
    }
  }

  /** The exam's questions from chunk `k` on are the first `n` distinct
      questions of those chunks, after the ones already asked. */
  lemma {:induction false} ExamQuestionsFromIsPrefix(chunks: seq<string>, k: nat, n: int, model: string,
                                                     gen: string -> seq<string>, acc: seq<string>)
    requires k <= |chunks| && |acc| <= Max(0, n)
    ensures var d := DedupOnto(acc, ChunkQuestions(chunks, k, model, gen));
      ExamQuestionsFrom(chunks, k, n, model, gen, acc) == d[..Min(Max(0, n), |d|)]
    decreases |chunks| - k
  {
    var d := DedupOnto(acc, ChunkQuestions(chunks, k, model, gen));
    DedupOntoExtends(acc, ChunkQuestions(chunks, k, model, gen));
    if |acc| >= n || k == |chunks| {
      assert Min(Max(0, n), |d|) == |acc|;
    } else {
      var qs := Texts(Generated(chunks[k], 1, model, gen));
      var rest := ChunkQuestions(chunks, k + 1, model, gen);
      var d1 := DedupOnto(acc, qs);
      var acc2 := TakeNew(acc, qs, n);
      TakeNewIsPrefix(acc, qs, n);
      DedupOntoAppend(acc, qs, rest);
      DedupOntoExtends(d1, rest);
      if |d1| <= n {
        assert acc2 == d1;
        ExamQuestionsFromIsPrefix(chunks, k + 1, n, model, gen, acc2);
      } else {
        assert acc2 == d1[..n];
        assert d[..n] == d1[..n];
        DedupOntoExtends(acc2, rest);
      }
    }
  }

  predicate QuestionsDistinct(exam: seq<ExamItem>) {
    forall i, j :: 0 <= i < j < |exam| ==> exam[i].question != exam[j].question
  }

  /** Entry `i` of the exam came from chunk `src[i]`: its question is one the
      generator produced for that chunk and for no chunk before it, and the
      entry is built from that chunk; the chunk numbers never go down. */
  predicate ItemsFrom(exam: seq<ExamItem>, src: seq<nat>, chunks: seq<string>, numOptions: int,
                      model: string, gen: string -> seq<string>) {
    && |src| == |exam|
    && (forall i :: 0 <= i < |exam| ==>
          && src[i] < |chunks|
          && exam[i].question in Texts(Generated(chunks[src[i]], 1, model, gen))
          && IsExamItemFor(exam[i], chunks[src[i]], numOptions))
    && (forall i, c :: 0 <= i < |exam| && 0 <= c < src[i] ==>
          exam[i].question !in Texts(Generated(chunks[c], 1, model, gen)))
    && (forall i, j :: 0 <= i < j < |src| ==> src[i] <= src[j])
  }

  /** Every question the generator produced for the chunks before `k` is
      already asked. */
  ghost predicate EarlierChunksAsked(used: set<string>, chunks: seq<string>, k: nat,
                                     model: string, gen: string -> seq<string>) {
    forall c, t :: 0 <= c < k && c < |chunks| && t in Texts(Generated(chunks[c], 1, model, gen)) ==> t in used
  }

  /** The state of the exam loop: the entries' provenance, with chunk
      numbers at most `bound`, distinct questions, and `used` holding exactly
      the questions asked. */
  ghost predicate ExamState(exam: seq<ExamItem>, used: set<string>, src: seq<nat>, chunks: seq<string>, bound: nat,
                      numOptions: int, model: string, gen: string -> seq<string>) {
    && ItemsFrom(exam, src, chunks, numOptions, model, gen)
    && (forall i :: 0 <= i < |src| ==> src[i] <= bound)
    && QuestionsDistinct(exam)
    && (forall t :: t in used <==> t in ExamQuestions(exam))
  }

  /** Asking more questions keeps the earlier chunks asked. */
  lemma EarlierChunksAskedGrow(used: set<string>, used': set<string>, chunks: seq<string>, k: nat,
                               model: string, gen: string -> seq<string>)
    requires EarlierChunksAsked(used, chunks, k, model, gen) && used <= used'
    ensures EarlierChunksAsked(used', chunks, k, model, gen)
  {
  }

  /** Once every question of chunk `k` is asked, the chunks before `k + 1`
      are. */
  lemma EarlierChunksAskedNext(used: set<string>, used': set<string>, chunks: seq<string>, k: nat,
                               model: string, gen: string -> seq<string>)
    requires k < |chunks| && EarlierChunksAsked(used, chunks, k, model, gen) && used <= used'
    requires forall t :: t in Texts(Generated(chunks[k], 1, model, gen)) ==> t in used'
    ensures EarlierChunksAsked(used', chunks, k + 1, model, gen)
  {
    forall c, t | 0 <= c < k + 1 && c < |chunks| && t in Texts(Generated(chunks[c], 1, model, gen))
      ensures t in used'
    {
    }
  }

  /** Adding an entry for a new question from chunk `k` keeps the state. */
  lemma ExamStateSnoc(exam: seq<ExamItem>, used: set<string>, src: seq<nat>, chunks: seq<string>, k: nat,
                      numOptions: int, model: string, gen: string -> seq<string>, item: ExamItem)
    requires ExamState(exam, used, src, chunks, k, numOptions, model, gen)
    requires k < |chunks| && item.question in Texts(Generated(chunks[k], 1, model, gen))
    requires IsExamItemFor(item, chunks[k], numOptions)
    requires EarlierChunksAsked(used, chunks, k, model, gen)
    requires item.question !in used
    ensures ExamState(exam + [item], used + {item.question}, src + [k], chunks, k, numOptions, model, gen)
  {
    ItemsFromSnoc(exam, src, chunks, numOptions, model, gen, item, k);
    assert item.question !in ExamQuestions(exam);
    DistinctSnoc(exam, item);
    var src' := src + [k];
    forall i | 0 <= i < |src'| ensures src'[i] <= k {
      if i < |src| {
        assert src'[i] == src[i];
      }
    }
    var qs := ExamQuestions(exam);
    forall t ensures t in used + {item.question} <==> t in qs + [item.question] {
      assert t in qs + [item.question] <==> t in qs || t == item.question;
    }
  }

  /** One entry of the loop over chunk `k`'s questions: appending an entry
      for its new question `q` keeps the exam's state, asks `q`, and records
      chunk `k` as the entry's source. */
  lemma ChunkEntryStep(src0: seq<nat>, exam: seq<ExamItem>, used: set<string>, src: seq<nat>,
                       chunks: seq<string>, k: nat, numOptions: int, model: string, gen: string -> seq<string>,
                       item: ExamItem)
    requires k < |chunks| && item.question in Texts(Generated(chunks[k], 1, model, gen))
    requires ExamState(exam, used, src, chunks, k, numOptions, model, gen)
    requires EarlierChunksAsked(used, chunks, k, model, gen)
    requires src0 <= src && forall i :: |src0| <= i < |src| ==> src[i] == k
    requires item.question !in used && IsExamItemFor(item, chunks[k], numOptions)
    ensures ExamState(exam + [item], used + {item.question}, src + [k], chunks, k, numOptions, model, gen)
    ensures ExamQuestions(exam + [item]) == ExamQuestions(exam) + [item.question]
    ensures EarlierChunksAsked(used + {item.question}, chunks, k, model, gen)
    ensures src0 <= src + [k] && forall i :: |src0| <= i < |src + [k]| ==> (src + [k])[i] == k
  {
    EarlierChunksAskedGrow(used, used + {item.question}, chunks, k, model, gen);
    ExamStateSnoc(exam, used, src, chunks, k, numOptions, model, gen, item);
    DistinctSnoc(exam, item);
    var src' := src + [k];
    assert src0 <= src' && forall i :: |src0| <= i < |src'| ==> src'[i] == k by {
      assert src'[..|src|] == src;
      forall i | |src0| <= i < |src'| ensures src'[i] == k {
        if i < |src| {
          assert src'[i] == src[i];
        }
      }
    }
  }

  /** Appending an entry built from chunk `k`, no earlier than the chunks
      already used, whose question no earlier chunk produced, keeps the
      exam's provenance. */
  lemma ItemsFromSnoc(exam: seq<ExamItem>, src: seq<nat>, chunks: seq<string>, numOptions: int,
                      model: string, gen: string -> seq<string>, item: ExamItem, k: nat)
    requires ItemsFrom(exam, src, chunks, numOptions, model, gen)
    requires forall i :: 0 <= i < |src| ==> src[i] <= k
    requires k < |chunks| && item.question in Texts(Generated(chunks[k], 1, model, gen))
    requires IsExamItemFor(item, chunks[k], numOptions)
    requires forall c :: 0 <= c < k ==> item.question !in Texts(Generated(chunks[c], 1, model, gen))
    ensures ItemsFrom(exam + [item], src + [k], chunks, numOptions, model, gen)
  {
    EntriesFromSnoc(exam, src, chunks, numOptions, model, gen, item, k);
    FirstFromSnoc(exam, src, chunks, model, gen, item, k);
    SourcesSortedSnoc(src, k);
  }

  /** The entry-by-entry part of `ItemsFromSnoc`. */
  lemma EntriesFromSnoc(exam: seq<ExamItem>, src: seq<nat>, chunks: seq<string>, numOptions: int,
                        model: string, gen: string -> seq<string>, item: ExamItem, k: nat)
    requires |src| == |exam|
    requires forall i :: 0 <= i < |exam| ==>
      && src[i] < |chunks|
      && exam[i].question in Texts(Generated(chunks[src[i]], 1, model, gen))
      && IsExamItemFor(exam[i], chunks[src[i]], numOptions)
    requires k < |chunks| && item.question in Texts(Generated(chunks[k], 1, model, gen))
    requires IsExamItemFor(item, chunks[k], numOptions)
    ensures forall i :: 0 <= i < |exam| + 1 ==>
      && (src + [k])[i] < |chunks|
      && (exam + [item])[i].question in Texts(Generated(chunks[(src + [k])[i]], 1, model, gen))
      && IsExamItemFor((exam + [item])[i], chunks[(src + [k])[i]], numOptions)
  {
    var exam', src' := exam + [item], src + [k];
    forall i | 0 <= i < |exam'|
      ensures && src'[i] < |chunks|
              && exam'[i].question in Texts(Generated(chunks[src'[i]], 1, model, gen))
              && IsExamItemFor(exam'[i], chunks[src'[i]], numOptions)
    {
      if i < |exam| {
        assert exam'[i] == exam[i] && src'[i] == src[i];
      }
    }
  }

  /** The first-chunk part of `ItemsFromSnoc`. */
  lemma FirstFromSnoc(exam: seq<ExamItem>, src: seq<nat>, chunks: seq<string>,
                      model: string, gen: string -> seq<string>, item: ExamItem, k: nat)
    requires |src| == |exam| && forall i :: 0 <= i < |src| ==> src[i] < |chunks|
    requires forall i, c :: 0 <= i < |exam| && 0 <= c < src[i] ==>
      exam[i].question !in Texts(Generated(chunks[c], 1, model, gen))
    requires k <= |chunks|
    requires forall c :: 0 <= c < k ==> item.question !in Texts(Generated(chunks[c], 1, model, gen))
    ensures forall i, c :: 0 <= i < |exam| + 1 && 0 <= c < (src + [k])[i] ==>
      (exam + [item])[i].question !in Texts(Generated(chunks[c], 1, model, gen))
  {
    var exam', src' := exam + [item], src + [k];
    forall i, c | 0 <= i < |exam'| && 0 <= c < src'[i]
      ensures exam'[i].question !in Texts(Generated(chunks[c], 1, model, gen))
    {
      if i < |exam| {
        assert exam'[i] == exam[i] && src'[i] == src[i];
      }
    }
  }

  /** Appending a chunk number no smaller than the others keeps them in
      order. */
  lemma SourcesSortedSnoc(src: seq<nat>, k: nat)
    requires forall i, j :: 0 <= i < j < |src| ==> src[i] <= src[j]
    requires forall i :: 0 <= i < |src| ==> src[i] <= k
    ensures forall i, j :: 0 <= i < j < |src + [k]| ==> (src + [k])[i] <= (src + [k])[j]
  {
  }

  /** Appending an entry whose question is new keeps the questions distinct. */
  lemma DistinctSnoc(exam: seq<ExamItem>, item: ExamItem)
    requires QuestionsDistinct(exam) && item.question !in ExamQuestions(exam)
    ensures QuestionsDistinct(exam + [item])
    ensures ExamQuestions(exam + [item]) == ExamQuestions(exam) + [item.question]
  {
    forall i | 0 <= i < |exam| ensures exam[i].question != item.question {
      assert ExamQuestions(exam)[i] == exam[i].question;
    }
  }

  /** `random.sample(pool, k)`: `k` elements drawn without replacement. */
  method Sample(pool: seq<string>, k: nat) returns (ds: seq<string>)
    requires k <= |pool|
    ensures |ds| == k
    ensures multiset(ds) <= multiset(pool)
  {
    ds := [];
    var rest := pool;
    while |ds| < k
      invariant multiset(ds) + multiset(rest) == multiset(pool)
      invariant |ds| + |rest| == |pool| && |ds| <= k
    {
      var j :| 0 <= j < |rest|;
      assert rest == rest[..j] + [rest[j]] + rest[j + 1..];
      ds := ds + [rest[j]];
      rest := rest[..j] + rest[j + 1..];
    }
  }

  /** `random.shuffle(xs)`: the same elements in any order. */
  method Shuffle(xs: seq<string>) returns (ys: seq<string>)
    ensures multiset(ys) == multiset(xs)
  {
    ys := [];
    var rest := xs;
    while rest != []
      invariant multiset(ys) + multiset(rest) == multiset(xs)
      decreases |rest|
    {
      var j :| 0 <= j < |rest|;
      assert rest == rest[..j] + [rest[j]] + rest[j + 1..];
      ys := ys + [rest[j]];
      rest := rest[..j] + rest[j + 1..];
    }
  }

  /** `difflib.get_close_matches(question, sentences, n=1)`: one of the
      sentences, or none. */
  method PickCloseMatch(question: string, sentences: seq<string>) returns (best: Option<string>)
    ensures best.None? || best.value in sentences
  {
    var k :| 0 <= k <= |sentences|;
    best := if k == |sentences| then None else Some(sentences[k]);
  }

  /** The candidate loop of `generate_questions_from_text` for one prompt. */
  method AcceptGenerated(questions: seq<Question>, used: set<string>, result: seq<string>, model: string)
    returns (questions': seq<Question>, used': set<string>)
    requires forall t :: t in used <==> t in Texts(questions)
    ensures questions' == AcceptCandidates(questions, result, model)
    ensures forall t :: t in used' <==> t in Texts(questions')
  {
    questions', used' := questions, used;
    var lang := LanguageOf(model);
    for j := 0 to |result|
      invariant forall t :: t in used' <==> t in Texts(questions')
      invariant AcceptCandidates(questions', result[j..], model) == AcceptCandidates(questions, result, model)
    {
      assert result[j..][1..] == result[j + 1..];
      var question := Strip(result[j]);
      if IsValidFor(lang, question) && question !in used' {
        questions' := questions' + [Question(question, "QG", model)];
        used' := used' + {question};
        assert Texts(questions') == Texts(questions'[..|questions'| - 1]) + [question];
      }
    }
    assert result[|result|..] == [];
  }

  class QuestionGenerator {
    const modelName: string
    /** Whether loading the model succeeds. */
    const loadable: bool
    /** The candidate texts the model returns for each prompt. */
    const generator: string -> seq<string>
    /** Whether the pipeline is loaded. */
    var pipelineLoaded: bool

    /** `__init__`: the requested name when it is supported, the Spanish
        default otherwise; no pipeline yet. */
    constructor (requested: Option<string>, loadable: bool, generator: string -> seq<string>)
      ensures modelName == ResolveModelName(requested)
      ensures this.loadable == loadable && this.generator == generator
      ensures !pipelineLoaded
    {
      modelName := ResolveModelName(requested);
      this.loadable := loadable;
      this.generator := generator;
      pipelineLoaded := false;
    }

    /** `load_model`: reports whether loading succeeded; a success leaves the
        pipeline loaded, a failure leaves it as it was. */
    method LoadModel() returns (ok: bool)
      modifies this
      ensures ok == loadable
      ensures pipelineLoaded == (old(pipelineLoaded) || loadable)
    {
      if loadable {
        pipelineLoaded := true;
      }
      ok := loadable;
    }

    /** `generate_questions_from_text`: loads the model if needed (failing
        when it cannot be loaded), then runs the sentence loop. */
    method GenerateQuestionsFromText(text: string, numQuestions: int) returns (r: Result<seq<Question>, GenError>)
      modifies this
      ensures pipelineLoaded == (old(pipelineLoaded) || loadable)
      ensures r.Failure? <==> !old(pipelineLoaded) && !loadable
      ensures r.Failure? ==> r.error == ModelLoadFailed
      ensures r.Success? ==> r.value == Generated(text, numQuestions, modelName, generator)
    {
      if !pipelineLoaded {
        var ok := LoadModel();
        if !ok {
          return Failure(ModelLoadFailed);
        }
      }
      var sentences := SplitSentences(text);
      var lang := LanguageOf(modelName);
      var questions: seq<Question> := [];
      var used: set<string> := {};
      var i := 0;
      while i < |sentences|
        invariant i <= |sentences|
        invariant pipelineLoaded == (old(pipelineLoaded) || loadable)
        invariant forall t :: t in used <==> t in Texts(questions)
        invariant CollectQuestions(sentences[i..], numQuestions, modelName, generator, questions)
          == Generated(text, numQuestions, modelName, generator)
      {
        assert sentences[i..][0] == sentences[i] && sentences[i..][1..] == sentences[i + 1..];
        CollectStep(sentences[i..], numQuestions, modelName, generator, questions);
        var sent := Strip(sentences[i]);
        if |sent| < 30 {
          i := i + 1;
          continue;
        }
        if |questions| >= numQuestions {
          break;
        }
        var prompt := Prompt(lang, sent);
        questions, used := AcceptGenerated(questions, used, generator(prompt), modelName);
        i := i + 1;
      }
      return Success(questions);
    }

    /** `_extract_answer_from_question`: difflib's pick among the context's
        sentences, else the first of them, else the placeholder. */
    method ExtractAnswerFromQuestion(question: string, context: string) returns (answer: string)
      ensures IsAnswerFor(answer, context)
    {
      var sentences := ContextSentences(context);
      var best := PickCloseMatch(question, sentences);
      answer := ExtractAnswer(sentences, best);
      ExtractAnswerIsAnswer(context, best);
    }

    /** `_generate_distractors`: a sample of `min(n, |pool|)` context sentences
        other than the answer, or `n` copies of the fallback text when there
        are none; a negative sample size fails. */
    method GenerateDistractors(correct: string, context: string, n: int) returns (r: Result<seq<string>, GenError>)
      ensures r.Failure? <==> SampleFails(correct, context, n)
      ensures r.Failure? ==> r.error == NegativeSampleSize
      ensures r.Success? ==> IsDistractorDraw(multiset(r.value), correct, context, n)
    {
      var pool := DistractorPool(context, correct);
      if pool != [] {
        var k := Min(n, |pool|);
        if k < 0 {
          return Failure(NegativeSampleSize);
        }
        var ds := Sample(pool, k);
        return Success(ds);
      }
      return Success(Repeat(FallbackDistractor, n));
    }

    /** One entry of `generate_multiple_choice_exam`: the answer, the
        distractors, and the options shuffled. */
    method BuildExamItem(questionText: string, chunkText: string, numOptions: int)
      returns (r: Result<ExamItem, GenError>)
      ensures r.Failure? ==> r.error == NegativeSampleSize && numOptions < 1
      ensures r.Success? ==> r.value.question == questionText && IsExamItemFor(r.value, chunkText, numOptions)
    {
      var answer := ExtractAnswerFromQuestion(questionText, chunkText);
      var distractors := GenerateDistractors(answer, chunkText, numOptions - 1);
      if distractors.Failure? {
        return Failure(distractors.error);
      }
      var options := Shuffle(distractors.value + [answer]);
      MakeExamItem(questionText, chunkText, numOptions, answer, distractors.value, options);
      return Success(ExamItem(questionText, options, answer));
    }

    /** One new question of a chunk becomes an exam entry built from that
        chunk. */
    method AddExamItem(exam: seq<ExamItem>, used: set<string>, ghost src: seq<nat>, ghost src0: seq<nat>,
                       ghost chunks: seq<string>, chunkIdx: nat, chunkText: string, questionText: string,
                       numOptions: int)
      returns (exam': seq<ExamItem>, used': set<string>, failed: Option<GenError>, ghost src': seq<nat>)
      requires chunkIdx < |chunks| && chunkText == chunks[chunkIdx]
      requires questionText in Texts(Generated(chunkText, 1, modelName, generator)) && questionText !in used
      requires ExamState(exam, used, src, chunks, chunkIdx, numOptions, modelName, generator)
      requires EarlierChunksAsked(used, chunks, chunkIdx, modelName, generator)
      requires src0 <= src && forall i :: |src0| <= i < |src| ==> src[i] == chunkIdx
      ensures failed.Some? ==> failed.value == NegativeSampleSize && numOptions < 1
      ensures failed.None? ==>
        && exam <= exam' && |exam'| == |exam| + 1
        && ExamQuestions(exam') == ExamQuestions(exam) + [questionText]
        && used' == used + {questionText}
        && ExamState(exam', used', src', chunks, chunkIdx, numOptions, modelName, generator)
        && EarlierChunksAsked(used', chunks, chunkIdx, modelName, generator)
        && src0 <= src' && forall i :: |src0| <= i < |src'| ==> src'[i] == chunkIdx
    {
      var item := BuildExamItem(questionText, chunkText, numOptions);
      if item.Failure? {
        return exam, used, Some(item.error), src;
      }
      ChunkEntryStep(src0, exam, used, src, chunks, chunkIdx, numOptions, modelName, generator, item.value);
      exam', used', failed, src' := exam + [item.value], used + {questionText}, None, src + [chunkIdx];
    }

    /** The loop over one chunk's questions in `generate_multiple_choice_exam`:
        each question not yet used becomes an entry, until the exam is full. */
    method AddExamItems(exam: seq<ExamItem>, used: set<string>, ghost src: seq<nat>,
                        ghost chunks: seq<string>, chunkIdx: nat, chunkText: string,
                        questions: seq<Question>, numQuestions: int, numOptions: int)
      returns (exam': seq<ExamItem>, used': set<string>, failed: Option<GenError>, ghost src': seq<nat>)
      requires chunkIdx < |chunks| && chunkText == chunks[chunkIdx]
      requires questions == Generated(chunkText, 1, modelName, generator)
      requires |exam| < numQuestions
      requires ExamState(exam, used, src, chunks, chunkIdx, numOptions, modelName, generator)
      requires EarlierChunksAsked(used, chunks, chunkIdx, modelName, generator)
      ensures failed.Some? ==> failed.value == NegativeSampleSize && numOptions < 1
      ensures failed.None? ==>
        && |exam'| <= numQuestions
        && ExamState(exam', used', src', chunks, chunkIdx, numOptions, modelName, generator)
        && exam <= exam'
        && ExamQuestions(exam') == TakeNew(ExamQuestions(exam), Texts(questions), numQuestions)
        && src <= src' && (forall i :: |src| <= i < |src'| ==> src'[i] == chunkIdx)
        && (|exam'| < numQuestions ==> forall t :: t in Texts(questions) ==> t in used')
        && (|exam'| < numQuestions ==> EarlierChunksAsked(used', chunks, chunkIdx + 1, modelName, generator))
    {
      exam', used', src' := exam, used, src;
      failed := None;
      ghost var ts := Texts(questions);
      var j := 0;
      while j < |questions|
        invariant j <= |questions|
        invariant |exam'| < numQuestions
        invariant ExamState(exam', used', src', chunks, chunkIdx, numOptions, modelName, generator)
        invariant exam <= exam'
        invariant TakeNew(ExamQuestions(exam'), ts[j..], numQuestions) == TakeNew(ExamQuestions(exam), ts, numQuestions)
        invariant src <= src' && forall i :: |src| <= i < |src'| ==> src'[i] == chunkIdx
        invariant EarlierChunksAsked(used', chunks, chunkIdx, modelName, generator)
      {
        var questionText := questions[j].text;
        TakeNewStep(ExamQuestions(exam'), ts[j..], numQuestions);
        assert ts[j..][0] == questionText && ts[j..][1..] == ts[j + 1..];
        if questionText in used' {
          j := j + 1;
          continue;
        }
        assert questionText in ts;
        var failedItem;
        exam', used', failedItem, src' :=
          AddExamItem(exam', used', src', src, chunks, chunkIdx, chunkText, questionText, numOptions);
        if failedItem.Some? {
          return exam', used', failedItem, src';
        }
        if |exam'| >= numQuestions {
          break;
        }
        j := j + 1;
      }
      assert j == |questions| ==> ts[j..] == [];
      if |exam'| < numQuestions {
        TakeNewShortTakesAll(ExamQuestions(exam), ts, numQuestions);
        assert forall t :: t in ts ==> t in ExamQuestions(exam');
        EarlierChunksAskedNext(used', used', chunks, chunkIdx, modelName, generator);
      }
    }

    /** `generate_multiple_choice_exam`: the text is cut into the chunks of a
        default processor, and chunk after chunk one question is asked for,
        until the exam holds `numQuestions` entries or the chunks run out. */
    method GenerateMultipleChoiceExam(text: string, numQuestions: int, numOptions: int, m: MemorySnapshot)
      returns (r: Result<seq<ExamItem>, GenError>, ghost src: seq<nat>)
      modifies this
      ensures r.Failure? ==>
        || (r.error == ModelLoadFailed && !old(pipelineLoaded) && !loadable)
        || (r.error == NegativeSampleSize && numOptions < 1)
      ensures (r.Failure? && r.error == ModelLoadFailed) <==>
        (!old(pipelineLoaded) && !loadable && 0 < numQuestions && ExamChunks(text, m) != [])
      ensures (old(pipelineLoaded) || loadable) && numOptions >= 1 ==> r.Success?
      ensures r.Success? ==>
        && |r.value| <= Max(0, numQuestions)
        && QuestionsDistinct(r.value)
        && ItemsFrom(r.value, src, ExamChunks(text, m), numOptions, modelName, generator)
        && ExamQuestions(r.value) == FirstNewQuestions(ExamChunks(text, m), numQuestions, modelName, generator)
      ensures pipelineLoaded == (old(pipelineLoaded) || (loadable && 0 < numQuestions && ExamChunks(text, m) != []))
    {
      var processor := new PdfProcessor(DefaultChunkSize, DefaultOverlap);
      DefaultChunkSizeExceedsOverlap(0, m);
      var chunks := processor.CreateTextChunks(text, m);
      ghost var allChunks := ExamChunks(text, m);
      assert chunks == allChunks;
      var exam: seq<ExamItem> := [];
      assert ExamQuestions(exam) == [];
      src := [];
      var used: set<string> := {};
      var chunkIdx := 0;
      while |exam| < numQuestions && chunkIdx < |chunks|
        invariant chunkIdx <= |chunks|
        invariant |exam| <= Max(0, numQuestions)
        invariant ExamState(exam, used, src, allChunks, chunkIdx, numOptions, modelName, generator)
        invariant ExamQuestionsFrom(allChunks, chunkIdx, numQuestions, modelName, generator, ExamQuestions(exam))
          == ExamQuestionsFrom(allChunks, 0, numQuestions, modelName, generator, [])
        invariant pipelineLoaded == (old(pipelineLoaded) || (loadable && chunkIdx > 0))
        invariant chunkIdx == 0 ==> exam == []
        invariant chunkIdx > 0 ==> 0 < numQuestions
        invariant chunkIdx > 0 ==> old(pipelineLoaded) || loadable
        invariant |exam| < numQuestions ==> EarlierChunksAsked(used, allChunks, chunkIdx, modelName, generator)
        decreases |chunks| - chunkIdx
      {
        var chunkText := chunks[chunkIdx];
        var questions := GenerateQuestionsFromText(chunkText, 1);
        if questions.Failure? {
          return Failure(questions.error), [];
        }
        var failed;
        exam, used, failed, src := AddExamItems(exam, used, src, allChunks, chunkIdx, chunkText,
                                                questions.value, numQuestions, numOptions);
        if failed.Some? {
          return Failure(failed.value), [];
        }
        chunkIdx := chunkIdx + 1;
      }
      ExamQuestionsFromIsPrefix(allChunks, 0, numQuestions, modelName, generator, []);
      r := Success(exam);
    }

    /** `grade_multiple_choice_exam`: one detail per zipped pair of entry and
        answer, the number right, the number of entries, and the
        percentage. */
    method GradeMultipleChoiceExam(exam: seq<ExamItem>, userAnswers: seq<string>) returns (g: Grade)
      ensures g.details == GradeDetails(exam, userAnswers)
      ensures g.correct == CountCorrect(g.details) && g.correct <= g.total
      ensures g.total == |exam|
      ensures g.score == Score(g.correct, g.total) && 0.0 <= g.score <= 100.0
    {
      var correct: nat := 0;
      var details: seq<Detail> := [];
      var n := Min(|exam|, |userAnswers|);
      for idx := 0 to n
        invariant |details| == idx
        invariant forall j :: 0 <= j < idx ==> details[j] == GradeOne(exam[j], userAnswers[j])
        invariant correct == CountCorrect(details)
      {
        var isCorrect := userAnswers[idx] == exam[idx].answer;
        if isCorrect {
          correct := correct + 1;
        }
        details := details + [Detail(exam[idx].question, userAnswers[idx], exam[idx].answer, isCorrect)];
        assert details[..idx] == details[..|details| - 1];
      }
      var total := |exam|;
      var score := Score(correct, total);
      ScoreRange(correct, total);
      g := Grade(score, correct, total, details);
    }
  }
}
