/**
 * The command-line flow of `generate_questions_cli`: the checks that end the
 * run with status 1, the loop that gathers questions chunk by chunk, and the
 * decisions about saving them. Console prompts come in as the strings the
 * user typed; printing and writing files are not modelled.
 */
module Cli {
  import opened Wrappers
  import opened Text
  import opened MemoryOptimizer
  import opened PdfExtraction
  import opened PdfChunking
  import opened PdfStreaming
  import opened QuestionRules
  import opened QuestionGeneration

  // ---------------------------------------------------------------------------
  // Command-line defaults
  // ---------------------------------------------------------------------------

  /** The default of `--model`. */
  const CliDefaultModel: string := "distilgpt2"

  /** The default of `--num-questions`. */
  const CliDefaultCount: int := 10

  /** `--model` only accepts supported names, but its own default is not one
      of them: a run without `--model` falls back to the Spanish default
      model, and at the default count asks two questions per chunk. */
  lemma CliDefaultsResolve()
    ensures ResolveModelName(Some(CliDefaultModel)) == DefaultModel
    ensures LanguageOf(ResolveModelName(Some(CliDefaultModel))) == Spanish
    ensures QuotaPerChunk(CliDefaultCount) == 2
  {
    assert CliDefaultModel[0] == 'd';
    assert DefaultModel[0] == SpanishPrefix[0] == 'm';
    assert "t5-small"[0] == 't';
    assert "iarfmoose/t5-base-question-generator"[0] == 'i';
    SupportedLanguages();
  }

  // ---------------------------------------------------------------------------
  // Gathering questions
  // ---------------------------------------------------------------------------

  /** Questions asked per chunk: `min(3, max(1, n // 5))` (Dafny's `/` floors
      like Python's `//` for a positive divisor). */
  function QuotaPerChunk(n: int): (q: int)
    ensures 1 <= q <= 3
  {
    Min(3, Max(1, n / 5))
  }

  /** One question per chunk below 10 requested, two from 10 to 14, three
      from 15 on. */
  lemma QuotaSteps(n: int)
    ensures n < 10 ==> QuotaPerChunk(n) == 1
    ensures 10 <= n < 15 ==> QuotaPerChunk(n) == 2
    ensures 15 <= n ==> QuotaPerChunk(n) == 3
  {
  }

  /** Python's `xs[:n]`: the first `n` elements, or for a negative `n` all but
      the last `-n`. */
  function SlicePrefix(xs: seq<Question>, n: int): seq<Question> {
    if n >= 0 then xs[..Min(n, |xs|)] else xs[..Max(0, |xs| + n)]
  }

  /** The outputs, in order, concatenated. */
  function Flatten(outs: seq<seq<Question>>): seq<Question> {
    if outs == [] then [] else outs[0] + Flatten(outs[1..])
  }

  /** The loop over the chunk outputs `outs`, with the questions gathered so
      far: each output is appended, and once `n` are gathered the list is cut
      to `[:n]` and the loop stops. */
  function Aggregated(outs: seq<seq<Question>>, n: int, acc: seq<Question>): seq<Question> {
    if outs == [] then acc
    else
      var acc' := acc + outs[0];
      if |acc'| >= n then SlicePrefix(acc', n) else Aggregated(outs[1..], n, acc')
  }

  /** How many chunks that loop pulls from the stream. */
  function Pulled(outs: seq<seq<Question>>, n: int, acc: seq<Question>): (k: nat)
    ensures k <= |outs|
  {
    if outs == [] then 0
    else if |acc + outs[0]| >= n then 1
    else 1 + Pulled(outs[1..], n, acc + outs[0])
  }

  /** The texts of the chunk records, in order. */
  function RecordTexts(records: seq<ChunkRecord>): (ts: seq<string>)
    ensures |ts| == |records|
    ensures forall i :: 0 <= i < |records| ==> ts[i] == records[i].text
  {
    seq(|records|, i requires 0 <= i < |records| => records[i].text)
  }

  /** What the generator returns for each chunk at the per-chunk quota. */
  function ChunkOutputs(chunks: seq<string>, n: int, model: string, gen: string -> seq<string>): (outs: seq<seq<Question>>)
    ensures |outs| == |chunks|
    ensures forall i :: 0 <= i < |chunks| ==> outs[i] == Generated(chunks[i], QuotaPerChunk(n), model, gen)
  {
    seq(|chunks|, i requires 0 <= i < |chunks| => Generated(chunks[i], QuotaPerChunk(n), model, gen))
  }

  /** For `n >= 0` the loop keeps exactly the first `n` questions of all the
      outputs in chunk order, or all of them when the chunks run out first. */
  lemma {:induction false} AggregatedIsPrefix(outs: seq<seq<Question>>, n: int, acc: seq<Question>)
    requires 0 <= n && |acc| <= n
    ensures Aggregated(outs, n, acc) == (acc + Flatten(outs))[..Min(n, |acc + Flatten(outs)|)]
  {
    if outs != [] {
      var acc' := acc + outs[0];
      assert acc + Flatten(outs) == acc' + Flatten(outs[1..]);
      if |acc'| < n {
        AggregatedIsPrefix(outs[1..], n, acc');
      } else {
        assert (acc' + Flatten(outs[1..]))[..n] == acc'[..n];
      }
    }
  }

  /** The loop pulls no chunk once `n` questions are gathered: before the
      last chunk it pulled fewer than `n` had been gathered, and when it
      stops early `n` have been. */
  lemma {:induction false} PulledStopsAtCount(outs: seq<seq<Question>>, n: int, acc: seq<Question>)
    ensures forall k :: 1 <= k < Pulled(outs, n, acc) ==> |acc + Flatten(outs[..k])| < n
    ensures Pulled(outs, n, acc) < |outs| ==>
      1 <= Pulled(outs, n, acc) && |acc + Flatten(outs[..Pulled(outs, n, acc)])| >= n
    ensures outs != [] ==> 1 <= Pulled(outs, n, acc)
  {
    if outs != [] {
      var acc' := acc + outs[0];
      if |acc'| < n {
        PulledStopsAtCount(outs[1..], n, acc');
        forall k | 1 <= k <= |outs|
          ensures acc + Flatten(outs[..k]) == acc' + Flatten(outs[1..][..k - 1])
        {
          assert outs[..k][0] == outs[0];
          assert outs[..k][1..] == outs[1..][..k - 1];
        }
      } else {
        assert outs[..1] == [outs[0]];
        assert Flatten(outs[..1]) == outs[0] + Flatten([]);
      }
    }
  }

  /** A negative count keeps the first chunk's questions minus the last
      `-n` of them, and pulls no further chunk. */
  lemma NegativeCountTruncatesFirstChunk(outs: seq<seq<Question>>, n: int)
    requires n < 0 && outs != []
    ensures Aggregated(outs, n, []) == outs[0][..Max(0, |outs[0]| + n)]
    ensures Pulled(outs, n, []) == 1
  {
    assert [] + outs[0] == outs[0];
  }

  /** The aggregation loop of `generate_questions_cli` over the chunk
      records, with the model loaded; returns the questions and the number of
      chunks pulled. */
  method AggregateQuestions(qg: QuestionGenerator, records: seq<ChunkRecord>, n: int)
    returns (allQuestions: seq<Question>, chunkCount: nat)
    requires qg.pipelineLoaded
    modifies qg
    ensures qg.pipelineLoaded
    ensures allQuestions == Aggregated(ChunkOutputs(RecordTexts(records), n, qg.modelName, qg.generator), n, [])
    ensures chunkCount == Pulled(ChunkOutputs(RecordTexts(records), n, qg.modelName, qg.generator), n, [])
  {
    ghost var outs := ChunkOutputs(RecordTexts(records), n, qg.modelName, qg.generator);
    allQuestions := [];
    chunkCount := 0;
    while chunkCount < |records|
      invariant chunkCount <= |records|
      invariant qg.pipelineLoaded
      invariant Aggregated(outs[chunkCount..], n, allQuestions) == Aggregated(outs, n, [])
      invariant chunkCount + Pulled(outs[chunkCount..], n, allQuestions) == Pulled(outs, n, [])
    {
      assert outs[chunkCount..][1..] == outs[chunkCount + 1..];
      var chunkText := records[chunkCount].text;
      chunkCount := chunkCount + 1;
      var questionsPerChunk := QuotaPerChunk(n);
      var chunkQuestions := qg.GenerateQuestionsFromText(chunkText, questionsPerChunk);
      if chunkQuestions.value != [] {
        allQuestions := allQuestions + chunkQuestions.value;
      } else {
        assert allQuestions + chunkQuestions.value == allQuestions;
      }
      if |allQuestions| >= n {
        allQuestions := SlicePrefix(allQuestions, n);
        return;
      }
    }
  }

  // ---------------------------------------------------------------------------
  // Saving
  // ---------------------------------------------------------------------------

  /** The answers to "save?" that mean yes, once stripped and lower-cased. */
  predicate AcceptsSave(response: string) {
    Lower(Strip(response)) in {"s", "si", "sí", "y", "yes"}
  }

  /** Surrounding whitespace does not change the answer, and an empty answer
      means no. */
  lemma AcceptsSaveIgnoresSpace(response: string)
    ensures AcceptsSave(response) <==> AcceptsSave(Strip(response))
    ensures !AcceptsSave("")
  {
    StripIdempotent(response);
    assert Lower(Strip("")) == [];
  }

  /** The name offered by default: "preguntas_" + the PDF's stem + ".txt". */
  function DefaultOutputName(pdfPath: string): string {
    "preguntas_" + PathStem(pdfPath) + ".txt"
  }

  /** `Path(dir) / name`: an absolute name replaces the directory. */
  function JoinPath(dir: string, name: string): string {
    if name != [] && name[0] == '/' then name else dir + "/" + name
  }

  datatype OutputFormat = PdfFile | TextFile

  /** `save_questions_to_file` writes a PDF exactly when the lower-cased
      suffix is ".pdf", and text otherwise. */
  function FormatFor(path: string): OutputFormat {
    if Lower(PathSuffix(path)) == ".pdf" then PdfFile else TextFile
  }

  /** A plain name ending in ".pdf", in any letter case, after at least one
      other character is written as a PDF when joined under a directory. */
  lemma PdfNameIsPdf(dir: string, name: string)
    requires '/' !in name && |name| > 4 && Lower(name[|name| - 4..]) == ".pdf"
    ensures FormatFor(dir + "/" + name) == PdfFile
  {
    var k := |name| - 4;
    var ext := name[k..];
    assert LowerChar(ext[0]) == '.' && LowerChar(ext[1]) == 'p';
    assert LowerChar(ext[2]) == 'd' && LowerChar(ext[3]) == 'f';
    assert name[k] == '.' && name[k + 1] != '.' && name[k + 2] != '.' && name[k + 3] != '.';
    assert name != ".";
    JoinedPathName(dir, name);
    assert LastIndexOf(name, '.') == k;
    assert PathSuffix(dir + "/" + name) == ext;
  }

  /** Where and how the questions are saved. */
  datatype SaveTarget = SaveTarget(path: string, format: OutputFormat)

  /** The file name used under "output": the typed one, stripped, or the
      default when that is empty. */
  function ChosenOutputName(pdfPath: string, typedName: string): string {
    var t := Strip(typedName);
    if t == [] then DefaultOutputName(pdfPath) else t
  }

  /** The save step: the output path given on the command line, else (when
      there are questions and the user says yes) the chosen name under
      "output"; nothing otherwise. */
  function SaveDecision(output: string, questions: seq<Question>, pdfPath: string,
                        response: string, typedName: string): (d: Option<SaveTarget>)
    ensures d.Some? ==> d.value.format == FormatFor(d.value.path)
  {
    if output != [] then Some(SaveTarget(output, FormatFor(output)))
    else if |questions| > 0 && AcceptsSave(response) then
      var path := JoinPath("output", ChosenOutputName(pdfPath, typedName));
      Some(SaveTarget(path, FormatFor(path)))
    else None
  }

  /** The user is asked only when no output path was given and there is at
      least one question; a given path is always used. On a yes, a name
      typed at the second prompt is used, stripped, under "output"; a blank
      one gives the default text file "output/preguntas_<stem>.txt". */
  lemma SaveDecisionCases(output: string, questions: seq<Question>, pdfPath: string,
                          response: string, typedName: string)
    ensures output != [] ==> SaveDecision(output, questions, pdfPath, response, typedName) == Some(SaveTarget(output, FormatFor(output)))
    ensures output == [] && questions == [] ==> SaveDecision(output, questions, pdfPath, response, typedName).None?
    ensures output == [] && !AcceptsSave(response) ==> SaveDecision(output, questions, pdfPath, response, typedName).None?
    ensures output == [] && questions != [] && AcceptsSave(response) && Strip(typedName) != [] ==>
      var path := JoinPath("output", Strip(typedName));
      SaveDecision(output, questions, pdfPath, response, typedName) == Some(SaveTarget(path, FormatFor(path)))
    ensures output == [] && questions != [] && AcceptsSave(response) && Strip(typedName) == [] ==>
      SaveDecision(output, questions, pdfPath, response, typedName)
        == Some(SaveTarget("output/" + DefaultOutputName(pdfPath), TextFile))
  {
    DefaultFileIsText(pdfPath);
  }

  /** A plain name ending in ".txt" after at least one other character is
      written as text when joined under a directory. */
  lemma TxtNameIsText(dir: string, name: string)
    requires '/' !in name && |name| > 4 && name[|name| - 4..] == ".txt"
    ensures FormatFor(dir + "/" + name) == TextFile
  {
    var k := |name| - 4;
    assert name[k] == '.' && name[k + 1] == 't' && name[k + 2] == 'x' && name[k + 3] == 't';
    assert name != ".";
    JoinedPathName(dir, name);
    assert LastIndexOf(name, '.') == k;
    assert PathSuffix(dir + "/" + name) == ".txt";
    assert Lower(".txt")[1] == 't';
  }

  /** The default file always lands in "output" as a text file. */
  lemma DefaultFileIsText(pdfPath: string)
    ensures JoinPath("output", DefaultOutputName(pdfPath)) == "output/" + DefaultOutputName(pdfPath)
    ensures FormatFor(JoinPath("output", DefaultOutputName(pdfPath))) == TextFile
  {
    var stem := PathStem(pdfPath);
    var name := DefaultOutputName(pdfPath);
    PathStemHasNoSlash(pdfPath);
    assert '/' !in name by {
      forall j | 0 <= j < |name| ensures name[j] != '/' {
        if j < 10 {
          assert name[j] == "preguntas_"[j];
        } else if j < 10 + |stem| {
          assert name[j] == stem[j - 10];
        } else {
          assert name[j] == ".txt"[j - 10 - |stem|];
        }
      }
    }
    assert name[|name| - 4..] == ".txt";
    assert name[0] == 'p';
    TxtNameIsText("output", name);
    assert "output/" + name == "output" + "/" + name;
  }

  // ---------------------------------------------------------------------------
  // The whole command
  // ---------------------------------------------------------------------------

  /** How a run ends: an exit status, or the questions and where they are
      saved. */
  datatype CliOutcome = Exit(code: int) | Completed(questions: seq<Question>, saveTo: Option<SaveTarget>)

  /** The chunks of the document under a default processor. */
  function CliChunks(doc: PdfDocument, m: MemorySnapshot): seq<string>
    requires ExtractedText(doc).Success?
  {
    DefaultChunkSizeExceedsOverlap(0, m);
    TextChunks(ExtractedText(doc).value, GetOptimalChunkSizeAsWritten(0, DefaultChunkSize, m), DefaultOverlap)
  }

  /** `generate_questions_cli`: a missing file, an invalid PDF, a model that
      does not load, or a failure while streaming ends the run with status 1;
      otherwise the gathered questions and the save decision. `output` is ""
      when no output path was given; `saveResponse` and `typedName` are what
      the user types at the two prompts. */
  method GenerateQuestionsCli(pdfPath: string, doc: PdfDocument, requestedModel: Option<string>, numQuestions: int,
                              output: string, loadable: bool, generator: string -> seq<string>,
                              m: MemorySnapshot, saveResponse: string, typedName: string)
    returns (outcome: CliOutcome)
    ensures !ValidatePdf(pdfPath, doc) ==> outcome == Exit(1)
    ensures ValidatePdf(pdfPath, doc) && !loadable ==> outcome == Exit(1)
    ensures ValidatePdf(pdfPath, doc) && loadable && ExtractedText(doc).Failure? ==> outcome == Exit(1)
    ensures ValidatePdf(pdfPath, doc) && loadable && ExtractedText(doc).Success? ==>
      var qs := Aggregated(ChunkOutputs(CliChunks(doc, m), numQuestions, ResolveModelName(requestedModel), generator),
                           numQuestions, []);
      outcome == Completed(qs, SaveDecision(output, qs, pdfPath, saveResponse, typedName))
  {
    if !doc.present {
      return Exit(1);
    }
    var processor := new PdfProcessor(DefaultChunkSize, DefaultOverlap);
    if !ValidatePdf(pdfPath, doc) {
      return Exit(1);
    }
    var questionGenerator := new QuestionGenerator(requestedModel, loadable, generator);
    var loaded := questionGenerator.LoadModel();
    if !loaded {
      return Exit(1);
    }
    DefaultChunkSizeExceedsOverlap(0, m);
    var records, _ := processor.ProcessPdfStreaming(doc, m);
    if records.Failure? {
      return Exit(1);
    }
    assert RecordTexts(records.value) == CliChunks(doc, m);
    var allQuestions, _ := AggregateQuestions(questionGenerator, records.value, numQuestions);
    return Completed(allQuestions, SaveDecision(output, allQuestions, pdfPath, saveResponse, typedName));
  }
}
