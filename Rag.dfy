/**
 * The retrieval-augmented answering policy of `RAGEngine` in
 * backend/app/services/rag_engine.py. The embedding, vector-search and
 * generation services are parameters: each either returns a value or raises,
 * and a raised error propagates out of the engine unchanged. Every run also
 * returns the calls it made to the services, in order, so that "no service
 * is called" and "the generator is not called" can be stated.
 */
module Rag {
  import opened Wrappers
  import opened Text
  import Validation

  /** Defaults of backend/app/config/settings.py. */
  const MaxTokens := 200
  const MaxQuestionLength := 1000
  const MinSelectionLength := 10

  /** How many segments each pipeline retrieves. */
  const DirectTopK := 5
  const SelectionTopK := 3

  const Separator := "\n\n"

  const QuestionEmpty := "Question cannot be empty"
  const QuestionTooLong := "Question is too long (maximum 1000 characters)"
  const NoSupport := "No supporting information found in the book."
  const SelectionTooShort := "Selected text is too short for meaningful context. Please select more text or ask a specific question."

  type Vector = seq<real>

  /** A retrieved segment: its id, its text, and the `source` entry of its metadata if there is one. */
  datatype Segment = Segment(id: string, content: string, source: Option<string>)

  /**
   * The external services: `embed` (`create_embedding`), `search`
   * (`search_similar_chunks` with `top_k`), `generate` (the generator's
   * answer for a question, a context and a token budget), and what the two
   * health probes report.
   */
  datatype Services = Services(
    embed: string -> Result<Vector, string>,
    search: (Vector, nat) -> Result<seq<Segment>, string>,
    generate: (string, string, nat) -> Result<string, string>,
    generatorUp: bool,
    indexUp: bool)

  /** One call to a service, with its arguments. */
  datatype Call =
    | Embed(text: string)
    | Search(query: Vector, topK: nat)
    | Generate(question: string, context: string, maxTokens: nat)

  /** What a run returns (or raises), and the service calls it made. */
  datatype Run<T> = Run(result: Result<T, string>, calls: seq<Call>)

  /** The `{"answer": ..., "sources": [...]}` of `generate_answer`. */
  datatype Answer = Answer(answer: string, sources: seq<string>)

  /** The source reference of a segment: `metadata["source"]`, else `"Chunk " + id`. */
  function Label(seg: Segment): string {
    match seg.source
    case Some(s) => s
    case None => "Chunk " + seg.id
  }

  /** Segments without a `source` get distinct labels exactly when their ids differ. */
  lemma LabelInjective(a: Segment, b: Segment)
    requires a.source.None? && b.source.None?
    ensures Label(a) == Label(b) <==> a.id == b.id
  {
    if Label(a) == Label(b) {
      var n := |"Chunk "|;
      assert a.id == Label(a)[n..] && b.id == Label(b)[n..];
    }
  }

  function Contents(segs: seq<Segment>): (r: seq<string>)
    ensures |r| == |segs| && forall i :: 0 <= i < |segs| ==> r[i] == segs[i].content
  {
    seq(|segs|, i requires 0 <= i < |segs| => segs[i].content)
  }

  function Labels(segs: seq<Segment>): (r: seq<string>)
    ensures |r| == |segs| && forall i :: 0 <= i < |segs| ==> r[i] == Label(segs[i])
  {
    seq(|segs|, i requires 0 <= i < |segs| => Label(segs[i]))
  }

  predicate Generated(calls: seq<Call>) {
    exists k :: 0 <= k < |calls| && calls[k].Generate?
  }

  // ---------------------------------------------------------------------
  // generate_answer
  // ---------------------------------------------------------------------

  /** What `generate_answer(question)` returns, and the calls it makes. */
  function DirectAnswer(svc: Services, question: string): (r: Run<Answer>)
    ensures |r.calls| <= 3
    ensures r.calls != [] ==> r.calls[0] == Embed(question)
    ensures r.result.Failure? ==> r.calls != []
  {
    if IsBlank(question) then Run(Success(Answer(QuestionEmpty, [])), [])
    else if |question| > MaxQuestionLength then Run(Success(Answer(QuestionTooLong, [])), [])
    else
      match svc.embed(question)
      case Failure(e) => Run(Failure(e), [Embed(question)])
      case Success(v) =>
        match svc.search(v, DirectTopK)
        case Failure(e) => Run(Failure(e), [Embed(question), Search(v, DirectTopK)])
        case Success(segs) =>
          if segs == [] then Run(Success(Answer(NoSupport, [])), [Embed(question), Search(v, DirectTopK)])
          else
            var context := Join(Contents(segs), Separator);
            var calls := [Embed(question), Search(v, DirectTopK), Generate(question, context, MaxTokens)];
            match svc.generate(question, context, MaxTokens)
            case Failure(e) => Run(Failure(e), calls)
            case Success(a) => Run(Success(Answer(a, Labels(segs))), calls)
  }

  /** `RAGEngine.generate_answer`. */
  method GenerateAnswer(svc: Services, question: string) returns (out: Run<Answer>)
    ensures out == DirectAnswer(svc, question)
  {
    if question == [] || |Strip(question)| == 0 {
      return Run(Success(Answer(QuestionEmpty, [])), []);
    }
    if |question| > MaxQuestionLength {
      return Run(Success(Answer(QuestionTooLong, [])), []);
    }
    var embedded := svc.embed(question);
    if embedded.Failure? {
      return Run(Failure(embedded.error), [Embed(question)]);
    }
    var v := embedded.value;
    var found := svc.search(v, DirectTopK);
    if found.Failure? {
      return Run(Failure(found.error), [Embed(question), Search(v, DirectTopK)]);
    }
    var segs := found.value;
    if segs == [] {
      return Run(Success(Answer(NoSupport, [])), [Embed(question), Search(v, DirectTopK)]);
    }
    var contextParts: seq<string> := [];
    var sources: seq<string> := [];
    for i := 0 to |segs|
      invariant |contextParts| == i && forall j :: 0 <= j < i ==> contextParts[j] == segs[j].content
      invariant |sources| == i && forall j :: 0 <= j < i ==> sources[j] == Label(segs[j])
    {
      contextParts := contextParts + [segs[i].content];
      sources := sources + [Label(segs[i])];
    }
    assert contextParts == Contents(segs);
    assert sources == Labels(segs);
    var context := Join(contextParts, Separator);
    var calls := [Embed(question), Search(v, DirectTopK), Generate(question, context, MaxTokens)];
    var response := svc.generate(question, context, MaxTokens);
    if response.Failure? {
      return Run(Failure(response.error), calls);
    }
    out := Run(Success(Answer(response.value, sources)), calls);
  }

  /**
   * The engine refuses exactly the questions `validate_question_text`
   * refuses, with the same message, and then calls no service.
   */
  lemma DirectRejection(svc: Services, question: string)
    ensures DirectAnswer(svc, question).calls == [] <==>
            Validation.ValidateQuestionText(question) != Validation.Valid
    ensures Validation.ValidateQuestionText(question) != Validation.Valid ==>
            DirectAnswer(svc, question).result ==
            Success(Answer(Validation.ValidateQuestionText(question).message, []))
  {
  }

  /**
   * A run that stops after the search has found nothing answers the fixed
   * "no supporting information" text and never calls the generator.
   */
  lemma NoSupportWithoutGeneration(svc: Services, question: string, v: Vector)
    requires Validation.ValidateQuestionText(question) == Validation.Valid
    requires svc.embed(question) == Success(v) && svc.search(v, DirectTopK) == Success([])
    ensures DirectAnswer(svc, question) == Run(Success(Answer(NoSupport, [])), [Embed(question), Search(v, DirectTopK)])
    ensures !Generated(DirectAnswer(svc, question).calls)
  {
    var calls := DirectAnswer(svc, question).calls;
    assert forall k :: 0 <= k < |calls| ==> !calls[k].Generate?;
  }

  /**
   * An answer cites sources exactly when the generator was called: a
   * generated answer rests on at least one retrieved segment.
   */
  lemma SourcesIffGenerated(svc: Services, question: string)
    requires DirectAnswer(svc, question).result.Success?
    ensures DirectAnswer(svc, question).result.value.sources != [] <==> Generated(DirectAnswer(svc, question).calls)
  {
    var out := DirectAnswer(svc, question);
    if |out.calls| == 3 {
      assert out.calls[2].Generate?;
    }
  }

  /**
   * With segments retrieved, the generator gets the question and the
   * contents joined by blank lines, its answer is returned unchanged (the
   * token check only logs), and there is one source per segment, in
   * retrieval order.
   */
  lemma DirectGeneration(svc: Services, question: string, v: Vector, segs: seq<Segment>)
    requires Validation.ValidateQuestionText(question) == Validation.Valid
    requires svc.embed(question) == Success(v) && svc.search(v, DirectTopK) == Success(segs) && segs != []
    ensures var context := Join(Contents(segs), Separator);
            var out := DirectAnswer(svc, question);
            && out.calls == [Embed(question), Search(v, DirectTopK), Generate(question, context, MaxTokens)]
            && StartsWith(context, segs[0].content)
            && (svc.generate(question, context, MaxTokens).Success? ==>
                  out.result == Success(Answer(svc.generate(question, context, MaxTokens).value, Labels(segs))))
            && (svc.generate(question, context, MaxTokens).Failure? ==>
                  out.result == Failure(svc.generate(question, context, MaxTokens).error))
  {
    JoinStartsWithFirst(Contents(segs), Separator);
  }

  /** A failing service ends the run with its error, and nothing is called after it. */
  lemma DirectFailures(svc: Services, question: string)
    requires Validation.ValidateQuestionText(question) == Validation.Valid
    ensures svc.embed(question).Failure? ==>
              DirectAnswer(svc, question) == Run(Failure(svc.embed(question).error), [Embed(question)])
    ensures svc.embed(question).Success? && svc.search(svc.embed(question).value, DirectTopK).Failure? ==>
              DirectAnswer(svc, question) ==
              Run(Failure(svc.search(svc.embed(question).value, DirectTopK).error),
                  [Embed(question), Search(svc.embed(question).value, DirectTopK)])
  {
  }

  // ---------------------------------------------------------------------
  // generate_answer_for_selection
  // ---------------------------------------------------------------------

  /** Python truthiness of an optional string: present and non-empty. */
  predicate Truthy(q: Option<string>) {
    q.Some? && q.value != []
  }

  const ExplainPrefix := "Can you explain this: "
  const RegardingPrefix := "Regarding this text: '"
  const RegardingJoint := "', "

  /** The question sent along with a selection. */
  function EffectiveQuestion(selection: string, question: Option<string>): (r: string)
  {
    if !Truthy(question) then ExplainPrefix + selection
    else
      var q := question.value;
      RegardingPrefix + selection + RegardingJoint + (if IsUpperChar(q[0]) then Lower(q) else q)
  }

  /** `chunk["content"] != selection and len(chunk["content"]) > 10`. */
  predicate Qualifies(seg: Segment, selection: string) {
    seg.content != selection && |seg.content| > 10
  }

  /** The contents of the retrieved segments that are added to the selection, in order. */
  function Qualifying(segs: seq<Segment>, selection: string): (r: seq<string>)
    ensures |r| <= |segs|
    decreases |segs|
  {
    if segs == [] then []
    else
      var last := segs[|segs| - 1];
      Qualifying(segs[..|segs| - 1], selection) + (if Qualifies(last, selection) then [last.content] else [])
  }

  /** The context handed to the generator with a selection. */
  function SelectionContext(selection: string, segs: seq<Segment>): string {
    Join([selection] + Qualifying(segs, selection), Separator)
  }

  /** The answer of a run of `generate_answer`, as `generate_answer_for_selection` takes it. */
  function AnswerText(r: Result<Answer, string>): Result<string, string> {
    match r
    case Success(a) => Success(a.answer)
    case Failure(e) => Failure(e)
  }

  /** What `generate_answer_for_selection(selection, question)` returns, and the calls it makes. */
  function SelectionAnswer(svc: Services, selection: string, question: Option<string>): (r: Run<string>)
    ensures |r.calls| <= 3
    ensures r.result.Failure? ==> r.calls != []
  {
    if |Strip(selection)| < MinSelectionLength then
      if Truthy(question) then
        var d := DirectAnswer(svc, question.value);
        Run(AnswerText(d.result), d.calls)
      else Run(Success(SelectionTooShort), [])
    else
      var eq := EffectiveQuestion(selection, question);
      var query := selection + " " + eq;
      match svc.embed(query)
      case Failure(e) => Run(Failure(e), [Embed(query)])
      case Success(v) =>
        match svc.search(v, SelectionTopK)
        case Failure(e) => Run(Failure(e), [Embed(query), Search(v, SelectionTopK)])
        case Success(segs) =>
          var context := SelectionContext(selection, segs);
          Run(svc.generate(eq, context, MaxTokens), [Embed(query), Search(v, SelectionTopK), Generate(eq, context, MaxTokens)])
  }

  /** The context loop of `generate_answer_for_selection`: the selection, then each qualifying segment. */
  method BuildContext(selection: string, segs: seq<Segment>) returns (context: string)
    ensures context == SelectionContext(selection, segs)
  {
    var contextParts := [selection];
    for i := 0 to |segs|
      invariant contextParts == [selection] + Qualifying(segs[..i], selection)
    {
      assert segs[..i + 1][..i] == segs[..i];
      if segs[i].content != selection && |segs[i].content| > 10 {
        contextParts := contextParts + [segs[i].content];
      }
    }
    assert segs[..|segs|] == segs;
    context := Join(contextParts, Separator);
  }

  /** `RAGEngine.generate_answer_for_selection`. */
  method GenerateAnswerForSelection(svc: Services, selection: string, question: Option<string>) returns (out: Run<string>)
    ensures out == SelectionAnswer(svc, selection, question)
  {
    if |Strip(selection)| < MinSelectionLength {
      if question.Some? && question.value != [] {
        var d := GenerateAnswer(svc, question.value);
        return Run(AnswerText(d.result), d.calls);
      }
      return Run(Success(SelectionTooShort), []);
    }
    var eq: string;
    if question.None? || question.value == [] {
      eq := ExplainPrefix + selection;
    } else {
      var q := question.value;
      eq := RegardingPrefix + selection + RegardingJoint + (if IsUpperChar(q[0]) then Lower(q) else q);
    }
    assert eq == EffectiveQuestion(selection, question);
    var query := selection + " " + eq;
    var embedded := svc.embed(query);
    if embedded.Failure? {
      return Run(Failure(embedded.error), [Embed(query)]);
    }
    var v := embedded.value;
    var found := svc.search(v, SelectionTopK);
    if found.Failure? {
      return Run(Failure(found.error), [Embed(query), Search(v, SelectionTopK)]);
    }
    var context := BuildContext(selection, found.value);
    var calls := [Embed(query), Search(v, SelectionTopK), Generate(eq, context, MaxTokens)];
    var response := svc.generate(eq, context, MaxTokens);
    out := Run(response, calls);
  }

  /** ASCII lower-casing twice is lower-casing once. */
  lemma LowerIdempotent(s: string)
    ensures Lower(Lower(s)) == Lower(s)
  {
  }

  /**
   * The rewritten question: without a question it asks to explain the
   * selection; with one it quotes the selection and then carries the
   * question, the same up to case, lower-cased throughout when it began with
   * a capital.
   */
  lemma RewrittenQuestion(selection: string, question: Option<string>)
    ensures !Truthy(question) ==> EffectiveQuestion(selection, question) == ExplainPrefix + selection
    ensures Truthy(question) ==>
              var r := EffectiveQuestion(selection, question);
              var head := RegardingPrefix + selection + RegardingJoint;
              var q := question.value;
              && StartsWith(r, head)
              && |r| == |head| + |q|
              && Lower(r[|head|..]) == Lower(q)
              && (IsUpperChar(q[0]) ==> forall i :: |head| <= i < |r| ==> !IsUpperChar(r[i]))
              && (!IsUpperChar(q[0]) ==> r[|head|..] == q)
  {
    if Truthy(question) {
      var r := EffectiveQuestion(selection, question);
      var head := RegardingPrefix + selection + RegardingJoint;
      var q := question.value;
      var tail := if IsUpperChar(q[0]) then Lower(q) else q;
      assert r == head + tail;
      assert r[..|head|] == head;
      assert r[|head|..] == tail;
      LowerIdempotent(q);
      LowerHasNoCapital(q);
    }
  }

  /** A content is added to the context exactly when some retrieved segment with that content qualifies. */
  lemma {:induction false} QualifyingMembers(segs: seq<Segment>, selection: string, x: string)
    ensures x in Qualifying(segs, selection) <==>
            exists i :: 0 <= i < |segs| && segs[i].content == x && Qualifies(segs[i], selection)
    decreases |segs|
  {
    if segs != [] {
      var init := segs[..|segs| - 1];
      QualifyingMembers(init, selection, x);
      if x in Qualifying(init, selection) {
        var i :| 0 <= i < |init| && init[i].content == x && Qualifies(init[i], selection);
        assert segs[i] == init[i];
      }
      if exists i :: 0 <= i < |segs| && segs[i].content == x && Qualifies(segs[i], selection) {
        var i :| 0 <= i < |segs| && segs[i].content == x && Qualifies(segs[i], selection);
        if i < |init| {
          assert init[i] == segs[i];
        }
      }
    }
  }

  /** Nothing is added exactly when no retrieved segment qualifies. */
  lemma {:induction false} QualifyingEmpty(segs: seq<Segment>, selection: string)
    ensures Qualifying(segs, selection) == [] <==> forall i :: 0 <= i < |segs| ==> !Qualifies(segs[i], selection)
    decreases |segs|
  {
    if segs != [] {
      var init := segs[..|segs| - 1];
      QualifyingEmpty(init, selection);
      assert forall i :: 0 <= i < |init| ==> init[i] == segs[i];
    }
  }

  /**
   * The selection context begins with the selection, and it is the selection
   * alone exactly when no retrieved segment qualifies.
   */
  lemma SelectionContextShape(selection: string, segs: seq<Segment>)
    ensures StartsWith(SelectionContext(selection, segs), selection)
    ensures SelectionContext(selection, segs) == selection <==>
            forall i :: 0 <= i < |segs| ==> !Qualifies(segs[i], selection)
  {
    var extra := Qualifying(segs, selection);
    JoinStartsWithFirst([selection] + extra, Separator);
    QualifyingEmpty(segs, selection);
    if extra != [] {
      JoinCons(selection, extra, Separator);
      assert |SelectionContext(selection, segs)| >= |selection| + |Separator|;
    }
  }

  /**
   * A selection shorter than 10 characters once stripped falls back on the
   * direct pipeline when there is a question, and otherwise answers the fixed
   * "too short" text without calling any service.
   */
  lemma ShortSelection(svc: Services, selection: string, question: Option<string>)
    requires |Strip(selection)| < MinSelectionLength
    ensures Truthy(question) ==>
              SelectionAnswer(svc, selection, question).calls == DirectAnswer(svc, question.value).calls
              && SelectionAnswer(svc, selection, question).result == AnswerText(DirectAnswer(svc, question.value).result)
    ensures !Truthy(question) ==> SelectionAnswer(svc, selection, question) == Run(Success(SelectionTooShort), [])
  {
  }

  /**
   * A long enough selection is always sent to the generator, even when the
   * search finds nothing: the query is the selection followed by the
   * rewritten question, at most 3 segments are asked for, the context starts
   * with the selection, and the generator's answer is returned unchanged.
   */
  lemma SelectionGeneration(svc: Services, selection: string, question: Option<string>, v: Vector, segs: seq<Segment>)
    requires |Strip(selection)| >= MinSelectionLength
    requires svc.embed(selection + " " + EffectiveQuestion(selection, question)) == Success(v)
    requires svc.search(v, SelectionTopK) == Success(segs)
    ensures var eq := EffectiveQuestion(selection, question);
            var context := SelectionContext(selection, segs);
            var out := SelectionAnswer(svc, selection, question);
            && out.calls == [Embed(selection + " " + eq), Search(v, SelectionTopK), Generate(eq, context, MaxTokens)]
            && StartsWith(context, selection)
            && (segs == [] ==> context == selection)
            && out.result == svc.generate(eq, context, MaxTokens)
  {
    SelectionContextShape(selection, segs);
  }

  /**
   * With a long enough selection, a failing embedding or search ends the run
   * with its error, and no service is called after it.
   */
  lemma SelectionFailures(svc: Services, selection: string, question: Option<string>)
    requires |Strip(selection)| >= MinSelectionLength
    ensures var query := selection + " " + EffectiveQuestion(selection, question);
            svc.embed(query).Failure? ==>
              SelectionAnswer(svc, selection, question) == Run(Failure(svc.embed(query).error), [Embed(query)])
    ensures var query := selection + " " + EffectiveQuestion(selection, question);
            svc.embed(query).Success? && svc.search(svc.embed(query).value, SelectionTopK).Failure? ==>
              SelectionAnswer(svc, selection, question) ==
              Run(Failure(svc.search(svc.embed(query).value, SelectionTopK).error),
                  [Embed(query), Search(svc.embed(query).value, SelectionTopK)])
  {
  }

  // ---------------------------------------------------------------------
  // health_check
  // ---------------------------------------------------------------------

  /** The `{"cohere_api", "qdrant_db", "overall"}` report. */
  datatype Health = Health(cohereApi: bool, qdrantDb: bool, overall: bool)

  /** `RAGEngine.health_check`: the probes catch their own errors, so it never raises. */
  function HealthCheck(svc: Services): (h: Health)
    ensures h.cohereApi == svc.generatorUp && h.qdrantDb == svc.indexUp
    ensures h.overall <==> h.cohereApi && h.qdrantDb
  {
    Health(svc.generatorUp, svc.indexUp, svc.generatorUp && svc.indexUp)
  }
}
