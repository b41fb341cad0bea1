/** The 'message' handler (bot.js, lines 125-147): what one incoming message
    causes, as the ordered list of replies sent and model requests issued,
    against a store that does not change while the message is handled. */
module Handler {
  import opened Results
  import opened Text
  import opened Commands
  import opened Knowledge
  import opened Answers

  /** The reply to a command with nothing after it. */
  const AskQuestionText: string := "Por favor, forneça uma pergunta após o comando `!ia`."

  /** The reply sent before the answer is generated. */
  const AcknowledgementText: string := "Analisando os manuais e preparando sua resposta... \U{1F916}"

  /** An observable effect of handling a message. */
  datatype Effect =
    | Reply(text: string)     // `msg.reply(text)` to the sender
    | Call(request: Request)  // a request issued to the model service

  /** The texts replied, in the order sent. */
  function Replies(effects: seq<Effect>): seq<string> {
    if |effects| == 0 then []
    else (if effects[0].Reply? then [effects[0].text] else []) + Replies(effects[1..])
  }

  /** The model requests issued, in order. */
  function Calls(effects: seq<Effect>): seq<Request> {
    if |effects| == 0 then []
    else (if effects[0].Call? then [effects[0].request] else []) + Calls(effects[1..])
  }

  /** The handling of a command with a non-empty question: the acknowledgement,
      then whatever `generateAnswer` does, then its answer. */
  function Respond(question: string, store: string, model: Model): (effects: seq<Effect>)
    ensures |effects| >= 2 && effects[0] == Reply(AcknowledgementText)
    ensures effects[|effects| - 1] == Reply(GenerateAnswer(store, question, model).answer)
  {
    var g := GenerateAnswer(store, question, model);
    [Reply(AcknowledgementText)] + seq(|g.requests|, i requires 0 <= i < |g.requests| => Call(g.requests[i]))
      + [Reply(g.answer)]
  }

  /** Handles one message: nothing for a non-command, the request for a question
      for an empty argument, and otherwise the response to the question. */
  function OnMessage(body: Option<string>, store: string, model: Model): (effects: seq<Effect>)
    ensures effects == [] <==> !(body.Some? && Triggers(body.value))
    ensures Classify(body).EmptyArgument? ==> effects == [Reply(AskQuestionText)]
    ensures Classify(body).Command? ==> effects == Respond(Classify(body).question, store, model)
  {
    match Classify(body)
    case Ignore => []
    case EmptyArgument => [Reply(AskQuestionText)]
    case Command(question) => Respond(question, store, model)
  }

  /** The response carries exactly two replies, the acknowledgement first; the
      model is asked at most once, strictly between them, and only when the
      store is loaded. */
  lemma RespondShape(question: string, store: string, model: Model)
    ensures var effects := Respond(question, store, model);
      && Replies(effects) == [AcknowledgementText, GenerateAnswer(store, question, model).answer]
      && (store == Unloaded ==> Calls(effects) == [])
      && (store != Unloaded ==> Calls(effects) == [Request(ModelName, question, store)])
      && (forall i :: 0 <= i < |effects| && effects[i].Call? ==> 0 < i < |effects| - 1)
  {
    var g := GenerateAnswer(store, question, model);
    var effects := Respond(question, store, model);
    if store == Unloaded {
      assert effects == [Reply(AcknowledgementText), Reply(g.answer)];
      var rest := effects[1..];
      assert rest == [Reply(g.answer)] && rest[1..] == [];
      assert Replies(rest[1..]) == [] && Calls(rest[1..]) == [];
      assert Replies(rest) == [g.answer] && Calls(rest) == [];
    } else {
      assert effects == [Reply(AcknowledgementText), Call(g.requests[0]), Reply(g.answer)];
      assert effects[1..] == [Call(g.requests[0]), Reply(g.answer)];
      var rest := effects[1..];
      assert rest[1..] == [Reply(g.answer)];
      assert rest[1..][1..] == [];
      assert Replies(rest[1..]) == [g.answer] && Calls(rest[1..]) == [];
      assert Replies(rest) == [g.answer] && Calls(rest) == [g.requests[0]];
    }
  }

  /** A message with a question is answered by exactly two replies, the
      acknowledgement first; the model is asked at most once, strictly between
      them, and only when the store is loaded. */
  lemma CommandShape(body: string, store: string, model: Model)
    requires HasQuestion(body)
    ensures var q := Argument(body);
      var effects := OnMessage(Some(body), store, model);
      && Replies(effects) == [AcknowledgementText, GenerateAnswer(store, q, model).answer]
      && (store == Unloaded ==> Calls(effects) == [])
      && (store != Unloaded ==> Calls(effects) == [Request(ModelName, q, store)])
      && (forall i :: 0 <= i < |effects| && effects[i].Call? ==> 0 < i < |effects| - 1)
  {
    CommandOfArgument(body);
    RespondShape(Argument(body), store, model);
  }

  /** Even an unloaded store gets the acknowledgement before the not-loaded text. */
  lemma UnloadedStillAcknowledges(body: string, model: Model)
    requires HasQuestion(body)
    ensures OnMessage(Some(body), Unloaded, model)
         == [Reply(AcknowledgementText), Reply(NotLoadedText)]
  {
    CommandOfArgument(body);
  }

  /** With a loaded store the model's text comes back verbatim as the second
      reply, and a failure as the apology. */
  lemma LoadedAnswer(body: string, store: string, model: Model)
    requires HasQuestion(body)
    requires store != Unloaded
    ensures var request := Request(ModelName, Argument(body), store);
      var effects := OnMessage(Some(body), store, model);
      && |effects| == 3
      && effects[0] == Reply(AcknowledgementText)
      && effects[1] == Call(request)
      && (model(request).Ok? ==> effects[2] == Reply(model(request).value))
      && (model(request).Err? ==> effects[2] == Reply(ApologyText))
  {
    CommandOfArgument(body);
  }

  /** The number of replies a message draws: none for a non-command, one for a
      command with only whitespace after it, two for a question. */
  lemma ReplyCount(body: Option<string>, store: string, model: Model)
    ensures var n := |Replies(OnMessage(body, store, model))|;
      && (n == 0 <==> !(body.Some? && Triggers(body.value)))
      && (n == 1 <==> body.Some? && Triggers(body.value) && AllWhitespace(body.value[|CommandPrefix|..]))
      && (n == 2 <==> body.Some? && HasQuestion(body.value))
  {
    var effects := OnMessage(body, store, model);
    if body.Some? && HasQuestion(body.value) {
      CommandShape(body.value, store, model);
    } else if body.Some? && Triggers(body.value) {
      assert Replies(effects) == [AskQuestionText];
    }
  }

  /** After an ingestion that completes, no question meets the not-loaded
      fallback: each one issues exactly one request, grounded on the context. */
  lemma AfterIngestion(store: string, dir: Directory, extract: Extractor, body: string, model: Model)
    requires dir == Inaccessible(None) || (dir.Accessible? && dir.listing.Ok?)
    requires HasQuestion(body)
    ensures GetKnowledgeContext(dir, extract).Ok?
    ensures Calls(OnMessage(Some(body), OnReady(store, dir, extract), model))
         == [Request(ModelName, Argument(body), GetKnowledgeContext(dir, extract).value)]
  {
    CommandShape(body, OnReady(store, dir, extract), model);
  }

  /** An ingestion whose exception the 'ready' handler swallows leaves an
      unloaded store unloaded: every question is then answered with the
      not-loaded text and the model is never asked. */
  lemma FailedIngestion(dir: Directory, extract: Extractor, body: string, model: Model)
    requires (dir.Inaccessible? && dir.mkdirFailure.Some?) || (dir.Accessible? && dir.listing.Err?)
    requires HasQuestion(body)
    ensures var effects := OnMessage(Some(body), OnReady(Unloaded, dir, extract), model);
      Replies(effects) == [AcknowledgementText, NotLoadedText] && Calls(effects) == []
  {
    CommandShape(body, Unloaded, model);
  }
}
