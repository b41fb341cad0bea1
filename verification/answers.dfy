/** Answer generation: asking the language model, grounded on the stored
    context, or falling back to a fixed text (bot.js, `generateAnswer`, lines 70-88). */
module Answers {
  import opened Results
  import opened Knowledge

  /** The model every request names. */
  const ModelName: string := "gemini-2.5-flash"

  /** The answer while the store is still unloaded. */
  const NotLoadedText: string := "A base de conhecimento ainda não foi carregada. Por favor, aguarde a inicialização ser concluída."

  /** The answer when the model call fails. */
  const ApologyText: string := "Desculpe, não consegui processar sua pergunta no momento. Ocorreu um erro com a IA."

  /** One request to the model service: the question as contents, the stored
      context as system instruction. */
  datatype Request = Request(model: string, contents: string, systemInstruction: string)

  /** The model service: the response text, or a failure (network, quota, ...). */
  type Model = Request -> Result<string, string>

  /** The answer together with the requests issued to produce it. */
  datatype Generation = Generation(answer: string, requests: seq<Request>)

  /** `generateAnswer` on a fixed store: it never fails; every outcome is a text. */
  function GenerateAnswer(store: string, prompt: string, model: Model): (g: Generation)
    ensures g.requests == [] <==> store == Unloaded
    ensures g.requests != [] ==> g.requests == [Request(ModelName, prompt, store)]
    ensures store == Unloaded ==> g.answer == NotLoadedText
    ensures g.requests != [] && model(g.requests[0]).Ok? ==> g.answer == model(g.requests[0]).value
    ensures g.requests != [] && model(g.requests[0]).Err? ==> g.answer == ApologyText
  {
    if store == Unloaded then Generation(NotLoadedText, [])
    else
      var request := Request(ModelName, prompt, store);
      match model(request)
      case Ok(text) => Generation(text, [request])
      case Err(_) => Generation(ApologyText, [request])
  }

  /** With the store unloaded the model is not consulted: the answer is the same
      whatever the model would have said. */
  lemma UnloadedIgnoresModel(prompt: string, m1: Model, m2: Model)
    ensures GenerateAnswer(Unloaded, prompt, m1) == GenerateAnswer(Unloaded, prompt, m2)
    ensures GenerateAnswer(Unloaded, prompt, m1).answer == NotLoadedText
  {
  }

  /** Once loaded, the answer depends on the model only through its response to
      the one request: two models that agree on it give the same answer. */
  lemma LoadedDependsOnResponse(store: string, prompt: string, m1: Model, m2: Model)
    requires store != Unloaded
    requires m1(Request(ModelName, prompt, store)) == m2(Request(ModelName, prompt, store))
    ensures GenerateAnswer(store, prompt, m1) == GenerateAnswer(store, prompt, m2)
  {
  }

  /** The answer is one of the two fallbacks or the model's own text. */
  lemma AnswerOrigin(store: string, prompt: string, model: Model)
    ensures var a := GenerateAnswer(store, prompt, model).answer;
      || a == NotLoadedText
      || a == ApologyText
      || (store != Unloaded && model(Request(ModelName, prompt, store)) == Ok(a))
  {
  }

  /** An empty answer can only be the model's own empty response. */
  lemma EmptyAnswerComesFromModel(store: string, prompt: string, model: Model)
    requires GenerateAnswer(store, prompt, model).answer == ""
    ensures store != Unloaded && model(Request(ModelName, prompt, store)) == Ok("")
  {
    assert |NotLoadedText| > 0 && |ApologyText| > 0;
  }
}
