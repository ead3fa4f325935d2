/** The inference service: `/health`, `/predict` and `/explain`, with the
    web framework stripped away and the vectorizer, classifier and LIME
    explainer kept abstract. */
module App {
  import opened Results
  import opened Text
  import opened Preprocess

  /** A TF-IDF feature vector. */
  type Features = seq<real>

  /** The loaded vectorizer: `vectorizer.transform([text])`. A failure
      carries the text of the exception it raised. */
  datatype Vectorizer = Vectorizer(transform: string -> Result<Features, string>)

  /** The loaded classifier: the first row of `model.predict_proba(X)`
      (class 0 negative, class 1 positive) and the first label of
      `model.predict(X)`. */
  datatype Classifier = Classifier(
    predictProba: Features -> Result<seq<real>, string>,
    predict: Features -> Result<int, string>)

  /** Everything loaded at start-up. The model and vectorizer are `None`
      when loading them failed. */
  datatype Artifacts = Artifacts(
    model: Option<Classifier>,
    vectorizer: Option<Vectorizer>,
    emojis: EmojiTable,
    stopwords: seq<string>)

  /** LIME's explanation of one text: `exp.as_list()` and `exp.as_html()`. */
  datatype Explanation = Explanation(weights: seq<(string, real)>, html: string)

  /** `explainer.explain_instance(cleaned_text, predict_proba_lime, ...)`
      together with its rendering; a failure carries the exception text. */
  type Explainer = string -> Result<Explanation, string>

  datatype Sentiment = Negative | Positive

  datatype HttpError = HttpError(statusCode: int, detail: string)

  /** What an endpoint sends back: a JSON body, or an HTTP error. */
  datatype Response<+T> = Ok(body: T) | Error(error: HttpError)

  /** What a handler's `try` block can raise. */
  datatype Raised = HttpException(exception: HttpError) | RuntimeError(message: string)

  datatype HealthReport = HealthReport(status: string, modelLoaded: bool, vectorizerLoaded: bool)

  datatype Prediction = Prediction(
    sentiment: Sentiment,
    confidence: real,
    probabilityPositive: real,
    probabilityNegative: real)

  datatype ExplainBody = ExplainBody(
    sentiment: Sentiment,
    explanation: seq<(string, real)>,
    htmlExplanation: string)

  const PredictNotLoaded: string := "Modèle non chargé"
  const ExplainNotLoaded: string := "Model not loaded"
  const TooShort: string := "Text too short for explanation"

  // ---------------------------------------------------------------------
  // Helpers
  // ---------------------------------------------------------------------

  /** `not model or not vectorizer` is false. */
  predicate Loaded(art: Artifacts) {
    art.model.Some? && art.vectorizer.Some?
  }

  /** The text both endpoints classify: the normaliser with the loaded
      emoji dictionary and stopword list and the default lemmatiser. */
  function Cleaned(art: Artifacts, tools: TextTools, text: string): string {
    PreprocessText(text, "lem", Some(art.emojis), Some(art.stopwords), tools)
  }

  /** Python's `max` over a non-empty sequence. */
  function Max(xs: seq<real>): (m: real)
    requires |xs| > 0
    ensures m in xs
    ensures forall i | 0 <= i < |xs| :: xs[i] <= m
  {
    if |xs| == 1 then xs[0]
    else
      var rest := Max(xs[1..]);
      if xs[0] >= rest then xs[0] else rest
  }

  function DigitChar(d: nat): char
    requires d < 10
  {
    ('0' as int + d) as char
  }

  /** `str(n)` for a natural number. */
  function NatToString(n: nat): string
    decreases n
  {
    if n < 10 then [DigitChar(n)] else NatToString(n / 10) + [DigitChar(n % 10)]
  }

  /** numpy's message for reading `proba[1]` out of a row of `size`
      probabilities. */
  function IndexErrorMessage(size: nat): string {
    "index 1 is out of bounds for axis 0 with size " + NatToString(size)
  }

  /** Turns a library failure into the exception the handler sees. */
  function Raising<T>(r: Result<T, string>): (o: Result<T, Raised>)
    ensures r.Success? ==> o == Success(r.value)
    ensures r.Failure? ==> o == Failure(RuntimeError(r.error))
  {
    match r
    case Success(v) => Success(v)
    case Failure(m) => Failure(RuntimeError(m))
  }

  // ---------------------------------------------------------------------
  // GET /health
  // ---------------------------------------------------------------------

  function Health(art: Artifacts): (h: HealthReport)
    ensures h.status == "ok"
    ensures h.modelLoaded <==> art.model.Some?
    ensures h.vectorizerLoaded <==> art.vectorizer.Some?
  {
    HealthReport("ok", art.model.Some?, art.vectorizer.Some?)
  }

  // ---------------------------------------------------------------------
  // POST /predict
  // ---------------------------------------------------------------------

  /** The `try` block of `predict`, from the normalised text on. */
  function PredictTry(model: Classifier, vectorizer: Vectorizer, cleaned: string): (o: Result<Prediction, string>)
    ensures vectorizer.transform(cleaned).Failure? ==> o == Failure(vectorizer.transform(cleaned).error)
    ensures var x := vectorizer.transform(cleaned);
      x.Success? && model.predictProba(x.value).Failure? ==> o == Failure(model.predictProba(x.value).error)
    ensures var x := vectorizer.transform(cleaned);
      x.Success? && model.predictProba(x.value).Success? && |model.predictProba(x.value).value| < 2 ==>
        o == Failure(IndexErrorMessage(|model.predictProba(x.value).value|))
    ensures var x := vectorizer.transform(cleaned);
      x.Success? && model.predictProba(x.value).Success? && |model.predictProba(x.value).value| >= 2 ==>
        o.Success?
    ensures o.Success? ==>
      && vectorizer.transform(cleaned).Success?
      && var x := vectorizer.transform(cleaned).value;
         && model.predictProba(x).Success?
         && var proba := model.predictProba(x).value;
            && |proba| >= 2
            && o.value.probabilityPositive == proba[1]
            && o.value.probabilityNegative == proba[0]
            && o.value.confidence == Max(proba)
    ensures o.Success? ==> (o.value.sentiment == Positive <==> o.value.probabilityPositive >= o.value.probabilityNegative)
    ensures o.Success? ==> o.value.confidence >= o.value.probabilityPositive && o.value.confidence >= o.value.probabilityNegative
  {
    var features :- vectorizer.transform(cleaned);
    var proba :- model.predictProba(features);
    if |proba| < 2 then Failure(IndexErrorMessage(|proba|))
    else
      var sentiment := if proba[1] >= proba[0] then Positive else Negative;
      Success(Prediction(sentiment, Max(proba), proba[1], proba[0]))
  }

  /** `POST /predict`. Every failure is a 500: missing artifacts before any
      work is done, and any exception of the `try` block with its text. */
  function Predict(art: Artifacts, tools: TextTools, text: string): (r: Response<Prediction>)
    ensures !Loaded(art) ==> r == Error(HttpError(500, PredictNotLoaded))
    ensures r.Error? ==> r.error.statusCode == 500
    ensures r.Ok? ==> (r.body.sentiment == Positive <==> r.body.probabilityPositive >= r.body.probabilityNegative)
    ensures r.Ok? ==> r.body.confidence >= r.body.probabilityPositive && r.body.confidence >= r.body.probabilityNegative
  {
    if !Loaded(art) then Error(HttpError(500, PredictNotLoaded))
    else
      match PredictTry(art.model.value, art.vectorizer.value, Cleaned(art, tools, text))
      case Success(p) => Ok(p)
      case Failure(m) => Error(HttpError(500, m))
  }

  // ---------------------------------------------------------------------
  // POST /explain
  // ---------------------------------------------------------------------

  /** The library calls of `explain` after the guard: LIME, then the
      vectorizer and the classifier. Any exception they raise is a
      runtime error, never an `HTTPException`. */
  function ExplainCalls(model: Classifier, vectorizer: Vectorizer, lime: Explainer,
                        cleaned: string): (o: Result<ExplainBody, Raised>)
    ensures o.Failure? ==> o.error.RuntimeError?
    ensures lime(cleaned).Failure? ==> o == Failure(RuntimeError(lime(cleaned).error))
    ensures lime(cleaned).Success? && vectorizer.transform(cleaned).Failure? ==>
      o == Failure(RuntimeError(vectorizer.transform(cleaned).error))
    ensures var x := vectorizer.transform(cleaned);
      lime(cleaned).Success? && x.Success? && model.predict(x.value).Failure? ==>
        o == Failure(RuntimeError(model.predict(x.value).error))
    ensures var x := vectorizer.transform(cleaned);
      lime(cleaned).Success? && x.Success? && model.predict(x.value).Success? ==>
        o == Success(ExplainBody(
          if model.predict(x.value).value == 1 then Positive else Negative,
          lime(cleaned).value.weights,
          lime(cleaned).value.html))
    ensures o.Success? ==>
      && lime(cleaned).Success?
      && o.value.explanation == lime(cleaned).value.weights
      && o.value.htmlExplanation == lime(cleaned).value.html
    ensures o.Success? ==>
      && vectorizer.transform(cleaned).Success?
      && (o.value.sentiment == Positive <==> model.predict(vectorizer.transform(cleaned).value) == Success(1))
  {
    var exp :- Raising(lime(cleaned));
    var features :- Raising(vectorizer.transform(cleaned));
    var predicted :- Raising(model.predict(features));
    Success(ExplainBody(if predicted == 1 then Positive else Negative, exp.weights, exp.html))
  }

  /** The `try` block of `explain`, from the normalised text on: the
      short-text guard comes before any call to LIME, the vectorizer or the
      classifier. */
  function ExplainTry(model: Classifier, vectorizer: Vectorizer, lime: Explainer,
                      cleaned: string): (o: Result<ExplainBody, Raised>)
    ensures o.Failure? && o.error.HttpException? ==> o.error.exception == HttpError(422, TooShort)
    ensures (o.Failure? && o.error.HttpException?) <==> |Split(Strip(cleaned))| < 2
    ensures o.Success? ==>
      && vectorizer.transform(cleaned).Success?
      && (o.value.sentiment == Positive <==> model.predict(vectorizer.transform(cleaned).value) == Success(1))
  {
    if |Split(Strip(cleaned))| < 2 then Failure(HttpException(HttpError(422, TooShort)))
    else ExplainCalls(model, vectorizer, lime, cleaned)
  }

  /** The `except` clauses of `explain`: an `HTTPException` is re-raised
      unchanged, anything else becomes a 500 carrying its text. */
  function ExplainHandler<T>(outcome: Result<T, Raised>): (r: Response<T>)
    ensures r.Ok? <==> outcome.Success?
    ensures r.Ok? ==> r.body == outcome.value
    ensures outcome.Failure? && outcome.error.HttpException? ==> r == Error(outcome.error.exception)
    ensures outcome.Failure? && outcome.error.RuntimeError? ==> r == Error(HttpError(500, outcome.error.message))
  {
    match outcome
    case Success(v) => Ok(v)
    case Failure(HttpException(e)) => Error(e)
    case Failure(RuntimeError(m)) => Error(HttpError(500, m))
  }

  /** `POST /explain`. */
  function Explain(art: Artifacts, tools: TextTools, lime: Explainer, text: string): (r: Response<ExplainBody>)
    ensures !Loaded(art) ==> r == Error(HttpError(500, ExplainNotLoaded))
    ensures r.Error? ==> r.error.statusCode == 422 || r.error.statusCode == 500
    ensures Loaded(art) ==>
      ((r.Error? && r.error.statusCode == 422) <==> |Split(Strip(Cleaned(art, tools, text)))| < 2)
    ensures r.Ok? ==>
      && Loaded(art)
      && art.vectorizer.value.transform(Cleaned(art, tools, text)).Success?
      && (r.body.sentiment == Positive <==>
          art.model.value.predict(art.vectorizer.value.transform(Cleaned(art, tools, text)).value) == Success(1))
  {
    if !Loaded(art) then Error(HttpError(500, ExplainNotLoaded))
    else ExplainHandler(ExplainTry(art.model.value, art.vectorizer.value, lime, Cleaned(art, tools, text)))
  }

  // ---------------------------------------------------------------------
  // Properties
  // ---------------------------------------------------------------------

  /** With both artifacts loaded, `predict` reports the classifier: the
      label is positive exactly when P(positive) >= P(negative), so ties go
      to positive; the two probabilities are copied from the row; the
      confidence is the largest probability, equals that of the chosen
      label for a two-class row, and lies in [0, 1] when the row does.
      Failures of the vectorizer or classifier, and a row too short to hold
      class 1, become a 500 carrying the exception text. */
  lemma PredictFollowsClassifier(art: Artifacts, tools: TextTools, text: string)
    requires Loaded(art)
    ensures var x := art.vectorizer.value.transform(Cleaned(art, tools, text));
      x.Failure? ==> Predict(art, tools, text) == Error(HttpError(500, x.error))
    ensures var x := art.vectorizer.value.transform(Cleaned(art, tools, text));
      x.Success? && art.model.value.predictProba(x.value).Failure? ==>
        Predict(art, tools, text) == Error(HttpError(500, art.model.value.predictProba(x.value).error))
    ensures var x := art.vectorizer.value.transform(Cleaned(art, tools, text));
      x.Success? && art.model.value.predictProba(x.value).Success? ==>
        var p := art.model.value.predictProba(x.value).value;
        var r := Predict(art, tools, text);
        && (|p| < 2 ==> r == Error(HttpError(500, IndexErrorMessage(|p|))))
        && (|p| >= 2 ==>
          && r.Ok?
          && r.body.probabilityPositive == p[1]
          && r.body.probabilityNegative == p[0]
          && (r.body.sentiment == Positive <==> p[1] >= p[0])
          && r.body.confidence in p
          && (forall i | 0 <= i < |p| :: p[i] <= r.body.confidence)
          && (|p| == 2 ==> r.body.confidence == if r.body.sentiment == Positive then p[1] else p[0])
          && ((forall i | 0 <= i < |p| :: 0.0 <= p[i] <= 1.0) ==> 0.0 <= r.body.confidence <= 1.0))
  {
    var model, vectorizer := art.model.value, art.vectorizer.value;
    var cleaned := Cleaned(art, tools, text);
    var x := vectorizer.transform(cleaned);
    var o := PredictTry(model, vectorizer, cleaned);
    if x.Failure? {
      assert o == Failure(x.error);
    } else if model.predictProba(x.value).Failure? {
      assert o == Failure(model.predictProba(x.value).error);
    } else {
      var p := model.predictProba(x.value).value;
      if |p| < 2 {
        assert o == Failure(IndexErrorMessage(|p|));
      } else {
        var sentiment := if p[1] >= p[0] then Positive else Negative;
        assert o == Success(Prediction(sentiment, Max(p), p[1], p[0]));
      }
    }
  }

  /** Every loaded library call succeeds, with a row of at least two
      probabilities. */
  ghost predicate LibrariesSucceed(art: Artifacts) {
    && (art.vectorizer.Some? ==> forall t :: art.vectorizer.value.transform(t).Success?)
    && (art.model.Some? ==> forall x ::
          art.model.value.predictProba(x).Success? && |art.model.value.predictProba(x).value| >= 2)
  }

  /** `/health` tells the truth: when the libraries themselves do not fail,
      it reports both artifacts loaded exactly when `/predict` answers. */
  lemma HealthPredictsService(art: Artifacts, tools: TextTools, text: string)
    requires LibrariesSucceed(art)
    ensures (Health(art).modelLoaded && Health(art).vectorizerLoaded) <==> Predict(art, tools, text).Ok?
  {
    if Loaded(art) {
      PredictFollowsClassifier(art, tools, text);
    }
  }

  /** The short-text guard counts surviving tokens: with both artifacts
      loaded, and when the lemmatiser turns tokens into tokens, `explain`
      answers 422 exactly when fewer than two tokens survive stopword
      filtering. */
  lemma ExplainRejectsShortText(art: Artifacts, tools: TextTools, lime: Explainer, text: string)
    requires Loaded(art)
    requires PreservesTokens(tools.lemmatize)
    ensures var r := Explain(art, tools, lime, text);
      (r.Error? && r.error.statusCode == 422)
        <==> |SurvivingTokens(text, Some(art.emojis), Some(art.stopwords), tools)| < 2
    ensures var r := Explain(art, tools, lime, text);
      r.Error? && r.error.statusCode == 422 ==> r.error.detail == TooShort
  {
    var cleaned := Cleaned(art, tools, text);
    assert Morphology("lem", tools) == tools.lemmatize;
    PreprocessJoinsTokens(text, "lem", Some(art.emojis), Some(art.stopwords), tools);
    SplitStrip(cleaned);
  }

  /** The guard runs before LIME, the vectorizer or the classifier is
      called: on short text the answer is the same 422 whatever they
      would do. */
  lemma ExplainGuardComesFirst(art: Artifacts, tools: TextTools, lime: Explainer, text: string,
                               otherModel: Classifier, otherVectorizer: Vectorizer, otherLime: Explainer)
    requires Loaded(art)
    requires |Split(Strip(Cleaned(art, tools, text)))| < 2
    ensures Explain(art, tools, lime, text) == Error(HttpError(422, TooShort))
    ensures Explain(art.(model := Some(otherModel), vectorizer := Some(otherVectorizer)), tools, otherLime, text)
         == Error(HttpError(422, TooShort))
  {
    var art' := art.(model := Some(otherModel), vectorizer := Some(otherVectorizer));
    assert Cleaned(art', tools, text) == Cleaned(art, tools, text);
  }

  /** A failure inside LIME, the vectorizer or the classifier is a 500
      carrying the exception's text, never a 422. */
  lemma ExplainLibraryFailureIs500(art: Artifacts, tools: TextTools, lime: Explainer, text: string)
    requires Loaded(art)
    requires |Split(Strip(Cleaned(art, tools, text)))| >= 2
    ensures lime(Cleaned(art, tools, text)).Failure? ==>
      Explain(art, tools, lime, text) == Error(HttpError(500, lime(Cleaned(art, tools, text)).error))
    ensures lime(Cleaned(art, tools, text)).Success? && art.vectorizer.value.transform(Cleaned(art, tools, text)).Failure? ==>
      Explain(art, tools, lime, text)
        == Error(HttpError(500, art.vectorizer.value.transform(Cleaned(art, tools, text)).error))
    ensures var x := art.vectorizer.value.transform(Cleaned(art, tools, text));
      lime(Cleaned(art, tools, text)).Success? && x.Success? && art.model.value.predict(x.value).Failure? ==>
        Explain(art, tools, lime, text) == Error(HttpError(500, art.model.value.predict(x.value).error))
  {
    var cleaned := Cleaned(art, tools, text);
    var o := ExplainCalls(art.model.value, art.vectorizer.value, lime, cleaned);
    assert ExplainTry(art.model.value, art.vectorizer.value, lime, cleaned) == o;
    assert Explain(art, tools, lime, text) == ExplainHandler(o);
  }

  /** With both artifacts loaded and at least two tokens left, `explain`
      answers 200 whenever LIME, the vectorizer and the classifier all
      return: the label is positive exactly when `model.predict` gives 1,
      and the body carries LIME's weights and HTML. */
  lemma ExplainSucceeds(art: Artifacts, tools: TextTools, lime: Explainer, text: string)
    requires Loaded(art)
    requires |Split(Strip(Cleaned(art, tools, text)))| >= 2
    requires lime(Cleaned(art, tools, text)).Success?
    requires art.vectorizer.value.transform(Cleaned(art, tools, text)).Success?
    requires art.model.value.predict(art.vectorizer.value.transform(Cleaned(art, tools, text)).value).Success?
    ensures var cleaned := Cleaned(art, tools, text);
      var predicted := art.model.value.predict(art.vectorizer.value.transform(cleaned).value).value;
      Explain(art, tools, lime, text) == Ok(ExplainBody(
        if predicted == 1 then Positive else Negative,
        lime(cleaned).value.weights,
        lime(cleaned).value.html))
  {
    var cleaned := Cleaned(art, tools, text);
    var o := ExplainCalls(art.model.value, art.vectorizer.value, lime, cleaned);
    assert ExplainTry(art.model.value, art.vectorizer.value, lime, cleaned) == o;
    assert Explain(art, tools, lime, text) == ExplainHandler(o);
  }
}
