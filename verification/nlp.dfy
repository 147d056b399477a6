/**
 The Apache OpenNLP capabilities the chat bot relies on: sentence detection,
 tokenization, part-of-speech tagging, lemmatization, document-categorizer
 training and best-category selection. Each is a foreign library call over a
 pretrained binary model, so it is kept abstract: a `Toolkit` carries one
 total function per capability, and nothing is assumed about them (no tie-break
 rule, no alignment between tokens and tags).
 */
module Nlp {

  /** The only feature generator the categorizer is configured with. */
  datatype FeatureGenerator = BagOfWords

  /** The settings the code chooses on top of the library's default training
      parameters: language code, feature generators and the minimum feature
      frequency (cutoff). The algorithm and iteration count stay at the
      library defaults and are not recorded here. */
  datatype TrainingParameters = TrainingParameters(
    language: string,
    features: seq<FeatureGenerator>,
    cutoff: nat)

  /** English, bag-of-words features, and a cutoff lowered from the library
      default to 0 so that every feature seen once is kept. */
  const CategorizerParameters: TrainingParameters :=
    TrainingParameters("en", [BagOfWords], 0)

  /** The library, as functions of their inputs. `M` is the opaque trained
      categorizer model. */
  datatype Toolkit<!M> = Toolkit(
    train: (TrainingParameters, seq<string>) -> M,
    sentDetect: string -> seq<string>,
    tokenize: string -> seq<string>,
    tag: seq<string> -> seq<string>,
    lemmatize: (seq<string>, seq<string>) -> seq<string>,
    bestCategory: (M, seq<string>) -> string)

  /** Trains a categorizer over the lines of the training file. */
  function TrainCategorizerModel<M>(nlp: Toolkit<M>, trainingLines: seq<string>): M {
    nlp.train(CategorizerParameters, trainingLines)
  }

  /** The per-sentence pipeline: tokenize, tag, lemmatize, then pick the best
      category under `model`. */
  function CategoryOf<M>(nlp: Toolkit<M>, model: M, sentence: string): string {
    var tokens := nlp.tokenize(sentence);
    var posTags := nlp.tag(tokens);
    var lemmas := nlp.lemmatize(tokens, posTags);
    nlp.bestCategory(model, lemmas)
  }

  /** The categories of `sentences`, in order, every one classified against
      the same `model`. */
  function Categories<M>(nlp: Toolkit<M>, model: M, sentences: seq<string>): (cats: seq<string>)
    ensures |cats| == |sentences|
    ensures forall i :: 0 <= i < |sentences| ==> cats[i] == CategoryOf(nlp, model, sentences[i])
  {
    if |sentences| == 0 then []
    else [CategoryOf(nlp, model, sentences[0])] + Categories(nlp, model, sentences[1..])
  }
}
