# FAQ chat bot: answer aggregation

This project models the `answer` operation of the `openNLPChatBot` object, a
Kotlin FAQ chat bot built on Apache OpenNLP. For each question, the bot:

- trains a document categorizer from its training file, once per call;
- splits the question into sentences;
- runs each sentence through tokenization, part-of-speech tagging and
  lemmatization;
- classifies each sentence against that single model;
- for every sentence, in order, appends a space and the category's canned
  answer from the `questionAnswer` table;
- returns the text together with a flag. The flag is set once any sentence is
  classified as `conversation-complete`, and later sentences never clear it.

The OpenNLP calls are foreign library code over binary models and
floating-point maximum-entropy scoring. Here they are total functions held in
a `Toolkit` value (`Nlp` module), and nothing else is assumed about them. The
answer table is an immutable `map<string, string>`. A lookup of a missing key
is a Java `null`. Kotlin's `String + Any?` prints it as `null`, so an
unmapped category adds the text `" null"` and does not fail.

Modules:

- `Wrappers` (wrappers.dfy): `Option`.
- `Nlp` (nlp.dfy): the toolkit, the training parameters (English,
  bag-of-words features, cutoff 0), the per-sentence pipeline `CategoryOf`,
  and `Categories`.
- `AnswerTable` (answer_table.dfy): the lookup, how it is shown, the
  per-sentence `Fragment`, and the reference definition `AnswerText` (all
  fragments joined in order).
- `ChatBot` (chat_bot.dfy): `Step` (one loop iteration) and `Accumulate` (the
  loop as a left fold). Also `Respond` (the whole operation as a function),
  `Answer` (the same operation written as the source's loop) and the lemmas
  that tie them to the closed form.

An unmapped category gets no fallback answer: `Properties.get` returns
`null`, and `String + Any?` prints it as `null`
(src/main/kotlin/com/bot/chat/object/openNLPChatBot.kt line 50).

## Model

| member | source | states |
|---|---|---|
| Nlp.TrainCategorizerModel | src/main/kotlin/com/bot/chat/object/openNLPChatBot.kt:66-77 | definition, no contract: one training call over the training file's lines with language "en", bag-of-words features and cutoff 0 |
| Nlp.CategoryOf | src/main/kotlin/com/bot/chat/object/openNLPChatBot.kt:42-48 | definition, no contract: tokenize the sentence, tag the tokens, lemmatize tokens with tags, then take the best category under the given model |
| Nlp.Categories | src/main/kotlin/com/bot/chat/object/openNLPChatBot.kt:41-48 | one category per sentence, in sentence order; each is the tokenize, tag, lemmatize, classify pipeline applied to that sentence under the same model |
| AnswerTable.Lookup | src/main/kotlin/com/bot/chat/object/openNLPChatBot.kt:50 | definition, no contract: a properties lookup, giving the table's entry for a key and null (None) for a missing key |
| AnswerTable.Show | src/main/kotlin/com/bot/chat/object/openNLPChatBot.kt:50 | definition, no contract: how string concatenation prints a lookup, a found answer unchanged and null as the four letters "null" |
| AnswerTable.Fragment | src/main/kotlin/com/bot/chat/object/openNLPChatBot.kt:50 | a sentence adds one space followed by its category's answer; an unmapped category adds exactly " null" and does not fail |
| AnswerTable.AnswerTextLength | src/main/kotlin/com/bot/chat/object/openNLPChatBot.kt:50 | the answer's length is the sum over sentences of 1 plus the length of the shown answer |
| AnswerTable.AnswerTextAppend | src/main/kotlin/com/bot/chat/object/openNLPChatBot.kt:41-50 | the text for two runs of sentences is the first run's text followed by the second's; order is kept and nothing is deduplicated |
| AnswerTable.FragmentAt | src/main/kotlin/com/bot/chat/object/openNLPChatBot.kt:41-50 | sentence i contributes exactly its own fragment, after all earlier sentences' fragments and before all later ones |
| ChatBot.Step | src/main/kotlin/com/bot/chat/object/openNLPChatBot.kt:50-54 | one iteration: the old answer is a prefix of the new one, and the added suffix is the space and the looked-up answer; the flag becomes true on the terminal category and is never cleared |
| ChatBot.Accumulate | src/main/kotlin/com/bot/chat/object/openNLPChatBot.kt:41-55 | the loop only grows the answer, by at least one character per sentence, and keeps a raised flag raised |
| ChatBot.AccumulateClosedForm | src/main/kotlin/com/bot/chat/object/openNLPChatBot.kt:38-58 | after the loop, the answer is the starting text plus every fragment in order, and the flag is set iff it was already set or some category is "conversation-complete" |
| ChatBot.AccumulateSplit | src/main/kotlin/com/bot/chat/object/openNLPChatBot.kt:41-55 | running the loop over p + q equals running it over p and then continuing over q |
| ChatBot.LaterSentencesOnlyExtend | src/main/kotlin/com/bot/chat/object/openNLPChatBot.kt:39-54 | later sentences never shorten or rewrite the reply, and never reset a flag raised by earlier sentences |
| ChatBot.TerminalAnywhereCompletes | src/main/kotlin/com/bot/chat/object/openNLPChatBot.kt:52-54 | a "conversation-complete" category at any position completes the conversation |
| ChatBot.SentenceCategories | src/main/kotlin/com/bot/chat/object/openNLPChatBot.kt:33-48 | definition, no contract: one model trained per call, the question split into sentences, each sentence classified against that model in order |
| ChatBot.ExtendByOne | src/main/kotlin/com/bot/chat/object/openNLPChatBot.kt:41-54 | taking one more sentence appends exactly that sentence's fragment to the text, and the terminal category is present afterwards iff it was before or the new sentence is terminal |
| ChatBot.Respond | src/main/kotlin/com/bot/chat/object/openNLPChatBot.kt:31-59 | the reply's text is the in-order concatenation of the sentences' fragments; the flag is set iff some sentence, classified by the one model trained for this call, is "conversation-complete" |
| ChatBot.Answer | src/main/kotlin/com/bot/chat/object/openNLPChatBot.kt:31-59 | the source's loop returns the same pair as `Respond`: the in-order fragment concatenation, and the flag iff the terminal category occurs |
| ChatBot.EmptyQuestion | src/main/kotlin/com/bot/chat/object/openNLPChatBot.kt:37-58 | a question with no sentences yields exactly the empty text and false |
| ChatBot.UnmappedCategoryShowsNull | src/main/kotlin/com/bot/chat/object/openNLPChatBot.kt:50 | a sentence whose category is missing from the table puts " null" at that sentence's own offset in the reply |
| ChatBot.GreetingThenGoodbye | src/main/kotlin/com/bot/chat/object/openNLPChatBot.kt:38-58 | categories [greeting, conversation-complete] with the example table give (" Hi there! See you!", true) |

## Left out

- OpenNLP training and inference are not modelled: `DocumentCategorizerME.train`, `categorize`/`getBestCategory`, `SentenceDetectorME`, `TokenizerME`, `POSTaggerME` and `LemmatizerME`. They are foreign calls over pretrained binary models with floating-point scoring. They are parameters of the model (`Nlp.Toolkit`). No tie-break rule and no token/tag alignment is assumed, because the code does not establish either.
- Resource and file I/O are not modelled: reading the training file (`MarkableFileInputStreamFactory`, `PlainTextByLineStream`, `DocumentSampleStream`), opening the `.bin` stage models with `use`, and `Properties.load` with its `key=value` parsing in `init`. The training file's lines and the loaded table are inputs (`ChatBot.Bot`).
- The debug logging calls are not modelled, since they have no effect on the result.
- The Spring HTTP endpoint, the CORS filter and the application bootstrap are not modelled. They only repackage the pair or set headers.
- Concurrent requests and the cost of retraining the categorizer on every call are not modelled. Functions are deterministic, so retraining from the same lines gives the same model value.
- Exceptions from missing resources or a failing library call are not modelled. The toolkit functions are total, so every call returns a value.
