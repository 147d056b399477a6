/**
 The chat bot's `answer` operation: break the question into sentences,
 classify each one against a categorizer trained once per call, append each
 category's canned answer after a single space, and raise the completion flag
 when any sentence is classified as the terminal category.
 */
module ChatBot {
  import opened Nlp
  import opened AnswerTable

  /** The category whose appearance in any sentence ends the conversation. */
  const TerminalCategory: string := "conversation-complete"

  /** The answer text and the conversation-complete flag, as returned in a pair. */
  datatype Reply = Reply(answer: string, conversationComplete: bool)

  /** Both accumulators before any sentence has been seen. */
  const NoReply: Reply := Reply("", false)

  /** The bot's fixed configuration: the answer table loaded at start-up, the
      lines of the categorizer training file, and the language toolkit. */
  datatype Bot<!M> = Bot(questionAnswer: Table, trainingLines: seq<string>, nlp: Toolkit<M>)

  /** One loop iteration: the reply only grows, by a space and the category's
      answer, and the flag is set by the terminal category and never cleared. */
  function Step(reply: Reply, table: Table, category: string): (next: Reply)
    ensures reply.answer <= next.answer
    ensures next.answer[|reply.answer|..] == Fragment(table, category)
    ensures next.conversationComplete <==> reply.conversationComplete || category == TerminalCategory
  {
    Reply(reply.answer + Fragment(table, category),
          reply.conversationComplete || TerminalCategory == category)
  }

  /** The loop over the sentences' categories, starting from `reply`. */
  function Accumulate(reply: Reply, table: Table, categories: seq<string>): (final: Reply)
    ensures reply.answer <= final.answer
    ensures |final.answer| >= |reply.answer| + |categories|
    ensures reply.conversationComplete ==> final.conversationComplete
    decreases |categories|
  {
    if |categories| == 0 then reply
    else Accumulate(Step(reply, table, categories[0]), table, categories[1..])
  }

  /** Closed form of the loop: the reply's text is extended by the fragments of
      all categories in order, and the flag ends up set exactly when it was
      already set or some category is the terminal one. */
  lemma {:induction false} AccumulateClosedForm(reply: Reply, table: Table, categories: seq<string>)
    ensures Accumulate(reply, table, categories)
         == Reply(reply.answer + AnswerText(table, categories),
                  reply.conversationComplete || TerminalCategory in categories)
    decreases |categories|
  {
    if |categories| > 0 {
      var c, rest := categories[0], categories[1..];
      var next := Step(reply, table, c);
      AccumulateClosedForm(next, table, rest);
      var final := Accumulate(next, table, rest);
      assert Accumulate(reply, table, categories) == final;
      assert final.answer == reply.answer + AnswerText(table, categories) by {
        var f, tail := Fragment(table, c), AnswerText(table, rest);
        assert AnswerText(table, categories) == f + tail;
        assert next.answer == reply.answer + f;
        assert (reply.answer + f) + tail == reply.answer + (f + tail);
      }
      assert final.conversationComplete
         == (reply.conversationComplete || TerminalCategory in categories) by {
        TerminalInCons(categories);
      }
    }
  }

  /** The terminal category occurs in a non-empty list exactly when it heads
      the list or occurs in the rest. */
  lemma TerminalInCons(categories: seq<string>)
    requires |categories| > 0
    ensures TerminalCategory in categories
        <==> categories[0] == TerminalCategory || TerminalCategory in categories[1..]
  {
  }

  /** Running the loop over `p + q` is running it over `p`, then over `q`. */
  lemma {:induction false} AccumulateSplit(reply: Reply, table: Table, p: seq<string>, q: seq<string>)
    ensures Accumulate(reply, table, p + q) == Accumulate(Accumulate(reply, table, p), table, q)
    decreases |p|
  {
    if |p| == 0 {
      assert p + q == q;
    } else {
      assert (p + q)[1..] == p[1..] + q;
      AccumulateSplit(Step(reply, table, p[0]), table, p[1..], q);
    }
  }

  /** Later sentences only extend the reply: the text of a prefix of the
      sentences is a prefix of the full text, and a flag raised by the prefix
      stays raised whatever categories follow. */
  lemma LaterSentencesOnlyExtend(table: Table, p: seq<string>, q: seq<string>)
    ensures Accumulate(NoReply, table, p).answer <= Accumulate(NoReply, table, p + q).answer
    ensures Accumulate(NoReply, table, p).conversationComplete
        ==> Accumulate(NoReply, table, p + q).conversationComplete
  {
    AccumulateSplit(NoReply, table, p, q);
  }

  /** A terminal category in any position completes the conversation. */
  lemma TerminalAnywhereCompletes(table: Table, categories: seq<string>, i: nat)
    requires i < |categories| && categories[i] == TerminalCategory
    ensures Accumulate(NoReply, table, categories).conversationComplete
  {
    AccumulateClosedForm(NoReply, table, categories);
  }

  /** The categories of the question's sentences, all under the one model
      trained at the start of the call. */
  function SentenceCategories<M>(bot: Bot<M>, question: string): seq<string> {
    var model := TrainCategorizerModel(bot.nlp, bot.trainingLines);
    Categories(bot.nlp, model, bot.nlp.sentDetect(question))
  }

  /** The reply to `question`: the answers of its sentences' categories, each
      after a space, in sentence order, and the flag set exactly when some
      sentence, classified by the single trained model, is terminal. */
  function Respond<M>(bot: Bot<M>, question: string): (r: Reply)
    ensures r.answer == AnswerText(bot.questionAnswer, SentenceCategories(bot, question))
    ensures var model := TrainCategorizerModel(bot.nlp, bot.trainingLines);
            var sentences := bot.nlp.sentDetect(question);
            (r.conversationComplete <==>
               exists i :: 0 <= i < |sentences| && CategoryOf(bot.nlp, model, sentences[i]) == TerminalCategory)
  {
    var categories := SentenceCategories(bot, question);
    AccumulateClosedForm(NoReply, bot.questionAnswer, categories);
    Accumulate(NoReply, bot.questionAnswer, categories)
  }

  /** The answer operation written as the source's loop over sentences. */
  method Answer<M>(bot: Bot<M>, question: string) returns (answer: string, conversationComplete: bool)
    ensures Reply(answer, conversationComplete) == Respond(bot, question)
    ensures answer == AnswerText(bot.questionAnswer, SentenceCategories(bot, question))
    ensures conversationComplete <==> TerminalCategory in SentenceCategories(bot, question)
  {
    var model := TrainCategorizerModel(bot.nlp, bot.trainingLines);
    var sentences := bot.nlp.sentDetect(question);
    ghost var categories := Categories(bot.nlp, model, sentences);
    answer := "";
    conversationComplete := false;
    var i := 0;
    while i < |sentences|
      invariant 0 <= i <= |sentences|
      invariant answer == AnswerText(bot.questionAnswer, categories[..i])
      invariant conversationComplete <==> TerminalCategory in categories[..i]
    {
      var tokens := bot.nlp.tokenize(sentences[i]);
      var posTags := bot.nlp.tag(tokens);
      var lemmas := bot.nlp.lemmatize(tokens, posTags);
      var category := bot.nlp.bestCategory(model, lemmas);
      assert answer + " " + Show(Lookup(bot.questionAnswer, category))
          == answer + Fragment(bot.questionAnswer, category);
      answer := answer + " " + Show(Lookup(bot.questionAnswer, category));
      if TerminalCategory == category {
        conversationComplete := true;
      }
      assert category == categories[i];
      ExtendByOne(bot.questionAnswer, categories, i);
      i := i + 1;
    }
    assert categories[..i] == categories;
    AccumulateClosedForm(NoReply, bot.questionAnswer, categories);
  }

  /** Taking one more category adds its fragment to the text, and makes the
      terminal category present iff it was already or the new one is it. */
  lemma ExtendByOne(table: Table, categories: seq<string>, i: nat)
    requires i < |categories|
    ensures AnswerText(table, categories[..i + 1])
         == AnswerText(table, categories[..i]) + Fragment(table, categories[i])
    ensures TerminalCategory in categories[..i + 1]
        <==> TerminalCategory in categories[..i] || categories[i] == TerminalCategory
  {
    var c := categories[i];
    assert categories[..i + 1] == categories[..i] + [c];
    AnswerTextAppend(table, categories[..i], [c]);
    assert AnswerText(table, [c]) == Fragment(table, c) + AnswerText(table, []);
  }

  /** A question with no sentences gets the empty text and an unset flag. */
  lemma EmptyQuestion<M>(bot: Bot<M>, question: string)
    requires bot.nlp.sentDetect(question) == []
    ensures Respond(bot, question) == Reply("", false)
  {
  }

  /** A sentence whose category has no answer contributes " null" at its own
      position in the reply, and the rest of the reply is still produced. */
  lemma UnmappedCategoryShowsNull<M>(bot: Bot<M>, question: string, i: nat)
    requires i < |SentenceCategories(bot, question)|
    requires SentenceCategories(bot, question)[i] !in bot.questionAnswer
    ensures var categories := SentenceCategories(bot, question);
            var at := |AnswerText(bot.questionAnswer, categories[..i])|;
            var text := Respond(bot, question).answer;
            at + 5 <= |text| && text[at..at + 5] == " null"
  {
    var categories := SentenceCategories(bot, question);
    FragmentAt(bot.questionAnswer, categories, i);
  }

  /** An example answer table with three categories. */
  const ExampleTable: Table :=
    map["greeting" := "Hi there!", "farewell" := "Goodbye!", "conversation-complete" := "See you!"]

  /** The answers the example table gives its two categories. */
  lemma ExampleFragments()
    ensures Fragment(ExampleTable, "greeting") == " Hi there!"
    ensures Fragment(ExampleTable, TerminalCategory) == " See you!"
  {
  }

  /** A greeting followed by the terminal category. */
  lemma GreetingThenGoodbye()
    ensures Accumulate(NoReply, ExampleTable, ["greeting", "conversation-complete"])
         == Reply(" Hi there! See you!", true)
  {
    ExampleFragments();
    var categories := ["greeting", TerminalCategory];
    AccumulateClosedForm(NoReply, ExampleTable, categories);
    assert categories[1..] == [TerminalCategory];
    assert AnswerText(ExampleTable, [TerminalCategory]) == " See you!";
    assert AnswerText(ExampleTable, categories) == " Hi there!" + " See you!";
    ExampleText();
  }

  /** Joins the two example fragments; split out of GreetingThenGoodbye to
      keep that proof small. */
  lemma ExampleText()
    ensures "" + (" Hi there!" + " See you!") == " Hi there! See you!"
  {
  }
}
