/**
 The category-to-answer table, loaded once from a properties resource and only
 read afterwards, and the text each classified sentence contributes to the
 reply.
 */
module AnswerTable {
  import opened Wrappers

  /** Category label to canned answer. */
  type Table = map<string, string>

  /** A properties lookup: the answer for `category`, or None (a Java `null`)
      when the table has no such key. */
  function Lookup(table: Table, category: string): (r: Option<string>) {
    if category in table then Some(table[category]) else None
  }

  /** How Kotlin's `String + Any?` renders a lookup result: a missing answer
      becomes the four letters "null". */
  function Show(answer: Option<string>): (s: string) {
    match answer
    case Some(v) => v
    case None => "null"
  }

  /** What one sentence of category `category` appends to the reply: a single
      space, then its answer. An unmapped category does not fail; it
      contributes " null". */
  function Fragment(table: Table, category: string): (f: string)
    ensures |f| >= 1 && f[0] == ' '
    ensures category in table ==> f[1..] == table[category]
    ensures category !in table ==> f == " null"
  {
    " " + Show(Lookup(table, category))
  }

  /** Reference definition of a reply's text: the fragments of `categories`
      joined in order, one per category, nothing dropped or merged. */
  function AnswerText(table: Table, categories: seq<string>): string {
    if |categories| == 0 then ""
    else Fragment(table, categories[0]) + AnswerText(table, categories[1..])
  }

  /** Expected length of a reply: one space plus the shown answer, per category. */
  function AnswerLength(table: Table, categories: seq<string>): nat {
    if |categories| == 0 then 0
    else 1 + |Show(Lookup(table, categories[0]))| + AnswerLength(table, categories[1..])
  }

  /** The reply's length is the sum over categories of 1 + the answer's length. */
  lemma {:induction false} AnswerTextLength(table: Table, categories: seq<string>)
    ensures |AnswerText(table, categories)| == AnswerLength(table, categories)
  {
    if |categories| > 0 {
      AnswerTextLength(table, categories[1..]);
    }
  }

  /** The text for a concatenation of category lists is the concatenation of
      their texts: order is kept and nothing is deduplicated. */
  lemma {:induction false} AnswerTextAppend(table: Table, p: seq<string>, q: seq<string>)
    ensures AnswerText(table, p + q) == AnswerText(table, p) + AnswerText(table, q)
  {
    if |p| == 0 {
      assert p + q == q;
    } else {
      assert (p + q)[1..] == p[1..] + q;
      AnswerTextAppend(table, p[1..], q);
    }
  }

  /** Sentence `i` contributes exactly its own fragment, placed after the
      fragments of all earlier sentences and before those of all later ones. */
  lemma FragmentAt(table: Table, categories: seq<string>, i: nat)
    requires i < |categories|
    ensures AnswerText(table, categories)
         == AnswerText(table, categories[..i]) + Fragment(table, categories[i])
            + AnswerText(table, categories[i + 1..])
  {
    assert categories == categories[..i] + ([categories[i]] + categories[i + 1..]);
    AnswerTextAppend(table, categories[..i], [categories[i]] + categories[i + 1..]);
    AnswerTextAppend(table, [categories[i]], categories[i + 1..]);
    assert AnswerText(table, [categories[i]]) == Fragment(table, categories[i]) + AnswerText(table, []);
  }
}
