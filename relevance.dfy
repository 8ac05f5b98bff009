/**
 * The topic test of the filtering pass: a search result is relevant when the
 * user's topic or the topic echoed back by the search page occurs, ignoring
 * case, in the result's headline or in its snippet.
 */
module Relevance {
  import opened Text

  /**
   * The four-way containment test, every operand lower-cased first. It holds
   * exactly when one of the four case-insensitive occurrences exists.
   */
  function Relevant(title: string, snippet: string, userTopic: string, correctedTopic: string): (r: bool)
    ensures r <==>
      || Occurs(Lower(userTopic), Lower(title))
      || Occurs(Lower(correctedTopic), Lower(title))
      || Occurs(Lower(userTopic), Lower(snippet))
      || Occurs(Lower(correctedTopic), Lower(snippet))
  {
    var userLow := Lower(userTopic);
    var correctedLow := Lower(correctedTopic);
    ContainsIffOccurs(Lower(title), userLow);
    ContainsIffOccurs(Lower(title), correctedLow);
    ContainsIffOccurs(Lower(snippet), userLow);
    ContainsIffOccurs(Lower(snippet), correctedLow);
    || Contains(Lower(title), userLow)
    || Contains(Lower(title), correctedLow)
    || Contains(Lower(snippet), userLow)
    || Contains(Lower(snippet), correctedLow)
  }

  /** Changing the case of any ASCII letter of any operand leaves the verdict unchanged. */
  lemma RelevantIgnoresCase(title: string, snippet: string, userTopic: string, correctedTopic: string,
                            title': string, snippet': string, userTopic': string, correctedTopic': string)
    requires CaseVariant(title, title') && CaseVariant(snippet, snippet')
    requires CaseVariant(userTopic, userTopic') && CaseVariant(correctedTopic, correctedTopic')
    ensures Relevant(title, snippet, userTopic, correctedTopic) == Relevant(title', snippet', userTopic', correctedTopic')
  {
    LowerOfCaseVariant(title, title');
    LowerOfCaseVariant(snippet, snippet');
    LowerOfCaseVariant(userTopic, userTopic');
    LowerOfCaseVariant(correctedTopic, correctedTopic');
  }

  /** When the page echoes the user's topic unchanged, the test is the two-way one. */
  lemma RelevantSameTopics(title: string, snippet: string, topic: string)
    ensures Relevant(title, snippet, topic, topic) ==
      (Occurs(Lower(topic), Lower(title)) || Occurs(Lower(topic), Lower(snippet)))
  {
  }

  /** An empty echoed topic occurs everywhere, so every result is relevant. */
  lemma EmptyCorrectedTopicMatchesAll(title: string, snippet: string, userTopic: string)
    ensures Relevant(title, snippet, userTopic, "")
  {
  }

  /** Containment is not word matching: the topic "art" makes the headline "restart" relevant. */
  lemma IncidentalSubstringMatches()
    ensures Relevant("restart", "", "art", "art")
  {
    assert Lower("art") == "art";
    assert Lower("restart") == "restart";
    assert IsPrefix("art", "restart"[4..]);
    ContainsIffOccurs("restart", "art");
  }
}
