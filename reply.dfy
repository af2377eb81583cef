/** The reply logic (`bankbot_reply` in bot.py, with the sentinel test of
    `banking_query` in banking_intellect.py). The hosted language model is
    not part of the model: it enters as two oracles, `classify` (the raw text
    the model answers to the classification prompt) and `ask` (the answer
    `ask_ollama` returns for a question). */
module Reply {
  import opened PyStr
  import opened Greeting

  const GreetingReply: string := "Hello! \U{1F44B} Please ask me about banking-related queries."

  const RefusalReply: string := "Sorry \U{26A0}\U{FE0F} I can answer only banking-related questions."

  /** What the classification prompt asks the model to answer for a question
      outside banking. */
  const NotBankingSentinel: string := "NOT_BANKING"

  /** `banking_query`: a question is about banking unless the classifier's
      answer, stripped, is exactly the sentinel. */
  predicate BankingQuery(userQuery: string, classify: string -> string) {
    Strip(classify(userQuery)) != NotBankingSentinel
  }

  /** `bankbot_reply`. */
  function BankbotReply(message: string, classify: string -> string, ask: string -> string): string {
    if IsGreeting(message) then GreetingReply
    else if BankingQuery(message, classify) then ask(message)
    else RefusalReply
  }

  /** A greeting, in any case and with any whitespace around it, gets the
      fixed greeting reply whatever the classifier and the model would say. */
  lemma GreetingShortCircuits(message: string, classify: string -> string, ask: string -> string)
    requires exists i, n :: GreetingAt(message, i, n)
    ensures BankbotReply(message, classify, ask) == GreetingReply
  {
    GreetingIff(message);
  }

  /** Any other message gets the model's answer when the classifier does not
      answer the sentinel, and the refusal when it does. */
  lemma NonGreetingDispatch(message: string, classify: string -> string, ask: string -> string)
    requires forall i, n :: !GreetingAt(message, i, n)
    ensures Strip(classify(message)) != NotBankingSentinel ==>
      BankbotReply(message, classify, ask) == ask(message)
    ensures Strip(classify(message)) == NotBankingSentinel ==>
      BankbotReply(message, classify, ask) == RefusalReply
  {
    GreetingIff(message);
  }

  /** The reply consults the oracles only about the message itself, and for
      a greeting not at all. */
  lemma ReplyDependsOnlyOnMessage(message: string, c1: string -> string, a1: string -> string,
                                  c2: string -> string, a2: string -> string)
    requires IsGreeting(message) || (c1(message) == c2(message) && a1(message) == a2(message))
    ensures BankbotReply(message, c1, a1) == BankbotReply(message, c2, a2)
  {
  }

  /** The classifier's answer counts as "banking" exactly when it is not
      the sentinel with only whitespace around it. */
  lemma BankingQueryIff(userQuery: string, classify: string -> string)
    ensures BankingQuery(userQuery, classify) <==>
      forall i :: !PaddedAt(classify(userQuery), NotBankingSentinel, i)
  {
    StripIff(classify(userQuery), NotBankingSentinel);
  }

  /** The sentinel with any whitespace around it still reads as "not
      banking", so a message that is not a greeting gets the refusal. */
  lemma PaddedSentinelRefused(message: string, classify: string -> string, ask: string -> string,
                              pre: string, post: string)
    requires !IsGreeting(message)
    requires forall k :: 0 <= k < |pre| ==> IsSpace(pre[k])
    requires forall k :: 0 <= k < |post| ==> IsSpace(post[k])
    requires classify(message) == pre + NotBankingSentinel + post
    ensures BankbotReply(message, classify, ask) == RefusalReply
  {
    StripPadded(pre, NotBankingSentinel, post);
  }
}
