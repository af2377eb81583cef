/** The greeting test shared by the title generator (bot.py:80) and the
    reply logic (bot.py:96-98). */
module Greeting {
  import opened PyStr

  /** The greeting literals. */
  const Greetings: seq<string> := ["hi", "hello", "hii", "hey", "haiii"]

  /** `message.lower().strip() in greetings`. */
  predicate IsGreeting(message: string) {
    Strip(Lower(message)) in Greetings
  }

  /** `s` is a greeting literal, in any letter case, at position `i` with
      length `n`, and only whitespace around it. */
  predicate GreetingAt(s: string, i: int, n: int) {
    0 <= i && 0 <= n && i + n <= |s| && Lower(s[i..i + n]) in Greetings &&
    (forall k :: 0 <= k < i ==> IsSpace(s[k])) &&
    (forall k :: i + n <= k < |s| ==> IsSpace(s[k]))
  }

  lemma GreetingsAreWords()
    ensures forall g :: g in Greetings ==> g != [] && !IsSpace(g[0]) && !IsSpace(g[|g| - 1])
  {
  }

  lemma GreetingHasPaddedForm(s: string)
    requires IsGreeting(s)
    ensures exists i, n :: GreetingAt(s, i, n)
  {
    var low := Lower(s);
    var r := Strip(low);
    var i :| PaddedAt(low, r, i);
    assert Lower(s[i..i + |r|]) == low[i..i + |r|];
    assert GreetingAt(s, i, |r|);
  }

  lemma PaddedFormIsGreeting(s: string, i: int, n: int)
    requires GreetingAt(s, i, n)
    ensures IsGreeting(s)
  {
    var pre, core, post := Lower(s[..i]), Lower(s[i..i + n]), Lower(s[i + n..]);
    assert s == s[..i] + s[i..i + n] + s[i + n..];
    LowerOfConcat(s[..i] + s[i..i + n], s[i + n..]);
    LowerOfConcat(s[..i], s[i..i + n]);
    GreetingsAreWords();
    StripPadded(pre, core, post);
  }

  /** A message is a greeting exactly when it is one of the greeting
      literals in any letter case, with any whitespace around it. */
  lemma GreetingIff(s: string)
    ensures IsGreeting(s) <==> exists i, n :: GreetingAt(s, i, n)
  {
    if IsGreeting(s) {
      GreetingHasPaddedForm(s);
    }
    if exists i, n :: GreetingAt(s, i, n) {
      var i, n :| GreetingAt(s, i, n);
      PaddedFormIsGreeting(s, i, n);
    }
  }

  /** A message whose text, lower-cased, has no surrounding whitespace and is
      not a greeting literal is not a greeting. */
  lemma NotGreeting(message: string)
    requires Lower(message) != [] && !IsSpace(Lower(message)[0])
    requires !IsSpace(Lower(message)[|message| - 1])
    requires Lower(message) !in Greetings
    ensures !IsGreeting(message)
  {
    StripPadded("", Lower(message), "");
    assert "" + Lower(message) + "" == Lower(message);
  }

  /** " HeLLo\n" is a greeting. */
  lemma PaddedGreetingExample()
    ensures IsGreeting(" HeLLo\n")
  {
    assert Lower(" HeLLo\n"[1..6]) == "hello";
    assert GreetingAt(" HeLLo\n", 1, 5);
    GreetingIff(" HeLLo\n");
  }
}
