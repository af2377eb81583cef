/** Chat messages and the sidebar title generator (`generate_chat_title` in
    bot.py). */
module ChatTitle {
  import opened Wrappers
  import opened PyStr
  import opened Greeting

  datatype Role = User | Assistant | System

  /** One role-tagged entry of a chat transcript. */
  datatype Message = Message(role: Role, content: string)

  /** A chat is its transcript, oldest message first. */
  type Chat = seq<Message>

  const NewChatTitle: string := "New Chat"

  /** The keyword-to-label table; its order is the matching priority. */
  const TopicMap: seq<(string, string)> := [
    ("emi", "EMI Query"),
    ("loan", "Loan Related Query"),
    ("interest", "Interest Rate Information"),
    ("account", "Account Information"),
    ("balance", "Account Balance Issue"),
    ("deposit", "Deposit Related Query"),
    ("fd", "Fixed Deposit Query"),
    ("rd", "Recurring Deposit Query"),
    ("credit", "Credit Card Query"),
    ("debit", "Debit Card Query"),
    ("atm", "ATM Related Query"),
    ("transaction", "Transaction Query"),
    ("statement", "Bank Statement Query"),
    ("kyc", "KYC Related Query"),
    ("net banking", "Net Banking Query"),
    ("upi", "UPI / Payment Query")
  ]

  /** Length of the fallback title. */
  const FallbackLength: nat := 30

  /** Position of the first entry of `table`, from the `from`-th on, whose
      keyword occurs in `text`. */
  function FindKeywordFrom(table: seq<(string, string)>, text: string, from: nat): (r: Option<nat>)
    ensures r.Some? ==> from <= r.value < |table| && Contains(text, table[r.value].0)
    ensures r.Some? ==> forall i :: from <= i < r.value ==> !Contains(text, table[i].0)
    ensures r.None? ==> forall i :: from <= i < |table| ==> !Contains(text, table[i].0)
    decreases |table| - from
  {
    if from >= |table| then None
    else if Contains(text, table[from].0) then Some(from)
    else FindKeywordFrom(table, text, from + 1)
  }

  /** `for keyword, title in topic_map.items(): if keyword in text`: the
      position of the first entry of `table` whose keyword occurs in `text`. */
  function FindKeyword(table: seq<(string, string)>, text: string): Option<nat> {
    FindKeywordFrom(table, text, 0)
  }

  /** The title a lower-cased user message gives: the label of the first
      keyword it contains, else its first 30 characters title-cased. */
  function TopicTitle(text: string): string {
    match FindKeyword(TopicMap, text)
    case Some(j) => TopicMap[j].1
    case None => TitleCase(Take(text, FallbackLength))
  }

  /** A message the title generator passes over: not from the user, or a
      greeting. */
  predicate Skipped(m: Message) {
    m.role != User || IsGreeting(m.content)
  }

  /** `generate_chat_title`: the loop over the messages, returning at the
      first user message that is not a greeting. */
  function GenerateChatTitle(chat: Chat): string {
    if chat == [] then NewChatTitle
    else if Skipped(chat[0]) then GenerateChatTitle(chat[1..])
    else TopicTitle(Lower(chat[0].content))
  }

  // ---------------------------------------------------------------- which message decides

  /** `k` is the first message of `chat` that the title generator does not
      skip. */
  predicate IsFirstUnskipped(chat: Chat, k: int) {
    0 <= k < |chat| && !Skipped(chat[k]) && forall i :: 0 <= i < k ==> Skipped(chat[i])
  }

  /** Position of the message that decides the title, if any. */
  function FirstUnskipped(chat: Chat): (r: Option<nat>)
    ensures r.Some? ==> IsFirstUnskipped(chat, r.value)
    ensures r.None? ==> forall i :: 0 <= i < |chat| ==> Skipped(chat[i])
  {
    if chat == [] then None
    else if !Skipped(chat[0]) then Some(0)
    else match FirstUnskipped(chat[1..])
      case None => None
      case Some(k) => Some(k + 1)
  }

  /** The title is decided by the first user message that is not a greeting:
      it is the topic title of that message, lower-cased. */
  lemma {:induction false} TitleOfFirstUnskipped(chat: Chat, k: nat)
    requires IsFirstUnskipped(chat, k)
    ensures GenerateChatTitle(chat) == TopicTitle(Lower(chat[k].content))
  {
    if k > 0 {
      assert IsFirstUnskipped(chat[1..], k - 1) by {
        forall i | 0 <= i < k - 1 ensures Skipped(chat[1..][i]) {
          assert chat[1..][i] == chat[i + 1];
        }
      }
      TitleOfFirstUnskipped(chat[1..], k - 1);
    }
  }

  /** With nothing but assistant messages and greetings, the title is
      "New Chat". */
  lemma {:induction false} TitleWhenAllSkipped(chat: Chat)
    requires forall i :: 0 <= i < |chat| ==> Skipped(chat[i])
    ensures GenerateChatTitle(chat) == NewChatTitle
  {
    if chat != [] {
      assert Skipped(chat[0]);
      assert forall i :: 0 <= i < |chat| - 1 ==> chat[1..][i] == chat[i + 1];
      TitleWhenAllSkipped(chat[1..]);
    }
  }

  /** Messages after the deciding one never change the title. */
  lemma TitleIgnoresLaterMessages(chat: Chat, later: Chat)
    requires FirstUnskipped(chat).Some?
    ensures GenerateChatTitle(chat + later) == GenerateChatTitle(chat)
  {
    var k := FirstUnskipped(chat).value;
    assert IsFirstUnskipped(chat + later, k) by {
      assert forall i :: 0 <= i < |chat| ==> (chat + later)[i] == chat[i];
    }
    TitleOfFirstUnskipped(chat, k);
    TitleOfFirstUnskipped(chat + later, k);
  }

  /** Assistant messages and greetings in front of a chat never change its
      title. */
  lemma TitleIgnoresSkippedPrefix(skipped: Chat, chat: Chat)
    requires forall i :: 0 <= i < |skipped| ==> Skipped(skipped[i])
    ensures GenerateChatTitle(skipped + chat) == GenerateChatTitle(chat)
  {
    var whole := skipped + chat;
    assert forall i :: 0 <= i < |skipped| ==> whole[i] == skipped[i];
    assert forall i :: |skipped| <= i < |whole| ==> whole[i] == chat[i - |skipped|];
    match FirstUnskipped(chat)
    case None =>
      TitleWhenAllSkipped(chat);
      TitleWhenAllSkipped(whole);
    case Some(k) =>
      assert IsFirstUnskipped(whole, |skipped| + k);
      TitleOfFirstUnskipped(chat, k);
      TitleOfFirstUnskipped(whole, |skipped| + k);
  }

  /** The title after one more turn (the user's input, then the reply): a
      chat that already has a deciding message keeps its title; otherwise a
      greeting leaves it "New Chat" and any other input decides it. */
  lemma TitleAfterTurn(chat: Chat, input: string, reply: string)
    ensures var after := chat + [Message(User, input), Message(Assistant, reply)];
      GenerateChatTitle(after) ==
        if FirstUnskipped(chat).Some? || IsGreeting(input) then GenerateChatTitle(chat)
        else TopicTitle(Lower(input))
  {
    var turn := [Message(User, input), Message(Assistant, reply)];
    if FirstUnskipped(chat).Some? {
      TitleIgnoresLaterMessages(chat, turn);
    } else {
      TitleIgnoresSkippedPrefix(chat, turn);
      TitleWhenAllSkipped(chat);
      if IsGreeting(input) {
        TitleWhenAllSkipped(turn);
      } else {
        TitleOfFirstUnskipped(turn, 0);
      }
    }
  }

  // ---------------------------------------------------------------- what a title can be

  /** The label of the first keyword in the table order wins, whatever other
      keywords the text also contains. */
  lemma FirstKeywordWins(text: string, j: nat)
    requires j < |TopicMap| && Contains(text, TopicMap[j].0)
    requires forall i :: 0 <= i < j ==> !Contains(text, TopicMap[i].0)
    ensures TopicTitle(text) == TopicMap[j].1
  {
  }

  /** Without a keyword the title is the first 30 characters of the text,
      changed in case only. */
  lemma FallbackTitle(text: string)
    requires FindKeyword(TopicMap, text).None?
    ensures |TopicTitle(text)| == if |text| < FallbackLength then |text| else FallbackLength
    ensures IsLowered(text) ==> Lower(TopicTitle(text)) == text[..|TopicTitle(text)|]
  {
    var head := Take(text, FallbackLength);
    if IsLowered(text) {
      assert IsLowered(head);
      LowerUndoesTitle(head);
    }
  }

  /** Every title is "New Chat", one of the table's labels, or the first 30
      characters of the deciding message, changed in case only. */
  lemma TitleRange(chat: Chat)
    ensures var t := GenerateChatTitle(chat);
      t == NewChatTitle ||
      (exists j :: 0 <= j < |TopicMap| && t == TopicMap[j].1) ||
      (exists k :: IsFirstUnskipped(chat, k) &&
         Lower(t) == Take(Lower(chat[k].content), FallbackLength))
  {
    match FirstUnskipped(chat)
    case None =>
      TitleWhenAllSkipped(chat);
    case Some(k) =>
      TitleOfFirstUnskipped(chat, k);
      var text := Lower(chat[k].content);
      match FindKeyword(TopicMap, text)
      case Some(j) =>
      case None =>
        FallbackTitle(text);
  }

  /** No label of the table reads "New Chat". */
  lemma LabelsAreNotNewChat()
    ensures forall j :: 0 <= j < |TopicMap| ==> TopicMap[j].1 != NewChatTitle
  {
    forall j | 0 <= j < |TopicMap| ensures TopicMap[j].1 != NewChatTitle {
      assert TopicMap[j].1[0] != 'N' || TopicMap[j].1 == "Net Banking Query";
    }
  }

  /** "New Chat" is the title exactly when no user message survives the
      greeting filter, or when the deciding message reads "new chat" in any
      case: that text contains no keyword and title-cases to "New Chat". */
  lemma TitleIsNewChatIff(chat: Chat)
    ensures GenerateChatTitle(chat) == NewChatTitle <==>
      FirstUnskipped(chat).None? ||
      Lower(chat[FirstUnskipped(chat).value].content) == "new chat"
  {
    match FirstUnskipped(chat)
    case None =>
      TitleWhenAllSkipped(chat);
    case Some(k) =>
      TitleOfFirstUnskipped(chat, k);
      var text := Lower(chat[k].content);
      if text == "new chat" {
        NewChatText();
      }
      if GenerateChatTitle(chat) == NewChatTitle {
        match FindKeyword(TopicMap, text)
        case Some(j) =>
          LabelsAreNotNewChat();
        case None =>
          FallbackReadsNewChat(text);
      }
  }

  /** The fallback title of a lower-cased text reads "New Chat" only when
      the text is "new chat". */
  lemma FallbackReadsNewChat(text: string)
    requires IsLowered(text) && TitleCase(Take(text, FallbackLength)) == NewChatTitle
    ensures text == "new chat"
  {
    var head := Take(text, FallbackLength);
    assert IsLowered(head);
    LowerUndoesTitle(head);
    assert Lower(NewChatTitle) == "new chat";
    assert |head| == 8;
  }

  // ---------------------------------------------------------------- examples

  /** No keyword of the table occurs in "new chat". */
  lemma NewChatText()
    ensures TopicTitle("new chat") == NewChatTitle
  {
    forall i | 0 <= i < |TopicMap| ensures !Contains("new chat", TopicMap[i].0) {
      if i == 0 {} else if i == 1 {} else if i == 2 {} else if i == 3 {}
      else if i == 4 {} else if i == 5 {} else if i == 6 {} else if i == 7 {}
      else if i == 8 {} else if i == 9 {} else if i == 10 {} else if i == 11 {}
      else if i == 12 {} else if i == 13 {} else if i == 14 {} else {}
    }
    assert TitleCase("new chat") == "New Chat";
  }

  /** A user who types "New Chat" gets a chat titled "New Chat" although a
      non-greeting user message exists. */
  lemma TypedNewChatLooksUntitled()
    ensures GenerateChatTitle([Message(User, "New Chat")]) == NewChatTitle
    ensures !Skipped(Message(User, "New Chat"))
  {
    assert Lower("New Chat") == "new chat";
    NotGreeting("New Chat");
    NewChatText();
  }

  /** "rd" comes before "credit" in the table and matches inside "card". */
  lemma CreditCardExample()
    ensures TopicTitle("credit card") == "Recurring Deposit Query"
  {
    forall i | 0 <= i < 7 ensures !Contains("credit card", TopicMap[i].0) {
      if i == 0 {} else if i == 1 {} else if i == 2 {} else if i == 3 {}
      else if i == 4 {} else if i == 5 {} else {}
    }
    assert Contains("credit card", TopicMap[7].0);
    FirstKeywordWins("credit card", 7);
  }

  /** "loan" comes before "interest" in the table. */
  lemma LoanInterestExample()
    ensures TopicTitle("loan interest") == "Loan Related Query"
  {
    assert !ContainsFrom("loan interest", "emi", 6);
    assert !Contains("loan interest", TopicMap[0].0);
    assert Contains("loan interest", TopicMap[1].0);
    FirstKeywordWins("loan interest", 1);
  }

  /** The keyword "kyc" is the first one found in "what is kyc?". */
  lemma KycText()
    ensures TopicTitle("what is kyc?") == "KYC Related Query"
  {
    forall i | 0 <= i < 13 ensures !Contains("what is kyc?", TopicMap[i].0) {
      if i == 0 {} else if i == 1 {} else if i == 2 {} else if i == 3 {}
      else if i == 4 {} else if i == 5 {} else if i == 6 {} else if i == 7 {}
      else if i == 8 {} else if i == 9 {} else if i == 10 {} else {}
    }
    assert Contains("what is kyc?", TopicMap[13].0);
    FirstKeywordWins("what is kyc?", 13);
  }

  lemma KycExample()
    ensures GenerateChatTitle([Message(User, "What is KYC?")]) == "KYC Related Query"
  {
    assert Lower("What is KYC?") == "what is kyc?";
    NotGreeting("What is KYC?");
    KycText();
  }
}
