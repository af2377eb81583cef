# BankSense AI chat core, modelled in Dafny

BankSense AI is a single-page chat front-end that restricts a hosted
language model to banking questions. This project models its core,
which lives in `bot.py`:

- **The sidebar title generator** (`generate_chat_title`). It goes through the
  messages of a chat. It skips assistant messages and user greetings. For the
  first remaining user message it returns the label of the first keyword of an
  ordered table found in the lower-cased text. Without a keyword it returns the
  first 30 characters, title-cased. With no such message it returns
  "New Chat". See `chat_title.dfy`.
- **The reply logic** (`bankbot_reply`). A greeting gets a fixed reply. Any
  other message is passed to a classifier. If the classifier says banking, the
  model's answer is returned; otherwise a fixed refusal is. See `reply.dfy`.
  The greeting test is shared with the title generator and lives in
  `greeting.dfy`.
- **The session state** (`st.session_state`): the archived chats, the chat on
  screen and the index of the opened chat. These are the fields of the class
  `Session.SessionState`. Each button or event that changes them is a method:
  New Chat, open, delete, the load step every rerun performs, and submitting a
  turn. See `session.dfy`.

`pystr.dfy` gives the Python string operations the code uses (`lower`,
`strip`, `title`, `s[:n]`, `in`) over ASCII. `wrappers.dfy` holds the
`Option` type used for `None`.

Behaviour the proofs make explicit:

- A chat whose deciding user message is "new chat", in any case, is also
  titled "New Chat". So "New Chat" does not mean that every user message was a
  greeting (`TitleIsNewChatIff`, `TypedNewChatLooksUntitled`).
- Keyword search is raw substring search in table order. "rd" comes before
  "credit" and fires inside "card", so "credit card" is titled
  "Recurring Deposit Query" (`CreditCardExample`).
- Deleting a chat in front of the opened one does not shift the selection.
  The next rerun then opens the following chat, or fails at bot.py:152 when
  the opened chat was the last one (`DeleteThenRerun`).
- A turn submitted while an archived chat is open is appended to the copy on
  screen. The rerun the script then requests reloads the archived copy, so
  the turn disappears (`SubmitThenRerun`).
- Opening a chat and pressing New Chat archives a second copy of it
  (`ReopenThenNewChat`).

Further consequences of the code as written:

- For "Why is the sky blue today friend" the fallback title is the first 30
  characters, title-cased: "Why Is The Sky Blue Today Frie" (`FallbackTitle`).
- After a delete, the selection can name no chat (`DeleteThenRerun`).
- Opening a chat only stores its index. An out-of-range index fails when the
  chat is loaded (`LoadSelected`).

## Model

| member | source | states |
|---|---|---|
| `PyStr.Lower` | bot.py:77 | `lower()` keeps the length and lower-cases each ASCII letter, position by position |
| `PyStr.Take` | bot.py:89 | `text[:30]` is the prefix of length min(30, len) |
| `PyStr.TitleCase` | bot.py:89 | `title()` keeps the length of the text |
| `PyStr.TitleChar` | bot.py:89 | one character of `title()`: the same letter, its case following whether the previous character is cased; non-letters are kept |
| `PyStr.LowerUndoesTitle` | bot.py:89 | title-casing a lower-cased text changes only letter case: lower-casing gives the text back |
| `PyStr.Strip` | bot.py:80 | `strip()` returns a window of the input with only whitespace outside it, and no whitespace at either end |
| `PyStr.StripPadded` | bot.py:80 | stripping whitespace padding around a word gives back exactly that word |
| `PyStr.StripIff` | bot.py:80 | stripping gives a word without outer whitespace iff the text is that word with only whitespace around it |
| `PyStr.Contains` | bot.py:85 | `keyword in text`, a left-to-right search; specified by `ContainsFromIff` and `ContainsIff` |
| `PyStr.ContainsFromIff` | bot.py:85 | the left-to-right search from a position finds the keyword iff it occurs at that position or later |
| `PyStr.ContainsIff` | bot.py:85 | `keyword in text` holds iff the keyword occurs at some position of the text |
| `Greeting.IsGreeting` | bot.py:77-80 | `text.lower().strip() in [...]` with the five greetings; specified by `GreetingIff`, `GreetingHasPaddedForm`, `PaddedFormIsGreeting` and `NotGreeting` |
| `Greeting.GreetingIff` | bot.py:96-98 | a message is a greeting iff it is one of the five literals in any letter case with only whitespace around it |
| `Greeting.GreetingHasPaddedForm` | bot.py:80 | every greeting is a literal, up to case, padded with whitespace |
| `Greeting.PaddedFormIsGreeting` | bot.py:98 | every literal, in any case and with any whitespace padding, is a greeting |
| `Greeting.NotGreeting` | bot.py:80 | a text that lower-cases to a non-literal without outer whitespace is not a greeting |
| `Greeting.PaddedGreetingExample` | bot.py:98 | " HeLLo\n" is a greeting |
| `ChatTitle.GenerateChatTitle` | bot.py:51-91 | `generate_chat_title`; specified by `TitleOfFirstUnskipped`, `TitleWhenAllSkipped`, `TitleIsNewChatIff` and `TitleRange` |
| `ChatTitle.TopicTitle` | bot.py:56-89 | the title one lower-cased message gives, from the ordered keyword table `TopicMap` (bot.py:56-73); specified by `FirstKeywordWins` and `FallbackTitle` |
| `ChatTitle.FindKeywordFrom` | bot.py:84-86 | the table position returned holds a keyword in the text and no earlier keyword is in it; none is returned only if no keyword is in it |
| `ChatTitle.FirstUnskipped` | bot.py:75-81 | the position returned is the first user message that is not a greeting; none is returned only if every message is skipped |
| `ChatTitle.TitleOfFirstUnskipped` | bot.py:75-89 | the title is the topic title of the first non-greeting user message |
| `ChatTitle.TitleWhenAllSkipped` | bot.py:75-91 | with only non-user messages and greetings, the title is "New Chat" |
| `ChatTitle.TitleIgnoresLaterMessages` | bot.py:75-89 | once a deciding message exists, appending any messages never changes the title |
| `ChatTitle.TitleIgnoresSkippedPrefix` | bot.py:75-81 | putting non-user messages and greetings in front of a chat never changes its title |
| `ChatTitle.TitleAfterTurn` | bot.py:165-174 | after a turn, a decided title stays; otherwise a greeting keeps "New Chat" and any other input decides the title |
| `ChatTitle.FirstKeywordWins` | bot.py:56-86 | the label of the first table keyword found wins, whatever later keywords the text contains |
| `ChatTitle.FallbackTitle` | bot.py:89 | without a keyword the title has length min(len, 30) and is the first 30 characters up to case |
| `ChatTitle.TitleRange` | bot.py:84-91 | every title is "New Chat", a table label, or the first 30 characters of the deciding message up to case |
| `ChatTitle.LabelsAreNotNewChat` | bot.py:56-73 | no table label reads "New Chat" |
| `ChatTitle.TitleIsNewChatIff` | bot.py:75-91 | the title is "New Chat" iff no message decides it, or the deciding message lower-cases to "new chat" |
| `ChatTitle.FallbackReadsNewChat` | bot.py:89 | the fallback title of a lower-cased text reads "New Chat" only when the text is "new chat" |
| `ChatTitle.NewChatText` | bot.py:84-89 | "new chat" holds no keyword and title-cases to "New Chat" |
| `ChatTitle.TypedNewChatLooksUntitled` | bot.py:75-91 | a chat whose only user message is "New Chat" is titled "New Chat" although that message is not skipped |
| `ChatTitle.CreditCardExample` | bot.py:63-65 | "credit card" is titled "Recurring Deposit Query": "rd" in "card" outranks "credit" |
| `ChatTitle.LoanInterestExample` | bot.py:57-59 | "loan interest" is titled "Loan Related Query", not "Interest Rate Information" |
| `ChatTitle.KycText` | bot.py:70 | "kyc" is the first keyword found in "what is kyc?" |
| `ChatTitle.KycExample` | bot.py:75-86 | a chat whose user message is "What is KYC?" is titled "KYC Related Query" |
| `Reply.BankbotReply` | bot.py:95-107 | `bankbot_reply`; specified by `GreetingShortCircuits`, `NonGreetingDispatch`, `ReplyDependsOnlyOnMessage` and `PaddedSentinelRefused` |
| `Reply.BankingQuery` | banking_intellect.py:29-33 | `banking_query` after the model call; specified by `BankingQueryIff` |
| `Reply.BankingQueryIff` | banking_intellect.py:29-33 | a question counts as banking iff the classifier's answer is not the sentinel with only whitespace around it |
| `Reply.GreetingShortCircuits` | bot.py:98-99 | a greeting in any case and padding gets the greeting reply, whatever the classifier and the model would say |
| `Reply.NonGreetingDispatch` | bot.py:102-107 | any other message gets the model's answer unless the classifier answers the sentinel, and then the refusal |
| `Reply.ReplyDependsOnlyOnMessage` | bot.py:95-107 | the reply consults the oracles only about the message itself, and not at all for a greeting |
| `Reply.PaddedSentinelRefused` | banking_intellect.py:29-33 | for a non-greeting, a classifier answer of the sentinel with any whitespace before and after it yields the refusal |
| `Session.SessionState.constructor` | bot.py:9-16 | the session starts with no archived chat, an empty chat on screen and no selection |
| `Session.SessionState.NewChat` | bot.py:141-147 | a non-empty chat on screen is archived as one new last entry; an empty one adds nothing; then the screen is empty and nothing is selected |
| `Session.SessionState.OpenChat` | bot.py:125-126 | opening chat idx selects idx and changes nothing else |
| `Session.SessionState.DeleteChat` | bot.py:130-133 | removes exactly entry idx, earlier entries kept, later ones shifted down by one; the selection is cleared iff it was idx and otherwise kept unshifted; an out-of-range idx changes nothing |
| `Session.SessionState.LoadSelected` | bot.py:151-154 | with a selection in range the screen shows a copy of that chat; an out-of-range selection fails and changes nothing |
| `Session.SessionState.SubmitTurn` | bot.py:165-174 | a non-empty input appends exactly the user message and then the reply, and leaves the archive and the selection alone; an empty input changes nothing |
| `Session.SubmitThenRerun` | bot.py:151-176 | a turn typed into an opened chat is discarded by the rerun, and the archive is unchanged |
| `Session.ReopenThenNewChat` | bot.py:125-154 | opening a chat and pressing New Chat appends a duplicate of it to the archive |
| `Session.DeleteThenRerun` | bot.py:130-154 | deleting in front of the selection keeps its number; the rerun shows the next chat, or fails when the selected chat was the last |

## Left out

- Streamlit rendering is not modelled: widgets, columns, the spinner, page setup and the transcript display (bot.py:6, 114-138, 157-163). Each button is a method call. The rerun that `st.rerun()` starts is modelled by calling `LoadSelected`, the only state-changing step a rerun makes before any button.
- The sidebar loop that computes a title per archived chat (bot.py:118-121) is rendering. `GenerateChatTitle` is what it applies to each chat.
- The hosted model call is not modelled (`ask_ollama`, bot.py:35-48, and the `ollama_chat` call inside `banking_query`). Two function parameters stand for it: `classify` gives the raw classifier answer and `ask` gives the model's answer. Only the local test `answer.strip() == "NOT_BANKING"` is modelled, as `BankingQuery`.
- A failing model call is not modelled. bot.py:166 appends the user's message before bot.py:170 calls `bankbot_reply`. Any exception in the classifier or the model call (a network failure, a time-out, a missing model) therefore leaves a user message without a reply. `banking_query` also passes `BANKING_SYSTEM_PROMPT`, which is never defined; banking_intellect.py:3 defines only `BANKING_ANSWER_PROMPT`. As written, every non-greeting input would raise `NameError` at that point. The model follows the evident intent: both oracles always return. So `SubmitTurn` always appends a whole turn, and `SessionState.Valid` excludes the half turn a failure would leave.
- The prompt texts (bot.py:19-29, banking_intellect.py:3-13) are opaque to the model and are not represented.
- `lower`, `strip` and `title` are modelled over ASCII only. Other characters are kept as they are and count as uncased, so Unicode case mapping, length changes under `lower()` and non-ASCII whitespace are not captured.
- Python negative indexes for `pop` are not modelled: `idx` is a `nat`, as the sidebar only offers indices from `enumerate`.
- The long literals "I want to check my loan interest rate" and "Why is the sky blue today friend" are not evaluated literally. The verifier cannot cheaply run a substring search over literals of that length. `FirstKeywordWins` and `FallbackTitle` state the general rules those texts follow, and the short literals "loan interest", "credit card", "what is kyc?" and "new chat" are evaluated.
