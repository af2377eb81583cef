/** The session state of bot.py (`st.session_state`): the archived chats,
    the chat on screen and the index of the chat opened from the sidebar,
    with one method per button or event that changes them. */
module Session {
  import opened Wrappers
  import opened ChatTitle
  import opened Reply

  /** A chat made of whole turns: a user message, then the assistant's reply. */
  predicate WellFormedChat(c: Chat) {
    |c| % 2 == 0 &&
    forall i :: 0 <= i < |c| ==> c[i].role == (if i % 2 == 0 then User else Assistant)
  }

  /** Appending a user message and then a reply keeps a chat made of whole
      turns. */
  lemma AppendTurnKeepsWellFormed(c: Chat, input: string, reply: string)
    requires WellFormedChat(c)
    ensures WellFormedChat(c + [Message(User, input), Message(Assistant, reply)])
  {
  }

  class SessionState {
    /** `st.session_state.all_chats` */
    var allChats: seq<Chat>
    /** `st.session_state.chat_history` */
    var chatHistory: Chat
    /** `st.session_state.selected_chat_idx` */
    var selectedChatIdx: Option<nat>

    /** What every operation keeps: all chats consist of whole turns, and no
        archived chat is empty. Whole turns rely on the reply oracles always
        returning; a failing model call would leave a user message without
        a reply. The selection is deliberately not part of it: deleting a
        chat can leave it out of range. */
    ghost predicate Valid()
      reads this
    {
      WellFormedChat(chatHistory) &&
      forall i :: 0 <= i < |allChats| ==> allChats[i] != [] && WellFormedChat(allChats[i])
    }

    /** The selection, if any, names an archived chat. */
    predicate SelectionInRange()
      reads this
    {
      selectedChatIdx.Some? ==> selectedChatIdx.value < |allChats|
    }

    /** The first run of the script: every field starts empty. */
    constructor ()
      ensures Valid()
      ensures allChats == [] && chatHistory == [] && selectedChatIdx == None
    {
      allChats := [];
      chatHistory := [];
      selectedChatIdx := None;
    }

    /** The "New Chat" button: archive a copy of the chat on screen if it is
        not empty, then start an empty one with nothing selected. */
    method NewChat()
      requires Valid()
      modifies this
      ensures Valid()
      ensures old(chatHistory) != [] ==> allChats == old(allChats) + [old(chatHistory)]
      ensures old(chatHistory) == [] ==> allChats == old(allChats)
      ensures chatHistory == [] && selectedChatIdx == None
    {
      if chatHistory != [] {
        allChats := allChats + [chatHistory];
      }
      chatHistory := [];
      selectedChatIdx := None;
    }

    /** The sidebar button that opens archived chat `idx` (one exists per
        archived chat). */
    method OpenChat(idx: nat)
      requires Valid() && idx < |allChats|
      modifies this
      ensures Valid() && SelectionInRange()
      ensures selectedChatIdx == Some(idx)
      ensures allChats == old(allChats) && chatHistory == old(chatHistory)
    {
      selectedChatIdx := Some(idx);
    }

    /** The delete button of chat `idx`: `all_chats.pop(idx)`, failing with
        nothing changed when `idx` is out of range; the selection is cleared
        when it named `idx` and is otherwise left as it was, not shifted. */
    method DeleteChat(idx: nat) returns (ok: bool)
      requires Valid()
      modifies this
      ensures Valid()
      ensures ok <==> idx < |old(allChats)|
      ensures !ok ==> allChats == old(allChats) && selectedChatIdx == old(selectedChatIdx)
      ensures ok ==> |allChats| == |old(allChats)| - 1
      ensures ok ==> forall i :: 0 <= i < idx ==> allChats[i] == old(allChats)[i]
      ensures ok ==> forall i :: idx <= i < |allChats| ==> allChats[i] == old(allChats)[i + 1]
      ensures ok ==> (selectedChatIdx ==
        if old(selectedChatIdx) == Some(idx) then None else old(selectedChatIdx))
      ensures chatHistory == old(chatHistory)
    {
      if idx >= |allChats| {
        return false;
      }
      allChats := allChats[..idx] + allChats[idx + 1..];
      if selectedChatIdx == Some(idx) {
        selectedChatIdx := None;
      }
      ok := true;
    }

    /** The step every run of the script takes after the sidebar: while a
        chat is selected, put a copy of it on screen. Indexing with a
        selection that is out of range fails, and nothing changes. */
    method LoadSelected() returns (ok: bool)
      requires Valid()
      modifies this
      ensures Valid()
      ensures ok <==> SelectionInRange()
      ensures ok && selectedChatIdx.Some? ==> chatHistory == allChats[selectedChatIdx.value]
      ensures !(ok && selectedChatIdx.Some?) ==> chatHistory == old(chatHistory)
      ensures allChats == old(allChats) && selectedChatIdx == old(selectedChatIdx)
    {
      match selectedChatIdx
      case None =>
        ok := true;
      case Some(i) =>
        if i < |allChats| {
          chatHistory := allChats[i];
          ok := true;
        } else {
          ok := false;
        }
    }

    /** The chat input: for a non-empty input, append the user's message and
        then the reply to the chat on screen. */
    method SubmitTurn(userInput: string, classify: string -> string, ask: string -> string)
      requires Valid()
      modifies this
      ensures Valid()
      ensures userInput == [] ==> chatHistory == old(chatHistory)
      ensures userInput != [] ==> (chatHistory == old(chatHistory) +
        [Message(User, userInput), Message(Assistant, BankbotReply(userInput, classify, ask))])
      ensures allChats == old(allChats) && selectedChatIdx == old(selectedChatIdx)
    {
      if userInput != [] {
        var before := chatHistory;
        chatHistory := chatHistory + [Message(User, userInput)];
        var reply := BankbotReply(userInput, classify, ask);
        chatHistory := chatHistory + [Message(Assistant, reply)];
        assert chatHistory == before + [Message(User, userInput), Message(Assistant, reply)];
        AppendTurnKeepsWellFormed(before, userInput, reply);
      }
    }
  }

  /** A turn typed into a reopened chat, followed by the rerun the script
      requests: the rerun puts the archived copy back on screen, so the turn
      is gone and the archive is unchanged. */
  method SubmitThenRerun(s: SessionState, userInput: string,
                         classify: string -> string, ask: string -> string) returns (ok: bool)
    requires s.Valid() && s.selectedChatIdx.Some? && s.SelectionInRange()
    modifies s
    ensures s.Valid() && ok
    ensures s.chatHistory == old(s.allChats[s.selectedChatIdx.value])
    ensures s.allChats == old(s.allChats) && s.selectedChatIdx == old(s.selectedChatIdx)
  {
    s.SubmitTurn(userInput, classify, ask);
    ok := s.LoadSelected();
  }

  /** Opening archived chat `idx` and then pressing "New Chat" archives a
      second copy of it. */
  method ReopenThenNewChat(s: SessionState, idx: nat)
    requires s.Valid() && idx < |s.allChats|
    modifies s
    ensures s.Valid()
    ensures s.allChats == old(s.allChats) + [old(s.allChats)[idx]]
    ensures s.chatHistory == [] && s.selectedChatIdx == None
  {
    s.OpenChat(idx);
    var ok := s.LoadSelected();
    s.NewChat();
  }

  /** Deleting a chat in front of the selected one, followed by the rerun:
      the selection keeps its number, so the chat after the one that was
      selected is put on screen, or the rerun fails when the selected chat
      was the last one. */
  method DeleteThenRerun(s: SessionState, idx: nat) returns (loaded: bool)
    requires s.Valid() && s.selectedChatIdx.Some? && s.SelectionInRange()
    requires idx < s.selectedChatIdx.value
    modifies s
    ensures s.Valid()
    ensures s.selectedChatIdx == old(s.selectedChatIdx)
    ensures loaded <==> old(s.selectedChatIdx.value) < |old(s.allChats)| - 1
    ensures loaded ==> s.chatHistory == old(s.allChats)[old(s.selectedChatIdx.value) + 1]
  {
    var deleted := s.DeleteChat(idx);
    loaded := s.LoadSelected();
  }
}
