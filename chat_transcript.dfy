/** How `handle_userinput` writes out the conversation history returned by the
    retrieval chain: entry i is shown as the user's message when i is even and
    as the bot's message when i is odd, one written line per entry, in order.
    The chain call that produces the history is outside the model. */
module ChatTranscript {

  /** One entry of the chat history; only its content is shown. */
  datatype Message = Message(content: string)

  /** Who an entry is attributed to. */
  datatype Role = User | Bot

  datatype Option<T> = None | Some(value: T)

  /** The role given to history entry i. */
  function RoleAt(i: nat): Role
  {
    if i % 2 == 0 then User else Bot
  }

  /** The text written in front of a message of the given role. */
  function Prefix(role: Role): string
  {
    match role
    case User => "User: "
    case Bot => "Bot: "
  }

  /** The line written for history entry i. */
  function RenderLine(i: nat, m: Message): string
  {
    Prefix(RoleAt(i)) + m.content
  }

  /** The lines written for a whole history. */
  function Render(history: seq<Message>): (lines: seq<string>)
    ensures |lines| == |history|
    ensures forall i :: 0 <= i < |history| ==> lines[i] == RenderLine(i, history[i])
  {
    if history == [] then []
    else Render(history[..|history| - 1]) + [RenderLine(|history| - 1, history[|history| - 1])]
  }

  /** Reads a written line back: the role its prefix names and the content after it. */
  function ParseLine(s: string): Option<(Role, string)>
  {
    if |s| >= 6 && s[..6] == "User: " then Some((User, s[6..]))
    else if |s| >= 5 && s[..5] == "Bot: " then Some((Bot, s[5..]))
    else None
  }

  /** A written line reads back as the entry's role and its content, whatever
      the content is. */
  lemma ParseRenderLine(i: nat, m: Message)
    ensures ParseLine(RenderLine(i, m)) == Some((RoleAt(i), m.content))
  {
    var s := RenderLine(i, m);
    if i % 2 == 0 {
      assert s[..6] == "User: ";
      assert s[6..] == m.content;
    } else {
      assert s[..5] == "Bot: ";
      assert s[5..] == m.content;
      assert |s| >= 6 ==> s[..6][0] == 'B' != "User: "[0];
    }
  }

  /** Line i of the rendered history is labelled User exactly when i is even
      and Bot exactly when i is odd, and carries entry i's content. */
  lemma RenderLabels(history: seq<Message>, i: nat)
    requires i < |history|
    ensures ParseLine(Render(history)[i]) == Some((if i % 2 == 0 then User else Bot, history[i].content))
    ensures ParseLine(Render(history)[i]).value.0 == User <==> i % 2 == 0
    ensures ParseLine(Render(history)[i]).value.0 == Bot <==> i % 2 == 1
  {
    ParseRenderLine(i, history[i]);
  }

  /** Rendering a longer history keeps the lines already written for its
      beginning unchanged. */
  lemma RenderPrefix(history: seq<Message>, more: seq<Message>)
    ensures Render(history + more)[..|history|] == Render(history)
  {
  }

  /** The loop of `handle_userinput`: one line per history entry, in order,
      labelled by the parity of its index. */
  method HandleUserInput(chatHistory: seq<Message>) returns (written: seq<string>)
    ensures written == Render(chatHistory)
  {
    written := [];
    for i := 0 to |chatHistory|
      invariant written == Render(chatHistory[..i])
    {
      var message := chatHistory[i];
      if i % 2 == 0 {
        written := written + ["User: " + message.content];
      } else {
        written := written + ["Bot: " + message.content];
      }
      assert chatHistory[..i + 1][..i] == chatHistory[..i];
    }
    assert chatHistory[..|chatHistory|] == chatHistory;
  }
}
