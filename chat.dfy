/** The conversation as the chat page keeps it, and the request body built
    from it before each call to the completion endpoint. */
module Chat {

  datatype Option<T> = None | Some(value: T)

  datatype Role = System | User | Assistant

  /** One entry of the page's message list. `lastAnswer` is the final-answer
      text of an assistant turn; user turns built by the page carry none,
      which is written as "" here (it is never read for them). */
  datatype Message = Message(role: Role, content: string, lastAnswer: string)

  /** One `{role, content}` entry of the request body. */
  datatype WireMessage = WireMessage(role: Role, content: string)

  /** The text an entry sends: an assistant turn sends its reasoning
      followed by its final answer, every other turn its content. */
  function WireContent(m: Message): (r: string)
    ensures m.role != Assistant ==> r == m.content
    ensures m.role == Assistant ==> m.content <= r && r[|m.content|..] == m.lastAnswer
  {
    if m.role == Assistant then m.content + m.lastAnswer else m.content
  }

  /** The `_newMessages` mapping: one wire entry per message, in order. */
  function Payload(messages: seq<Message>): (r: seq<WireMessage>)
    ensures |r| == |messages|
    ensures forall i :: 0 <= i < |messages| ==>
      r[i].role == messages[i].role &&
      r[i].content == (if messages[i].role == Assistant
                       then messages[i].content + messages[i].lastAnswer
                       else messages[i].content)
  {
    if messages == [] then []
    else [WireMessage(messages[0].role, WireContent(messages[0]))] + Payload(messages[1..])
  }

  lemma {:induction false} PayloadAppend(p: seq<Message>, q: seq<Message>)
    ensures Payload(p + q) == Payload(p) + Payload(q)
  {
    if p == [] {
      assert p + q == q;
    } else {
      assert (p + q)[1..] == p[1..] + q;
      PayloadAppend(p[1..], q);
    }
  }

  lemma PayloadPair(m: Message, n: Message)
    ensures Payload([m, n]) == [WireMessage(m.role, WireContent(m)), WireMessage(n.role, WireContent(n))]
  {
    assert [m, n][1..] == [n];
    assert [n][1..] == [];
  }

  /** The two entries a send appends: the user's text, then an empty
      assistant turn that the stream fills in. */
  function SendPair(text: string): (r: seq<Message>)
    ensures |r| == 2 && r[0].role == User && r[1].role == Assistant
    ensures r[0].content == text && r[1].content == "" && r[1].lastAnswer == ""
  {
    [Message(User, text, ""), Message(Assistant, "", "")]
  }

  /** The request a send issues ends with the user's text, unchanged (blank
      text included), and an empty assistant entry; the earlier part is the
      payload of the conversation so far. */
  lemma SendPayload(messages: seq<Message>, text: string)
    ensures Payload(messages + SendPair(text))
         == Payload(messages) + [WireMessage(User, text), WireMessage(Assistant, "")]
  {
    var user, turn := Message(User, text, ""), Message(Assistant, "", "");
    PayloadAppend(messages, [user, turn]);
    assert Payload([user, turn]) == [WireMessage(User, text), WireMessage(Assistant, "")] by {
      PayloadPair(user, turn);
      assert WireContent(turn) == "";
    }
  }

  /** The `setMessages` updater of the stream: a copy of the list whose last
      entry is `m`. On an empty list the assignment to index -1 adds no
      element, so the list stays as it is. */
  function ReplaceLast(messages: seq<Message>, m: Message): (r: seq<Message>)
    ensures |r| == |messages|
    ensures forall i :: 0 <= i < |messages| - 1 ==> r[i] == messages[i]
    ensures |messages| > 0 ==> r[|messages| - 1] == m
  {
    if messages == [] then [] else messages[..|messages| - 1] + [m]
  }

  /** After a send, replacing the last entry fills in the assistant turn. */
  lemma ReplaceLastAfterSend(history: seq<Message>, text: string, m: Message)
    ensures ReplaceLast(history + SendPair(text), m) == history + [Message(User, text, ""), m]
  {
    var sent := history + SendPair(text);
    assert sent[..|sent| - 1] == history + [Message(User, text, "")];
  }

  /** Only the latest replacement of the last entry is visible. */
  lemma ReplaceLastTwice(messages: seq<Message>, m: Message, n: Message)
    ensures ReplaceLast(ReplaceLast(messages, m), n) == ReplaceLast(messages, n)
  {
  }
}
