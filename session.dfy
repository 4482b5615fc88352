/** The chat page's state and the handlers that change it: the send/stop
    button, the reader that consumes one streamed response, and the ends of a
    request (stream done, fetch rejected). */
module Session {
  import opened Text
  import opened Chat
  import opened Reducer

  /** The abort controller shared by every request of the page. It is
      created once, so an abort is never undone. */
  class Controller {
    var aborted: bool

    constructor ()
      ensures !aborted
    {
      aborted := false;
    }

    method Abort()
      modifies this
      ensures aborted
    {
      aborted := true;
    }
  }

  /** The page component: the message list, the input box and the flag that
      turns the send button into a stop button. */
  class App {
    var messages: seq<Message>
    var message: string
    var isSending: bool
    const controller: Controller

    constructor (controller: Controller)
      ensures this.controller == controller
      ensures messages == [] && message == "" && !isSending
    {
      this.controller := controller;
      messages := [];
      message := "";
      isSending := false;
    }

    /** Typing in the input box. */
    method OnInput(text: string)
      modifies this`message
      ensures message == text
    {
      message := text;
    }

    /** The send/stop button. While a request is in flight it aborts the
        shared controller and leaves the messages alone. Otherwise it appends
        the user's text (blank text too) and an empty assistant entry, clears
        the input, and returns the request body for the new list. */
    method HandleSendMessage() returns (request: Option<seq<WireMessage>>)
      modifies this`messages, this`message, this`isSending, controller
      ensures !isSending <==> old(isSending)
      ensures old(isSending) ==>
        request == None && controller.aborted &&
        messages == old(messages) && message == old(message)
      ensures !old(isSending) ==>
        messages == old(messages) + SendPair(old(message)) && message == "" &&
        controller.aborted == old(controller.aborted) &&
        request == Some(Payload(old(messages)) +
                        [WireMessage(User, old(message)), WireMessage(Assistant, "")])
    {
      if isSending {
        controller.Abort();
        isSending := false;
        return None;
      }
      var newMessages := messages + SendPair(message);
      SendPayload(messages, message);
      messages := newMessages;
      message := "";
      isSending := true;
      request := Some(Payload(newMessages));
    }

    /** The end of a request: the stream reported done, or the fetch was
        rejected (aborted or failed). The messages are left as they are. */
    method EndRequest()
      modifies this`isSending
      ensures !isSending
    {
      isSending := false;
    }
  }

  /** The variables one `readStream` loop keeps across chunks. */
  class StreamReader {
    var accumulatedContent: string
    var lastAccumulatedContent: string
    var lastAnswer: bool

    function State(): Acc
      reads this
    {
      Acc(accumulatedContent, lastAccumulatedContent, lastAnswer)
    }

    constructor ()
      ensures State() == Start
    {
      accumulatedContent := "";
      lastAccumulatedContent := "";
      lastAnswer := false;
    }

    /** One chunk of the response. A chunk with the marker only sets the flag;
        any other chunk is appended to the accumulator the flag selects, and
        the page's last entry is replaced by the assistant entry built from
        the accumulators. */
    method Read(app: App, text: string)
      modifies this, app`messages
      ensures State() == Step(Marker, old(State()), text)
      ensures app.messages == if IsMarkerChunk(Marker, text) then old(app.messages)
                              else ReplaceLast(old(app.messages), Published(State()))
    {
      if Contains(text, Marker) {
        lastAnswer := true;
        return;
      }
      if lastAnswer {
        lastAccumulatedContent := lastAccumulatedContent + text;
        app.messages := ReplaceLast(app.messages,
                          Message(Assistant, accumulatedContent, lastAccumulatedContent));
      } else {
        accumulatedContent := accumulatedContent + text;
        app.messages := ReplaceLast(app.messages, Message(Assistant, accumulatedContent, ""));
      }
    }
  }

  /** How the response to a request ends, after the chunks that were read. */
  datatype StreamEnd =
    | Done        // the reader reports the end of the body
    | StopPressed // the user presses the stop button; later reads are aborted
    | ReadFailed  // a read rejects; the rejection escapes the fetch's catch

  /** What the network does with one request. */
  datatype Transport =
    | Response(chunks: seq<string>, end: StreamEnd)
    | FetchFailed

  /** The reading loop of one response: each chunk goes through the reader,
      in order, and the page's list ends as `MessagesAfter` says. */
  method ReadResponse(app: App, chunks: seq<string>)
    modifies app`messages
    ensures app.messages == MessagesAfter(Marker, old(app.messages), chunks)
  {
    var reader := new StreamReader();
    var i := 0;
    assert chunks[..0] == [];
    while i < |chunks|
      invariant 0 <= i <= |chunks|
      invariant reader.State() == Reduce(Marker, chunks[..i])
      invariant app.messages == MessagesAfter(Marker, old(app.messages), chunks[..i])
      modifies reader, app`messages
    {
      assert chunks[..i + 1] == chunks[..i] + [chunks[i]];
      ReduceSnoc(Marker, chunks[..i], chunks[i]);
      MessagesAfterSnoc(Marker, old(app.messages), chunks[..i], chunks[i]);
      reader.Read(app, chunks[i]);
      i := i + 1;
    }
    assert chunks[..i] == chunks;
  }

  /** The life of one request after the send: the fetch is rejected at once
      if the shared controller was ever aborted, or if the network fails;
      otherwise the chunks are read in order, each through the reader, and
      the stream ends as `transport` says. */
  method GetStream(app: App, transport: Transport)
    requires app.isSending
    modifies app`messages, app`isSending, app`message, app.controller
    ensures app.message == old(app.message)
    ensures old(app.controller.aborted) || transport.FetchFailed? ==>
      app.messages == old(app.messages) && !app.isSending &&
      app.controller.aborted == old(app.controller.aborted)
    ensures !old(app.controller.aborted) && transport.Response? ==>
      app.messages == MessagesAfter(Marker, old(app.messages), transport.chunks) &&
      app.isSending == (transport.end == ReadFailed) &&
      app.controller.aborted == (transport.end == StopPressed)
  {
    if app.controller.aborted || transport.FetchFailed? {
      app.EndRequest();
      return;
    }
    ReadResponse(app, transport.chunks);
    match transport.end
    case Done =>
      app.EndRequest();
    case StopPressed =>
      var request := app.HandleSendMessage();
    case ReadFailed =>
  }

  /** A conversation in which the user stops the first answer and then asks
      again: the second request is rejected at once because the controller
      stays aborted, so the second turn stays exactly as the send left it,
      with an empty assistant entry. What the first turn holds is stated by
      StreamedTurn. */
  method StopThenAskAgain(first: seq<string>, question: string) returns (final: seq<Message>)
    ensures final == MessagesAfter(Marker, SendPair("hello"), first) + SendPair(question)
    ensures final[|final| - 1] == Message(Assistant, "", "")
  {
    var controller := new Controller();
    var app := new App(controller);
    app.OnInput("hello");
    var request := app.HandleSendMessage();
    assert [] + SendPair("hello") == SendPair("hello");
    GetStream(app, Response(first, StopPressed));
    assert !app.isSending && controller.aborted;
    var turn := app.messages;
    app.OnInput(question);
    request := app.HandleSendMessage();
    GetStream(app, Response(["never shown"], Done));
    assert app.messages == turn + SendPair(question);
    final := app.messages;
  }
}
