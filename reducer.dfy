/** The stream reducer of the chat page: the chunks of one response are folded,
    one at a time, into a reasoning text and a final-answer text, split by the
    first chunk that contains the marker `=== Final Answer ===`. */
module Reducer {
  import opened Text
  import opened Chat

  const Marker: string := "=== Final Answer ==="

  /** The test made on each chunk on its own; a marker split over two chunks
      is not seen (see SplitMarkerMissed). */
  predicate IsMarkerChunk(marker: string, text: string)
    ensures IsMarkerChunk(marker, text) <==> exists i :: OccursAt(text, marker, i)
  {
    ContainsIff(text, marker);
    Contains(text, marker)
  }

  /** The three variables the reader keeps across chunks: the reasoning text
      (`accumulatedContent`), the final-answer text (`lastAccumulatedContent`)
      and whether the marker has been seen (`lastAnswer`). */
  datatype Acc = Acc(content: string, lastAnswer: string, sawMarker: bool)

  const Start: Acc := Acc("", "", false)

  /** One chunk. The marker test comes first, so a chunk with the marker adds
      nothing, whether or not the marker was seen before; any other chunk is
      added whole to exactly one accumulator, chosen by the flag. */
  function Step(marker: string, a: Acc, text: string): (r: Acc)
    ensures r.sawMarker == (a.sawMarker || IsMarkerChunk(marker, text))
    ensures a.content <= r.content && a.lastAnswer <= r.lastAnswer
    ensures IsMarkerChunk(marker, text) ==> r.content == a.content && r.lastAnswer == a.lastAnswer
    ensures !IsMarkerChunk(marker, text) ==>
      r.content[|a.content|..] + r.lastAnswer[|a.lastAnswer|..] == text
    ensures a.sawMarker ==> r.content == a.content
    ensures !r.sawMarker ==> r.lastAnswer == a.lastAnswer
  {
    if IsMarkerChunk(marker, text) then a.(sawMarker := true)
    else if a.sawMarker then a.(lastAnswer := a.lastAnswer + text)
    else a.(content := a.content + text)
  }

  /** The chunks taken in order from state `a`, one `readStream` call each. */
  function ReduceFrom(marker: string, a: Acc, chunks: seq<string>): (r: Acc)
    ensures a.content <= r.content && a.lastAnswer <= r.lastAnswer
    ensures a.sawMarker ==> r.sawMarker && r.content == a.content
    decreases |chunks|
  {
    if chunks == [] then a else ReduceFrom(marker, Step(marker, a, chunks[0]), chunks[1..])
  }

  /** The state after reading `chunks` of a fresh response. */
  function Reduce(marker: string, chunks: seq<string>): (r: Acc)
    ensures r.sawMarker <==> exists j :: 0 <= j < |chunks| && IsMarkerChunk(marker, chunks[j])
    ensures !r.sawMarker ==> r.lastAnswer == ""
  {
    ReduceFromSplit(marker, Start, chunks);
    ReduceFrom(marker, Start, chunks)
  }

  /** The index of the first chunk with the marker, or |chunks| if none has it. */
  function FirstMarker(marker: string, chunks: seq<string>): (k: nat)
    ensures k <= |chunks|
    ensures forall j :: 0 <= j < k ==> !IsMarkerChunk(marker, chunks[j])
    ensures k < |chunks| ==> IsMarkerChunk(marker, chunks[k])
  {
    if chunks == [] || IsMarkerChunk(marker, chunks[0]) then 0 else 1 + FirstMarker(marker, chunks[1..])
  }

  /** The chunks without the marker, in order. */
  function Visible(marker: string, chunks: seq<string>): (r: seq<string>)
    ensures forall i :: 0 <= i < |r| ==> !IsMarkerChunk(marker, r[i])
    ensures (forall j :: 0 <= j < |chunks| ==> !IsMarkerChunk(marker, chunks[j])) ==> r == chunks
    ensures |chunks| == 1 ==> r == if IsMarkerChunk(marker, chunks[0]) then [] else chunks
  {
    if chunks == [] then []
    else (if IsMarkerChunk(marker, chunks[0]) then [] else [chunks[0]]) + Visible(marker, chunks[1..])
  }

  lemma {:induction false} VisibleAppend(marker: string, p: seq<string>, q: seq<string>)
    ensures Visible(marker, p + q) == Visible(marker, p) + Visible(marker, q)
  {
    if p == [] {
      assert p + q == q;
    } else {
      assert (p + q)[0] == p[0];
      assert (p + q)[1..] == p[1..] + q;
      VisibleAppend(marker, p[1..], q);
    }
  }


  /** Reading `p` and then `q` is reading `p + q`. */
  lemma {:induction false} ReduceFromAppend(marker: string, a: Acc, p: seq<string>, q: seq<string>)
    ensures ReduceFrom(marker, a, p + q) == ReduceFrom(marker, ReduceFrom(marker, a, p), q)
    decreases |p|
  {
    if p == [] {
      assert p + q == q;
    } else {
      assert (p + q)[0] == p[0];
      assert (p + q)[1..] == p[1..] + q;
      ReduceFromAppend(marker, Step(marker, a, p[0]), p[1..], q);
    }
  }

  /** One more chunk is one more step. */
  lemma ReduceSnoc(marker: string, chunks: seq<string>, x: string)
    ensures Reduce(marker, chunks + [x]) == Step(marker, Reduce(marker, chunks), x)
  {
    ReduceFromAppend(marker, Start, chunks, [x]);
    assert [x][1..] == [];
  }

  /** Once the marker has been seen the flag stays set, the reasoning text is
      frozen, and every later marker-free chunk is appended to the final
      answer, in order. */
  lemma {:induction false} AfterMarker(marker: string, a: Acc, chunks: seq<string>)
    requires a.sawMarker
    ensures ReduceFrom(marker, a, chunks) == Acc(a.content, a.lastAnswer + Concat(Visible(marker, chunks)), true)
    decreases |chunks|
  {
    if chunks != [] {
      var rest := chunks[1..];
      var b := Step(marker, a, chunks[0]);
      var tail := Concat(Visible(marker, rest));
      AfterMarker(marker, b, rest);
      assert ReduceFrom(marker, a, chunks) == ReduceFrom(marker, b, rest);
      if IsMarkerChunk(marker, chunks[0]) {
        assert b == a;
        assert Visible(marker, chunks) == Visible(marker, rest);
      } else {
        assert b == a.(lastAnswer := a.lastAnswer + chunks[0]);
        assert Visible(marker, chunks) == [chunks[0]] + Visible(marker, rest);
        ConcatAppend([chunks[0]], Visible(marker, rest));
        ConcatSingle(chunks[0]);
        AppendAssoc(a.lastAnswer, chunks[0], tail);
      }
    } else {
      assert a.lastAnswer + "" == a.lastAnswer;
    }
  }

  /** From a state that has not seen the marker: the chunks before the first
      marker chunk go to the reasoning text, the marker-free chunks after it
      to the final answer, and the flag is set exactly when a marker chunk
      exists. */
  lemma {:induction false} ReduceFromSplit(marker: string, a: Acc, chunks: seq<string>)
    requires !a.sawMarker
    ensures var k := FirstMarker(marker, chunks);
      ReduceFrom(marker, a, chunks)
        == Acc(a.content + Concat(chunks[..k]),
               a.lastAnswer + Concat(Visible(marker, chunks[k..])),
               k < |chunks|)
    decreases |chunks|
  {
    if chunks == [] {
      assert chunks[..0] == [] && chunks[0..] == [];
    } else if IsMarkerChunk(marker, chunks[0]) {
      SplitAtHead(marker, a, chunks);
    } else {
      ReduceFromSplit(marker, Step(marker, a, chunks[0]), chunks[1..]);
      SplitPastHead(marker, a, chunks);
    }
  }

  /** ReduceFromSplit when the first chunk carries the marker. */
  lemma SplitAtHead(marker: string, a: Acc, chunks: seq<string>)
    requires !a.sawMarker && chunks != [] && IsMarkerChunk(marker, chunks[0])
    ensures ReduceFrom(marker, a, chunks)
         == Acc(a.content, a.lastAnswer + Concat(Visible(marker, chunks)), true)
  {
    AfterMarker(marker, Step(marker, a, chunks[0]), chunks[1..]);
    assert Visible(marker, chunks) == Visible(marker, chunks[1..]);
  }

  /** ReduceFromSplit when the first chunk is marker-free, given the split
      of the remaining chunks. */
  lemma SplitPastHead(marker: string, a: Acc, chunks: seq<string>)
    requires !a.sawMarker && chunks != [] && !IsMarkerChunk(marker, chunks[0])
    requires var b, rest := Step(marker, a, chunks[0]), chunks[1..];
      var k := FirstMarker(marker, rest);
      ReduceFrom(marker, b, rest)
        == Acc(b.content + Concat(rest[..k]), b.lastAnswer + Concat(Visible(marker, rest[k..])), k < |rest|)
    ensures var k := FirstMarker(marker, chunks);
      ReduceFrom(marker, a, chunks)
        == Acc(a.content + Concat(chunks[..k]),
               a.lastAnswer + Concat(Visible(marker, chunks[k..])),
               k < |chunks|)
  {
    var rest := chunks[1..];
    var k := FirstMarker(marker, chunks);
    var b := Step(marker, a, chunks[0]);
    var r := ReduceFrom(marker, b, rest);
    var x := Concat(rest[..k - 1]);
    assert k - 1 == FirstMarker(marker, rest);
    assert b.content == a.content + chunks[0] && b.lastAnswer == a.lastAnswer;
    assert ReduceFrom(marker, a, chunks) == r;
    assert r.content == (a.content + chunks[0]) + x;
    assert Concat(chunks[..k]) == chunks[0] + x by {
      ConcatTakeCons(chunks, k);
    }
    AppendAssoc(a.content, chunks[0], x);
    assert r.lastAnswer == a.lastAnswer + Concat(Visible(marker, chunks[k..])) by {
      TakeCons(chunks, k);
    }
  }

  /** The whole response: reasoning is the text before the first marker
      chunk, the final answer the marker-free text after it. */
  lemma ReduceSplit(marker: string, chunks: seq<string>)
    ensures var k := FirstMarker(marker, chunks);
      Reduce(marker, chunks) == Acc(Concat(chunks[..k]), Concat(Visible(marker, chunks[k..])), k < |chunks|)
  {
    var k := FirstMarker(marker, chunks);
    ReduceFromSplit(marker, Start, chunks);
    assert "" + Concat(chunks[..k]) == Concat(chunks[..k]);
    assert "" + Concat(Visible(marker, chunks[k..])) == Concat(Visible(marker, chunks[k..]));
  }

  /** Without a marker chunk, the reasoning text is all the chunks joined and
      the final answer is empty. */
  lemma NoMarkerFinal(marker: string, chunks: seq<string>)
    requires forall j :: 0 <= j < |chunks| ==> !IsMarkerChunk(marker, chunks[j])
    ensures Reduce(marker, chunks) == Acc(Concat(chunks), "", false)
  {
    ReduceSplit(marker, chunks);
    assert FirstMarker(marker, chunks) == |chunks|;
    assert chunks[..|chunks|] == chunks;
  }

  /** No text of a marker chunk, before or after the marker, reaches either
      accumulator: together they hold exactly the marker-free chunks. */
  lemma MarkerChunksDropped(marker: string, chunks: seq<string>)
    ensures Reduce(marker, chunks).content + Reduce(marker, chunks).lastAnswer == Concat(Visible(marker, chunks))
  {
    var k := FirstMarker(marker, chunks);
    var before, after := chunks[..k], chunks[k..];
    var r := Reduce(marker, chunks);
    assert r.content == Concat(before) && r.lastAnswer == Concat(Visible(marker, after)) by {
      ReduceSplit(marker, chunks);
    }
    assert Visible(marker, chunks) == before + Visible(marker, after) by {
      assert chunks == before + after;
      VisibleAppend(marker, before, after);
      BeforeMarkerVisible(marker, chunks);
    }
    ConcatAppend(before, Visible(marker, after));
  }

  /** The chunks before the first marker chunk are all visible. */
  lemma BeforeMarkerVisible(marker: string, chunks: seq<string>)
    ensures var k := FirstMarker(marker, chunks);
      Visible(marker, chunks[..k]) == chunks[..k]
  {
    var k := FirstMarker(marker, chunks);
    assert forall j :: 0 <= j < k ==> chunks[..k][j] == chunks[j];
  }

  /** Each published state extends the one published before it: both texts
      only grow by appending, and once the marker is seen the flag stays set
      and the reasoning text stays frozen. */
  lemma PublishedStatesGrow(marker: string, chunks: seq<string>, i: nat, j: nat)
    requires i <= j <= |chunks|
    ensures Reduce(marker, chunks[..i]).content <= Reduce(marker, chunks[..j]).content
    ensures Reduce(marker, chunks[..i]).lastAnswer <= Reduce(marker, chunks[..j]).lastAnswer
    ensures Reduce(marker, chunks[..i]).sawMarker ==>
      Reduce(marker, chunks[..j]).sawMarker && Reduce(marker, chunks[..j]).content == Reduce(marker, chunks[..i]).content
  {
    assert chunks[..j] == chunks[..i] + chunks[i..j];
    ReduceFromAppend(marker, Start, chunks[..i], chunks[i..j]);
  }

  /** An example, for any marker longer than one character: reasoning "A",
      final answer "BC". */
  lemma ExampleChunks(marker: string)
    requires |marker| > 1
    ensures Reduce(marker, ["A", marker, "B", "C"]) == Acc("A", "BC", true)
  {
    var chunks := ["A", marker, "B", "C"];
    ShorterNotContains("A", marker);
    ShorterNotContains("B", marker);
    ShorterNotContains("C", marker);
    assert IsMarkerChunk(marker, marker);
    ReduceSplit(marker, chunks);
    assert FirstMarker(marker, chunks) == 1;
    assert chunks[..1] == ["A"];
    assert chunks[1..] == [marker, "B", "C"];
    assert Visible(marker, [marker, "B", "C"]) == ["B", "C"];
    ConcatSingle("A");
    ConcatPair("B", "C");
  }

  /** The same example with the marker the page tests for. */
  lemma FinalAnswerMarkerExample()
    ensures Reduce(Marker, ["A", Marker, "B", "C"]) == Acc("A", "BC", true)
  {
    ExampleChunks(Marker);
  }

  /** A marker split over two chunks is not recognised, wherever the split
      falls: neither part contains it, so the marker's own text ends up in
      the reasoning and the final answer stays empty. */
  lemma SplitMarkerMissed(marker: string, i: nat)
    requires 0 < i < |marker|
    ensures !IsMarkerChunk(marker, marker[..i]) && !IsMarkerChunk(marker, marker[i..])
    ensures Contains(Concat([marker[..i], marker[i..]]), marker)
    ensures Reduce(marker, [marker[..i], marker[i..]]) == Acc(marker, "", false)
  {
    var first, second := marker[..i], marker[i..];
    assert !IsMarkerChunk(marker, first) by { ShorterNotContains(first, marker); }
    assert !IsMarkerChunk(marker, second) by { ShorterNotContains(second, marker); }
    assert Concat([first, second]) == marker by {
      ConcatPair(first, second);
      assert first + second == marker;
    }
    assert Contains(marker, marker);
    NoMarkerFinal(marker, [first, second]);
  }

  /** The assistant entry published after a chunk (the two `setMessages`
      updaters): the final answer is shown only once the marker was seen. */
  function Published(a: Acc): (m: Message)
    ensures m.role == Assistant && m.content == a.content
    ensures m.lastAnswer == (if a.sawMarker then a.lastAnswer else "")
  {
    Message(Assistant, a.content, if a.sawMarker then a.lastAnswer else "")
  }

  /** The message list after the chunks of one response have been read: the
      last entry is replaced after every marker-free chunk and never
      otherwise. */
  function MessagesAfter(marker: string, messages: seq<Message>, chunks: seq<string>): (r: seq<Message>)
    ensures |r| == |messages|
    ensures forall i :: 0 <= i < |messages| - 1 ==> r[i] == messages[i]
    ensures Visible(marker, chunks) == [] ==> r == messages
  {
    if Visible(marker, chunks) == [] then messages
    else ReplaceLast(messages, Published(Reduce(marker, chunks)))
  }

  /** How MessagesAfter moves on by one chunk: a marker chunk leaves the list
      as it is, any other chunk republishes the last entry. */
  lemma MessagesAfterSnoc(marker: string, messages: seq<Message>, chunks: seq<string>, x: string)
    ensures MessagesAfter(marker, messages, chunks + [x])
         == if IsMarkerChunk(marker, x) then MessagesAfter(marker, messages, chunks)
            else ReplaceLast(MessagesAfter(marker, messages, chunks), Published(Reduce(marker, chunks + [x])))
  {
    VisibleAppend(marker, chunks, [x]);
    assert Visible(marker, [x]) == if IsMarkerChunk(marker, x) then [] else [x];
    ReduceSnoc(marker, chunks, x);
    ReduceSplit(marker, chunks);
    if IsMarkerChunk(marker, x) {
      assert Published(Reduce(marker, chunks + [x])) == Published(Reduce(marker, chunks));
    }
  }

  /** One full exchange: after a send appended the user's text and an empty
      assistant entry, reading the response leaves the history untouched,
      keeps the user entry, and fills the assistant entry with the split
      texts. */
  lemma StreamedTurn(marker: string, history: seq<Message>, text: string, chunks: seq<string>)
    ensures var k := FirstMarker(marker, chunks);
      MessagesAfter(marker, history + SendPair(text), chunks)
        == history + [Message(User, text, ""),
                      Message(Assistant, Concat(chunks[..k]), Concat(Visible(marker, chunks[k..])))]
  {
    var k := FirstMarker(marker, chunks);
    var turn := Message(Assistant, Concat(chunks[..k]), Concat(Visible(marker, chunks[k..])));
    var sent := history + SendPair(text);
    if Visible(marker, chunks) == [] {
      NothingVisible(marker, chunks);
      assert sent == history + [Message(User, text, ""), turn];
    } else {
      FinalPublished(marker, chunks);
      ReplaceLastAfterSend(history, text, turn);
    }
  }

  /** The entry published for a whole response holds the split texts. */
  lemma FinalPublished(marker: string, chunks: seq<string>)
    ensures var k := FirstMarker(marker, chunks);
      Published(Reduce(marker, chunks))
        == Message(Assistant, Concat(chunks[..k]), Concat(Visible(marker, chunks[k..])))
  {
    var k := FirstMarker(marker, chunks);
    ReduceSplit(marker, chunks);
    if k == |chunks| {
      assert chunks[k..] == [];
    }
  }

  /** A response of marker chunks only leaves both texts empty. */
  lemma NothingVisible(marker: string, chunks: seq<string>)
    requires Visible(marker, chunks) == []
    ensures var k := FirstMarker(marker, chunks);
      Concat(chunks[..k]) == "" && Concat(Visible(marker, chunks[k..])) == ""
  {
    var k := FirstMarker(marker, chunks);
    assert chunks == chunks[..k] + chunks[k..];
    VisibleAppend(marker, chunks[..k], chunks[k..]);
    BeforeMarkerVisible(marker, chunks);
  }

  /** The next request after that exchange sends the user's text and, for
      the assistant turn, all the marker-free text of the response. */
  lemma StreamedRequest(marker: string, history: seq<Message>, text: string, chunks: seq<string>)
    ensures Payload(MessagesAfter(marker, history + SendPair(text), chunks))
         == Payload(history) + [WireMessage(User, text), WireMessage(Assistant, Concat(Visible(marker, chunks)))]
  {
    var k := FirstMarker(marker, chunks);
    var user := Message(User, text, "");
    var turn := Message(Assistant, Concat(chunks[..k]), Concat(Visible(marker, chunks[k..])));
    StreamedTurn(marker, history, text, chunks);
    ReduceSplit(marker, chunks);
    MarkerChunksDropped(marker, chunks);
    assert WireContent(turn) == Concat(Visible(marker, chunks));
    PayloadAppend(history, [user, turn]);
    PayloadPair(user, turn);
  }
}
