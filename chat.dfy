/**
 * What the bots send to a Telegram chat, as values, and the shared way they
 * answer a search: one message per result, at most eleven of them.
 */
module Chat {

  import opened Go

  /** An inline button; `data` is what the button's callback receives. */
  datatype Button = Button(unique: string, caption: string, data: string)

  datatype Outbound =
    | Message(text: string, markdown: bool, buttons: seq<Button>)
    | Photo(url: string, caption: string, markdown: bool, buttons: seq<Button>)
    | Document(fileName: string, content: Bytes)
    | CallbackAnswer(text: string)

  function Plain(text: string): Outbound
  {
    Message(text, false, [])
  }

  const Searching := Plain("Searching...")
  const NoResult := Plain("No result found")

  /** The loop stops after sending the result at this index. */
  const LastIndex := 10

  function Min(a: int, b: int): int
  {
    if a <= b then a else b
  }

  /** The result loop of the text handlers: "No result found" when there is nothing;
      otherwise the results rendered in order, breaking after index 10, so that
      at most eleven are sent. */
  method SendResults<T>(results: seq<T>, render: T -> Outbound) returns (sent: seq<Outbound>)
    ensures results == [] ==> sent == [NoResult]
    ensures results != [] ==> |sent| == Min(|results|, LastIndex + 1)
    ensures results != [] ==> forall k | 0 <= k < |sent| :: sent[k] == render(results[k])
  {
    if |results| == 0 {
      return [NoResult];
    }
    sent := [];
    var i := 0;
    while i < |results|
      invariant 0 <= i <= |results| && i <= LastIndex
      invariant |sent| == i
      invariant forall k | 0 <= k < i :: sent[k] == render(results[k])
    {
      sent := sent + [render(results[i])];
      if i >= LastIndex {
        break;
      }
      i := i + 1;
    }
  }
}
