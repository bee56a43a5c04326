/** The request body limit of `backend/app/middleware/security_headers.py`: the wrapped
    `receive` that counts the streamed bytes. */
module BodyLimit {
  import opened Text

  type Bytes = seq<bv8>

  /** An ASGI event; `Other` stands for every event that is not `http.request`. */
  datatype Message = Body(body: Bytes, more: bool) | Disconnect | Other(kind: string)

  datatype State = State(received: nat, sent: bool)

  function Size(m: Message): nat {
    match m
    case Body(body, _) => |body|
    case _ => 0
  }

  /** A body message takes the running count beyond the limit. */
  predicate Crosses(received: nat, m: Message, maxSize: int) {
    m.Body? && received + Size(m) > maxSize
  }

  function Next(s: State, m: Message, maxSize: int): State {
    State(s.received + Size(m), s.sent || Crosses(s.received, m, maxSize))
  }

  class Receiver {
    const maxSize: int
    var receivedBytes: nat
    var responseSent: bool

    constructor (maxSize: int)
      ensures this.maxSize == maxSize && Value() == State(0, false)
    {
      this.maxSize := maxSize;
      receivedBytes, responseSent := 0, false;
    }

    ghost function Value(): State
      reads this
    {
      State(receivedBytes, responseSent)
    }

    /** `rejected` tells that the 413 response was sent. */
    method CustomReceive(message: Message) returns (delivered: Message, rejected: bool)
      modifies this
      ensures Value() == Next(old(Value()), message, maxSize)
      ensures rejected == (!old(responseSent) && responseSent)
      ensures delivered == if rejected then Disconnect else message
    {
      if message.Body? {
        receivedBytes := receivedBytes + |message.body|;
        if receivedBytes > maxSize && !responseSent {
          responseSent := true;
          return Disconnect, true;
        }
      }
      return message, false;
    }
  }

  // ----- a whole stream -----

  /** What the application received, and how many 413 responses were sent, when the
      messages `ms` have been read. */
  datatype Stream = Stream(state: State, delivered: seq<Message>, rejections: nat)

  function Run(ms: seq<Message>, maxSize: int): Stream {
    if ms == [] then Stream(State(0, false), [], 0)
    else
      var r, m := Run(ms[..|ms| - 1], maxSize), ms[|ms| - 1];
      var s := Next(r.state, m, maxSize);
      var rejected := !r.state.sent && s.sent;
      Stream(s, r.delivered + [if rejected then Disconnect else m], r.rejections + if rejected then 1 else 0)
  }

  function Total(ms: seq<Message>): nat {
    if ms == [] then 0 else Total(ms[..|ms| - 1]) + Size(ms[|ms| - 1])
  }

  /** The body that a stream carries. */
  ghost function Content(ms: seq<Message>): Bytes {
    if ms == [] then []
    else
      var before, m := Content(ms[..|ms| - 1]), ms[|ms| - 1];
      match m
      case Body(body, _) => before + body
      case _ => before
  }

  lemma {:induction false} TotalIsContent(ms: seq<Message>)
    ensures Total(ms) == |Content(ms)|
  {
    if ms != [] {
      TotalIsContent(ms[..|ms| - 1]);
    }
  }

  /** The index of the first body message whose running total exceeds the limit, or the
      length. */
  function FirstOver(ms: seq<Message>, maxSize: int): (k: nat)
    ensures k <= |ms|
  {
    if ms == [] then 0
    else
      var n := |ms| - 1;
      var k := FirstOver(ms[..n], maxSize);
      if k < n || Crosses(Total(ms[..n]), ms[n], maxSize) then k else n + 1
  }

  lemma {:induction false} TotalSplits(ms: seq<Message>, k: nat)
    requires k <= |ms|
    ensures Total(ms) == Total(ms[..k]) + Total(ms[k..])
  {
    if k == |ms| {
      assert ms[..k] == ms;
    } else {
      var n := |ms| - 1;
      TotalSplits(ms[..n], k);
      assert ms[..n][..k] == ms[..k] && ms[..n][k..] == ms[k..][..n - k];
    }
  }

  /** The stream is passed on message by message, except that the first one beyond the limit
      becomes a disconnect, and that one alone sends a 413. */
  lemma {:induction false} OnlyTheFirstOverIsReplaced(ms: seq<Message>, maxSize: int)
    ensures var k, r := FirstOver(ms, maxSize), Run(ms, maxSize);
            && r.delivered == (if k < |ms| then ms[k := Disconnect] else ms)
            && r.rejections == (if k < |ms| then 1 else 0)
            && r.state == State(Total(ms), k < |ms|)
  {
    if ms != [] {
      var n := |ms| - 1;
      var g, k := ms[..n], FirstOver(ms[..n], maxSize);
      OnlyTheFirstOverIsReplaced(g, maxSize);
      assert ms == g + [ms[n]];
      if k < n {
        assert g[k := Disconnect] + [ms[n]] == ms[k := Disconnect];
      } else if Crosses(Total(g), ms[n], maxSize) {
        assert g + [Disconnect] == ms[n := Disconnect];
      }
    }
  }

  /** The messages before the disconnect fit, and they are all the messages that could be
      passed on: the one replaced would not have fitted. */
  lemma {:induction false} FirstOverIsTight(ms: seq<Message>, maxSize: nat)
    ensures var k := FirstOver(ms, maxSize);
            Total(ms[..k]) <= maxSize && (k < |ms| ==> ms[k].Body? && Total(ms[..k]) + Size(ms[k]) > maxSize)
  {
    if ms != [] {
      var n := |ms| - 1;
      var k := FirstOver(ms[..n], maxSize);
      FirstOverIsTight(ms[..n], maxSize);
      if k < n {
        assert ms[..n][..k] == ms[..k];
      } else {
        assert ms[..n][..n] == ms[..n] && ms[..n + 1] == ms;
      }
    }
  }

  /** One 413 is sent if and only if the whole body exceeds the limit, never more than one;
      before it the application has received a prefix of the stream of at most `maxSize`
      bytes; without it, the stream unchanged. */
  lemma LimitIsExact(ms: seq<Message>, maxSize: nat)
    ensures var k, r := FirstOver(ms, maxSize), Run(ms, maxSize);
            && |r.delivered| == |ms|
            && r.rejections == (if |Content(ms)| > maxSize then 1 else 0)
            && (|Content(ms)| <= maxSize ==> r.delivered == ms)
            && (|Content(ms)| > maxSize ==> k < |ms| && r.delivered[k] == Disconnect)
            && r.delivered[..k] == ms[..k] && |Content(r.delivered[..k])| <= maxSize
  {
    TotalIsContent(ms);
    TotalIsContent(ms[..FirstOver(ms, maxSize)]);
    OnlyTheFirstOverIsReplaced(ms, maxSize);
    FirstOverIsTight(ms, maxSize);
    var k := FirstOver(ms, maxSize);
    if k < |ms| {
      TotalOfNext(ms, k);
      TotalSplits(ms, k + 1);
    } else {
      assert ms[..k] == ms;
    }
  }

  lemma TotalOfNext(ms: seq<Message>, k: nat)
    requires k < |ms|
    ensures Total(ms[..k + 1]) == Total(ms[..k]) + Size(ms[k])
  {
    assert ms[..k + 1][..k] == ms[..k];
  }

  /** After the 413 the messages are passed on again: an application that goes on reading
      gets every byte except those of the replaced message, so what it receives in all stays
      within the limit exactly when the rest does. */
  lemma AfterTheDisconnect(ms: seq<Message>, maxSize: nat)
    requires |Content(ms)| > maxSize
    ensures var k := FirstOver(ms, maxSize);
            var received := |Content(Run(ms, maxSize).delivered)|;
            && k < |ms| && ms[k].Body? && received == |Content(ms)| - |ms[k].body|
            && (received <= maxSize <==> |Content(ms[..k])| + |Content(ms[k + 1..])| <= maxSize)
  {
    FirstOverIsTight(ms, maxSize);
    LimitIsExact(ms, maxSize);
    OnlyTheFirstOverIsReplaced(ms, maxSize);
    var k := FirstOver(ms, maxSize);
    TotalWithout(ms, k);
    TotalSplits(ms, k + 1);
    TotalOfNext(ms, k);
    TotalIsContent(ms);
    TotalIsContent(Run(ms, maxSize).delivered);
    TotalIsContent(ms[..k]);
    TotalIsContent(ms[k + 1..]);
  }

  lemma {:induction false} TotalWithout(ms: seq<Message>, k: nat)
    requires k < |ms|
    ensures Total(ms[k := Disconnect]) == Total(ms) - Size(ms[k])
  {
    var n := |ms| - 1;
    if k < n {
      TotalWithout(ms[..n], k);
      assert ms[k := Disconnect][..n] == ms[..n][k := Disconnect];
    } else {
      assert ms[k := Disconnect][..n] == ms[..n];
    }
  }

  /** The application can receive more than the limit after the 413. */
  lemma LimitCanBePassed()
    ensures var ms := [Body([0, 0], true), Body([0, 0], false)];
            Run(ms, 1).rejections == 1 && |Content(Run(ms, 1).delivered)| == 2 > 1
  {
    var ms := [Body([0, 0], true), Body([0, 0], false)];
    assert ms[..1] == [ms[0]] && ms[..1][..0] == [];
    LimitIsExact(ms, 1);
    AfterTheDisconnect(ms, 1);
    assert Total(ms[..1]) == 2 && Total(ms) == 4;
  }

  // ----- with the declared length -----

  datatype Outcome = Outcome(appCalled: bool, delivered: seq<Message>, rejections: nat)

  /** One call: `declared` is the Content-Length as an integer, `None` when it is missing or
      not one. */
  function Serve(isHttp: bool, declared: Option<int>, ms: seq<Message>, maxSize: int): Outcome {
    if !isHttp then Outcome(true, ms, 0)
    else if declared.Some? && declared.value > maxSize then Outcome(false, [], 1)
    else Outcome(true, Run(ms, maxSize).delivered, Run(ms, maxSize).rejections)
  }

  /** With an honest Content-Length the application is not called at all for a body that is
      too large, and a false one lets nothing more through than none. */
  lemma DeclaredLength(declared: int, ms: seq<Message>, maxSize: nat)
    ensures declared == |Content(ms)| ==>
              Serve(true, Some(declared), ms, maxSize) == if |Content(ms)| > maxSize then Outcome(false, [], 1) else Outcome(true, ms, 0)
    ensures Serve(true, Some(declared), ms, maxSize).appCalled ==>
              Serve(true, Some(declared), ms, maxSize) == Serve(true, None, ms, maxSize)
    ensures Serve(false, Some(declared), ms, maxSize) == Outcome(true, ms, 0)
  {
    LimitIsExact(ms, maxSize);
  }
}
