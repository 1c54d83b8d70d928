/**
 The request-body limit of `api/middleware.py`: the app reads its body through a wrapper that counts bytes
 and, once the cap is crossed, ends the stream for good; the response is then overridden with a 413.

 The server's own `receive` is a stream of messages, one for each time it is awaited.
 */
module BodyLimit {
  import opened Wrappers

  /** A body that is not bytes is forwarded uncounted, and so is every other message. */
  datatype Message = Body(data: seq<Byte>, more: bool) | OddBody(more: bool) | Disconnect

  const END_OF_STREAM := Body([], false)

  type Stream = nat -> Message

  function Size(m: Message): nat { if m.Body? then |m.data| else 0 }

  /** The bytes of the stream's first `n` messages. */
  function BytesUpTo(stream: Stream, n: nat): nat {
    if n == 0 then 0 else BytesUpTo(stream, n - 1) + Size(stream(n - 1))
  }

  /** The bytes of some messages, one body after the other. */
  function Payload(messages: seq<Message>): Bytes {
    if messages == [] then []
    else
      var last := messages[|messages| - 1];
      Payload(messages[..|messages| - 1]) + match last case Body(data, _) => data case _ => []
  }

  /** The stream's first `n` messages. */
  function First(stream: Stream, n: nat): seq<Message> {
    seq(n, i requires 0 <= i < n => stream(i))
  }

  /** What is counted is exactly what the bodies hold, whether or not more is announced. */
  lemma {:induction false} CountIsThePayload(stream: Stream, n: nat)
    ensures BytesUpTo(stream, n) == |Payload(First(stream, n))|
  {
    if n > 0 {
      assert First(stream, n)[..n - 1] == First(stream, n - 1);
      CountIsThePayload(stream, n - 1);
    }
  }

  /** The first `n` messages hold more than the cap. */
  predicate Crossed(cap: nat, stream: Stream, n: nat) { BytesUpTo(stream, n) > cap }

  /** What the app is to see at its `k`-th read: the stream as it is until a message crosses the cap. */
  function Visible(cap: nat, stream: Stream, k: nat): Message {
    if Crossed(cap, stream, k + 1) then END_OF_STREAM else stream(k)
  }

  lemma {:induction false} BytesGrow(stream: Stream, m: nat, n: nat)
    requires m <= n
    ensures BytesUpTo(stream, m) <= BytesUpTo(stream, n)
    decreases n - m
  {
    if m < n {
      BytesGrow(stream, m, n - 1);
    }
  }

  class CountingReceive {
    const cap: nat
    const upstream: Stream
    var awaited: nat
    var bytesSeen: nat
    var tooLarge: bool
    ghost var calls: nat

    /** The counters say what the messages awaited so far hold, and awaiting stops at the first that crosses. */
    ghost predicate Valid()
      reads this
    {
      && bytesSeen == BytesUpTo(upstream, awaited)
      && tooLarge == Crossed(cap, upstream, awaited)
      && awaited <= calls
      && (!tooLarge ==> awaited == calls)
      && (tooLarge ==> awaited > 0 && !Crossed(cap, upstream, awaited - 1))
    }

    constructor (cap: nat, upstream: Stream)
      ensures Valid() && this.cap == cap && this.upstream == upstream && calls == 0
    {
      this.cap, this.upstream := cap, upstream;
      awaited, bytesSeen, tooLarge, calls := 0, 0, false, 0;
    }

    method Receive() returns (message: Message)
      requires Valid()
      modifies this
      ensures Valid() && calls == old(calls) + 1
      ensures message == Visible(cap, upstream, old(calls))
    {
      if tooLarge {
        BytesGrow(upstream, awaited, calls + 1);
        calls := calls + 1;
        return END_OF_STREAM;
      }
      message := upstream(awaited);
      awaited := awaited + 1;
      calls := calls + 1;
      if message.Body? {
        bytesSeen := bytesSeen + |message.data|;
        if bytesSeen > cap {
          tooLarge := true;
          return END_OF_STREAM;
        }
      }
    }
  }

  // What the app sees over any number of reads.

  function VisibleBytes(cap: nat, stream: Stream, n: nat): nat {
    if n == 0 then 0 else VisibleBytes(cap, stream, n - 1) + Size(Visible(cap, stream, n - 1))
  }

  /** Forwarded bytes are the stream's until it crosses, and they never exceed the cap. */
  lemma {:induction false} ForwardedBytesStayWithinCap(cap: nat, stream: Stream, n: nat)
    ensures VisibleBytes(cap, stream, n) <= cap
    ensures !Crossed(cap, stream, n) ==> VisibleBytes(cap, stream, n) == BytesUpTo(stream, n)
  {
    if n > 0 {
      ForwardedBytesStayWithinCap(cap, stream, n - 1);
    }
  }

  /**
   Over any stream and any number of reads: the app sees the stream's own messages up to the first that
   crosses the cap, and then the end of the stream at every read. If none crosses, it sees them all.
   */
  lemma AppSeesPrefixThenEnd(cap: nat, stream: Stream, n: nat) returns (cut: nat)
    ensures cut <= n
    ensures forall k :: 0 <= k < cut ==> Visible(cap, stream, k) == stream(k)
    ensures forall k :: cut <= k < n ==> Visible(cap, stream, k) == END_OF_STREAM
    ensures cut == n <==> !Crossed(cap, stream, n)
    ensures cut < n ==> !Crossed(cap, stream, cut) && Crossed(cap, stream, cut + 1)
  {
    cut := n;
    while cut > 0 && Crossed(cap, stream, cut)
      invariant cut <= n && (cut < n ==> Crossed(cap, stream, cut + 1))
    {
      cut := cut - 1;
    }
    forall k | cut <= k < n ensures Visible(cap, stream, k) == END_OF_STREAM {
      BytesGrow(stream, cut + 1, k + 1);
    }
    forall k | 0 <= k < cut ensures Visible(cap, stream, k) == stream(k) {
      BytesGrow(stream, k + 1, cut);
    }
    if cut < n {
      BytesGrow(stream, cut + 1, n);
    }
  }

  lemma {:induction false} SeenIsVisible(cap: nat, stream: Stream, seen: seq<Message>)
    requires forall k :: 0 <= k < |seen| ==> seen[k] == Visible(cap, stream, k)
    ensures |Payload(seen)| == VisibleBytes(cap, stream, |seen|) <= cap
  {
    ForwardedBytesStayWithinCap(cap, stream, |seen|);
    if seen != [] {
      SeenIsVisible(cap, stream, seen[..|seen| - 1]);
    }
  }

  // The middleware.

  /** The Content-Length header: absent, unreadable as a number, or a number. */
  datatype ContentLength = Absent | Unreadable | Declared(value: int)

  datatype Response = TooLarge | FromApp(status: int)

  /**
   An app that reads `n` times and then answers: the answer is overridden exactly when the request was
   refused on its declared length, before any read, or the messages the app consumed crossed the cap.
   */
  method LimitBody(cap: nat, contentLength: ContentLength, upstream: Stream, n: nat, status: int)
    returns (response: Response, seen: seq<Message>)
    ensures response ==
            if (contentLength.Declared? && contentLength.value > cap) || |Payload(First(upstream, n))| > cap
              then TooLarge
            else FromApp(status)
    ensures |seen| == if contentLength.Declared? && contentLength.value > cap then 0 else n
    ensures forall k :: 0 <= k < |seen| ==> seen[k] == Visible(cap, upstream, k)
    ensures |Payload(seen)| <= cap
  {
    seen := [];
    var declared := match contentLength case Declared(value) => value case Unreadable => -1 case Absent => 0;
    if declared > cap {
      return TooLarge, seen;
    }
    var receive := new CountingReceive(cap, upstream);
    for k := 0 to n
      invariant receive.Valid() && receive.calls == k && |seen| == k
      invariant forall j :: 0 <= j < k ==> seen[j] == Visible(cap, upstream, j)
    {
      var message := receive.Receive();
      seen := seen + [message];
    }
    CountIsThePayload(upstream, n);
    SeenIsVisible(cap, upstream, seen);
    if receive.tooLarge {
      BytesGrow(upstream, receive.awaited, n);
      return TooLarge, seen;
    }
    response := FromApp(status);
  }
}
