/** A byte stream with timeouts, and exact reads over it however it arrives chopped. */
module Wire {
  import opened Bytes

  // ----- the stream as the receiver could see it -----

  /** What one `recv` may meet; after the last event the peer has closed. */
  datatype Event = Chunk(bytes: seq<byte>) | Timeout | SocketError

  /** The same stream with the chopping into chunks forgotten. */
  datatype Token = B(b: byte) | T | F

  function Raw(bytes: seq<byte>): (r: seq<Token>)
    ensures |r| == |bytes| && forall i :: 0 <= i < |bytes| ==> r[i] == B(bytes[i])
  {
    seq(|bytes|, i requires 0 <= i < |bytes| => B(bytes[i]))
  }

  function Tokens(events: seq<Event>): seq<Token> {
    if events == [] then []
    else
      (match events[0] case Chunk(bytes) => Raw(bytes) case Timeout => [T] case SocketError => [F])
      + Tokens(events[1..])
  }

  // ----- recv_exact -----

  datatype Taken = Got(bytes: seq<byte>) | Idle | Eof | Stalled | Broken

  function Lead(toks: seq<Token>): (k: nat)
    ensures k <= |toks| && forall i :: 0 <= i < k ==> toks[i].B?
    ensures k < |toks| ==> !toks[k].B?
  {
    if toks != [] && toks[0].B? then 1 + Lead(toks[1..]) else 0
  }

  function Unraw(toks: seq<Token>): (bytes: seq<byte>)
    requires forall i :: 0 <= i < |toks| ==> toks[i].B?
    ensures |bytes| == |toks| && forall i :: 0 <= i < |toks| ==> bytes[i] == toks[i].b
  {
    seq(|toks|, i requires 0 <= i < |toks| => toks[i].b)
  }

  /** Exactly `n` bytes, or why not: a timeout with nothing read is idle, after some bytes
      it is a stall. */
  function TakeExact(toks: seq<Token>, n: nat): (r: (Taken, seq<Token>))
    ensures |r.1| <= |toks|
    ensures n > 0 && toks != [] ==> |r.1| < |toks|
  {
    var k := Lead(toks);
    if n <= k then (Got(Unraw(toks[..n])), toks[n..])
    else if k == |toks| then (Eof, [])
    else if toks[k].F? then (Broken, toks[k + 1..])
    else (if k == 0 then Idle else Stalled, toks[k + 1..])
  }

  class Transport {
    var inbox: seq<Event>
    var sent: seq<byte>

    constructor (events: seq<Event>)
      requires forall e :: e in events && e.Chunk? ==> e.bytes != []
      ensures inbox == events && sent == [] && Valid()
    {
      inbox, sent := events, [];
    }

    /** A chunk is never empty: an empty receive means the peer has closed. */
    ghost predicate Valid()
      reads this
    {
      forall e :: e in inbox && e.Chunk? ==> e.bytes != []
    }

    ghost function Left(): seq<Token>
      reads this
    {
      Tokens(inbox)
    }

    /** One `recv(limit)`: `Got([])` stands for the closed peer. */
    method Recv(limit: nat) returns (r: Taken)
      requires Valid() && limit > 0
      modifies this`inbox
      ensures Valid()
      ensures r.Got? ==> |r.bytes| <= limit && old(Left()) == Raw(r.bytes) + Left()
      ensures r == Got([]) ==> Left() == []
      ensures r.Idle? ==> old(Left()) == [T] + Left()
      ensures r.Broken? ==> old(Left()) == [F] + Left()
      ensures r.Got? || r.Idle? || r.Broken?
    {
      if inbox == [] {
        return Got([]);
      }
      var event := inbox[0];
      assert inbox == [event] + inbox[1..];
      match event
      case Timeout => inbox := inbox[1..]; return Idle;
      case SocketError => inbox := inbox[1..]; return Broken;
      case Chunk(bytes) =>
        if |bytes| <= limit {
          inbox := inbox[1..];
          return Got(bytes);
        }
        SplitChunk(bytes, limit, inbox[1..]);
        inbox := [Chunk(bytes[limit..])] + inbox[1..];
        return Got(bytes[..limit]);
    }

    /** However the bytes arrive chopped, the result depends on the token stream alone. */
    method RecvExact(n: nat) returns (r: Taken)
      requires Valid()
      modifies this`inbox
      ensures Valid()
      ensures (r, Left()) == TakeExact(old(Left()), n)
    {
      if n == 0 {
        return Got([]);
      }
      var chunks := [];
      while |chunks| < n
        invariant Valid() && |chunks| <= n
        invariant old(Left()) == Raw(chunks) + Left()
        decreases n - |chunks|
      {
        var chunk := Recv(n - |chunks|);
        match chunk {
          case Got(bytes) =>
            RawConcat(chunks, bytes, Left());
            chunks := chunks + bytes;
            if bytes == [] {
              TakeEof(chunks, n);
              assert Raw(chunks) + [] == Raw(chunks);
              return Eof;
            }
          case Idle =>
            TakeBlocked(chunks, T, Left(), n);
            return if chunks == [] then Idle else Stalled;
          case Broken =>
            TakeBlocked(chunks, F, Left(), n);
            return Broken;
        }
      }
      TakeWhole(chunks, Left());
      r := Got(chunks);
    }
  }

  lemma SplitChunk(bytes: seq<byte>, limit: nat, rest: seq<Event>)
    requires limit < |bytes|
    ensures Tokens([Chunk(bytes)] + rest) == Raw(bytes[..limit]) + Tokens([Chunk(bytes[limit..])] + rest)
  {
    assert ([Chunk(bytes)] + rest)[1..] == rest && ([Chunk(bytes[limit..])] + rest)[1..] == rest;
    assert Raw(bytes) == Raw(bytes[..limit]) + Raw(bytes[limit..]);
  }

  lemma RawConcat(a: seq<byte>, b: seq<byte>, rest: seq<Token>)
    ensures Raw(a) + (Raw(b) + rest) == Raw(a + b) + rest
  {
  }

  lemma {:induction false} LeadRaw(bytes: seq<byte>, rest: seq<Token>)
    ensures Lead(Raw(bytes) + rest) == |bytes| + Lead(rest)
  {
    if bytes == [] {
      assert Raw(bytes) + rest == rest;
    } else {
      assert (Raw(bytes) + rest)[1..] == Raw(bytes[1..]) + rest;
      LeadRaw(bytes[1..], rest);
    }
  }

  lemma TakeWhole(bytes: seq<byte>, rest: seq<Token>)
    ensures TakeExact(Raw(bytes) + rest, |bytes|) == (Got(bytes), rest)
  {
    LeadRaw(bytes, rest);
    assert (Raw(bytes) + rest)[..|bytes|] == Raw(bytes);
    assert Unraw(Raw(bytes)) == bytes;
  }

  lemma TakeEof(bytes: seq<byte>, n: nat)
    requires |bytes| < n
    ensures TakeExact(Raw(bytes), n) == (Eof, [])
  {
    LeadRaw(bytes, []);
    assert Raw(bytes) + [] == Raw(bytes);
  }

  lemma TakeBlocked(bytes: seq<byte>, stop: Token, rest: seq<Token>, n: nat)
    requires |bytes| < n && !stop.B?
    ensures TakeExact(Raw(bytes) + ([stop] + rest), n)
            == (if stop.F? then Broken else if bytes == [] then Idle else Stalled, rest)
  {
    LeadRaw(bytes, [stop] + rest);
    assert (Raw(bytes) + ([stop] + rest))[|bytes|] == stop;
    assert (Raw(bytes) + ([stop] + rest))[|bytes| + 1..] == rest;
  }
}
