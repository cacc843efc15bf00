/** The receive loop of `http_server_handle_client` (`SERVER-HTTP/src/http_server.c`): bytes arrive in pieces
    of any size in a buffer that grows up to the configured limit, and after each piece the buffer is probed. */
module HttpReceive {
  import opened Basics
  import opened Text
  import opened HttpProtocol

  const CHUNK: nat := 4096

  const DEFAULT_LIMIT: nat := 65536

  // ----- growing the buffer --------------------------------------------------------------------------

  /** `http_grow_buffer`, up to the allocation. */
  function Doubled(capacity: nat, minimum: nat, maximum: nat): nat
    requires capacity > 0
    decreases maximum - capacity
  {
    if capacity >= minimum then capacity
    else if capacity >= maximum then maximum
    else if capacity > maximum / 2 then Doubled(maximum, minimum, maximum)
    else Doubled(capacity * 2, minimum, maximum)
  }

  function Grown(capacity: nat, minimum: nat, maximum: nat): nat {
    Doubled(if capacity == 0 then CHUNK else capacity, minimum, maximum)
  }

  /** Growth succeeds exactly when there is room under the limit, never passes the limit, and stops below
      twice what is needed. */
  lemma {:induction false} DoubledMeans(capacity: nat, minimum: nat, maximum: nat)
    requires capacity > 0
    ensures var c := Doubled(capacity, minimum, maximum);
            && (capacity >= minimum ==> c == capacity)
            && (capacity < minimum <= maximum ==> minimum <= c <= maximum && c < 2 * minimum)
            && (capacity < minimum && maximum < minimum ==> c == maximum)
    decreases maximum - capacity
  {
    if capacity < minimum && capacity < maximum {
      DoubledMeans(if capacity > maximum / 2 then maximum else capacity * 2, minimum, maximum);
    }
  }

  /** Reallocates the buffer, keeping its contents; `None` if there is no room under the limit. */
  method Grow(buffer: array<char>, length: nat, minimum: nat, maximum: nat) returns (r: Option<array<char>>)
    requires length <= buffer.Length && length <= minimum
    ensures r.Some? <==> Grown(buffer.Length, minimum, maximum) >= minimum
    ensures r.Some? ==>
              && fresh(r.value) && r.value.Length == Grown(buffer.Length, minimum, maximum)
              && r.value[..length] == buffer[..length]
  {
    var capacity := if buffer.Length == 0 then CHUNK else buffer.Length;
    while capacity < minimum
      invariant capacity > 0 && Grown(buffer.Length, minimum, maximum) == Doubled(capacity, minimum, maximum)
      decreases maximum - capacity
    {
      if capacity >= maximum {
        capacity := maximum;
        break;
      }
      if capacity > maximum / 2 {
        capacity := maximum;
      } else {
        capacity := capacity * 2;
      }
    }
    if capacity < minimum {
      return None;
    }
    var grown := new char[capacity](_ => '\0');
    forall i | 0 <= i < length {
      grown[i] := buffer[i];
    }
    return Some(grown);
  }

  // ----- receiving ------------------------------------------------------------------------------------------

  /** What a call of `recv` does: it is interrupted, or it delivers up to `n` bytes (at least one if any are left). */
  datatype Recv = Interrupted | Upto(n: nat)

  /** How handling the connection goes on. */
  datatype Outcome =
    | Closed
    | TooLarge
    | OutOfMemory
    | ClosedEarly
    | BadRequest
    | Received(request: Request, length: nat)

  function Min(a: nat, b: nat): nat { if a < b then a else b }

  /** How many bytes arrive. */
  function Arriving(calls: seq<Recv>, room: nat, left: nat): nat {
    var wanted :=
      if calls == [] then room else if calls[0].Interrupted? then 0 else if calls[0].n == 0 then 1 else calls[0].n;
    Min(Min(room, left), wanted)
  }

  function Rest(calls: seq<Recv>): seq<Recv> { if calls == [] then [] else calls[1..] }

  /** The loop, with `length` bytes of the stream in a buffer of this capacity.  The calls of `recv` behave as
      listed, and deliver all they can when the list has been used up. */
  function Receive(stream: string, limit: nat, calls: seq<Recv>, length: nat, capacity: nat): Outcome
    requires length <= |stream| && limit > 0
    decreases |stream| - length, |calls|
  {
    var c := Grown(capacity, length + 1, limit);
    if c < length + 1 then (if length >= limit then TooLarge else OutOfMemory) else
    if calls != [] && calls[0].Interrupted? then Receive(stream, limit, calls[1..], length, c) else
    var k := Arriving(calls, c - length, |stream| - length);
    if k == 0 then (if length == 0 then Closed else ClosedEarly) else
    var n := length + k;
    match ProbeOf(stream[..n], limit)
    case Invalid => BadRequest
    case Complete(total) => Parsed(stream[..n], total)
    case Incomplete(total) => if total > limit then TooLarge else Receive(stream, limit, Rest(calls), n, c)
  }

  function Parsed(buffer: string, total: nat): Outcome
    requires total <= |buffer|
  {
    match RequestOf(buffer[..total])
    case None => BadRequest
    case Some(request) => Received(request, total)
  }

  /** `recv` writes the next `k` bytes of the stream behind those already there. */
  method Deliver(stream: string, buffer: array<char>, length: nat, k: nat)
    requires length + k <= buffer.Length && length + k <= |stream| && buffer[..length] == stream[..length]
    modifies buffer
    ensures buffer[..length + k] == stream[..length + k]
  {
    forall i | length <= i < length + k {
      buffer[i] := stream[i];
    }
    assert forall i :: 0 <= i < length ==> buffer[i] == old(buffer[..length])[i];
  }

  /** Receives one request. */
  method HandleClient(stream: string, configured: nat, calls: seq<Recv>) returns (outcome: Outcome)
    ensures outcome == Receive(stream, if configured > 0 then configured else 65536, calls, 0, 0)
  {
    hide Receive, ProbeOf, RequestOf, Grown, Arriving;
    var limit := if configured > 0 then configured else DEFAULT_LIMIT;
    var buffer, length, pending := new char[0], 0, calls;
    assert buffer[..0] == stream[..0];
    while true
      invariant length <= |stream| && length <= buffer.Length && buffer[..length] == stream[..length]
      invariant Receive(stream, limit, calls, 0, 0) == Receive(stream, limit, pending, length, buffer.Length)
      decreases |stream| - length, |pending|
    {
      ReceiveStep(stream, limit, pending, length, buffer.Length);
      var grown := Grow(buffer, length, length + 1, limit);
      if grown.None? {
        return if length >= limit then TooLarge else OutOfMemory;
      }
      buffer := grown.value;
      if pending != [] && pending[0].Interrupted? {
        pending := pending[1..];
        continue;
      }
      ArrivingSome(pending, buffer.Length - length, |stream| - length);
      var k := Arriving(pending, buffer.Length - length, |stream| - length);
      if k == 0 {
        return if length == 0 then Closed else ClosedEarly;
      }
      Deliver(stream, buffer, length, k);
      length := length + k;
      var probe := RequestProbe(buffer[..length], limit);
      if probe.Invalid? {
        return BadRequest;
      }
      if probe.total > limit {
        return TooLarge;
      }
      if probe.Complete? {
        var request := ParseRequest(buffer[..probe.total]);
        assert buffer[..probe.total] == buffer[..length][..probe.total];
        return if request.None? then BadRequest else Received(request.value, probe.total);
      }
      pending := Rest(pending);
    }
  }

  // ----- the outcome as a function of the stream -------------------------------------------------------------

  /** What becomes of the stream, without regard to how it arrives: the first `limit` bytes decide. */
  function Fate(stream: string, limit: nat): Outcome {
    match HeaderEnd(stream[..Min(|stream|, limit)])
    case None => if stream == "" then Closed else if |stream| >= limit then TooLarge else ClosedEarly
    case Some(_) =>
      match HeadOf(stream)
      case None => BadRequest
      case Some(head) =>
        var total := head.length + Declared(head.fields);
        if total > SIZE_MAX then BadRequest
        else if total > limit then TooLarge
        else if |stream| >= total then Parsed(stream, total)
        else ClosedEarly
  }

  /** Nothing has been decided by the first `n` bytes. */
  predicate Open(stream: string, limit: nat, n: nat)
    requires n <= |stream|
  {
    n <= limit &&
    match HeaderEnd(stream[..n])
    case None => true
    case Some(_) =>
      HeadOf(stream).Some? &&
      var total := HeadOf(stream).value.length + Declared(HeadOf(stream).value.fields);
      total <= SIZE_MAX && total <= limit && n < total
  }

  /** Any probe gives the fate of the stream or leaves it open. */
  lemma ProbeDecides(stream: string, limit: nat, n: nat)
    requires 0 < n <= |stream| && n <= limit
    ensures match ProbeOf(stream[..n], limit)
            case Invalid => Fate(stream, limit) == BadRequest
            case Complete(total) => Fate(stream, limit) == Parsed(stream[..n], total)
            case Incomplete(total) => if total > limit then Fate(stream, limit) == TooLarge else Open(stream, limit, n)
  {
    hide HeadIn, HeaderEndFrom, RequestOf;
    HeaderEndPrefix(stream, n);
    HeaderEndPrefix(stream, Min(|stream|, limit));
    HeadPrefix(stream, n);
    var probe := ProbeOf(stream[..n], limit);
    if probe.Complete? {
      assert stream[..n][..probe.total] == stream[..probe.total];
    }
  }

  /** If the stream ends, or fills the limit, while it is open, that is its fate. */
  lemma OpenAtEnd(stream: string, limit: nat)
    requires Open(stream, limit, |stream|)
    ensures |stream| < limit ==> Fate(stream, limit) == if stream == "" then Closed else ClosedEarly
  {
    hide HeadIn, HeaderEndFrom, RequestOf;
    assert stream[..|stream|] == stream;
  }

  lemma OpenAtLimit(stream: string, limit: nat)
    requires 0 < limit <= |stream| && Open(stream, limit, limit)
    ensures Fate(stream, limit) == TooLarge
  {
    hide HeadIn, HeaderEndFrom, RequestOf;
  }

  /** With a limit of at least one chunk the buffer never outgrows the limit. */
  lemma GrownRoom(capacity: nat, length: nat, limit: nat)
    requires capacity <= limit && limit >= CHUNK
    ensures var c := Grown(capacity, length + 1, limit);
            c <= limit && (c < length + 1 <==> length >= limit)
  {
    DoubledMeans(if capacity == 0 then CHUNK else capacity, length + 1, limit);
  }

  lemma ArrivingSome(calls: seq<Recv>, room: nat, left: nat)
    requires room > 0 && (calls == [] || !calls[0].Interrupted?)
    ensures var k := Arriving(calls, room, left); k <= room && k <= left && (k == 0 <==> left == 0)
  {
  }

  /** One turn of the loop. */
  lemma ReceiveStep(stream: string, limit: nat, calls: seq<Recv>, length: nat, capacity: nat)
    requires length <= |stream| && limit > 0
    ensures var c := Grown(capacity, length + 1, limit);
            Receive(stream, limit, calls, length, capacity) ==
            if c < length + 1 then (if length >= limit then TooLarge else OutOfMemory)
            else if calls != [] && calls[0].Interrupted? then Receive(stream, limit, calls[1..], length, c)
            else
              var k := Arriving(calls, c - length, |stream| - length);
              if k == 0 then (if length == 0 then Closed else ClosedEarly) else
              match ProbeOf(stream[..length + k], limit)
              case Invalid => BadRequest
              case Complete(total) => Parsed(stream[..length + k], total)
              case Incomplete(total) => if total > limit then TooLarge
                  else Receive(stream, limit, Rest(calls), length + k, c)
  {
    hide ProbeOf, Grown, Parsed;
  }

  /** From every open state every way of receiving leads to the same outcome. */
  lemma {:induction false} ReceiveFate(stream: string, limit: nat, calls: seq<Recv>, length: nat, capacity: nat)
    requires limit >= CHUNK && capacity <= limit && length <= |stream| && Open(stream, limit, length)
    ensures Receive(stream, limit, calls, length, capacity) == Fate(stream, limit)
    decreases |stream| - length, |calls|
  {
    hide Receive, Fate, Open, ProbeOf, Parsed, Grown, Arriving;
    ReceiveStep(stream, limit, calls, length, capacity);
    GrownRoom(capacity, length, limit);
    OpenWithin(stream, limit, length);
    var c := Grown(capacity, length + 1, limit);
    if length >= limit {
      OpenAtLimit(stream, limit);
    } else if calls != [] && calls[0].Interrupted? {
      ReceiveFate(stream, limit, calls[1..], length, c);
    } else {
      ArrivingSome(calls, c - length, |stream| - length);
      var k := Arriving(calls, c - length, |stream| - length);
      if k == 0 {
        OpenAtEnd(stream, limit);
      } else {
        ProbeDecides(stream, limit, length + k);
        var probe := ProbeOf(stream[..length + k], limit);
        if probe.Incomplete? && probe.total <= limit {
          ReceiveFate(stream, limit, Rest(calls), length + k, c);
        }
      }
    }
  }

  lemma OpenWithin(stream: string, limit: nat, n: nat)
    requires n <= |stream| && Open(stream, limit, n)
    ensures n <= limit
  {
  }

  /** Framing does not depend on how `recv` cuts the stream: for every limit of at least 4096 bytes the
      outcome is a function of the bytes alone. */
  lemma ChunkingIndependence(stream: string, limit: nat, calls: seq<Recv>)
    requires limit >= CHUNK
    ensures Receive(stream, limit, calls, 0, 0) == Fate(stream, limit)
  {
    hide Receive, Fate;
    assert Open(stream, limit, 0) by { HeaderEndPrefix(stream, 0); }
    ReceiveFate(stream, limit, calls, 0, 0);
  }

  /** A request is received exactly when the announced bytes are all there and within the limit, and then it
      has exactly the declared body. */
  lemma ReceivedIff(stream: string, limit: nat, calls: seq<Recv>, n: nat)
    requires limit >= CHUNK
    ensures (exists request :: Receive(stream, limit, calls, 0, 0) == Received(request, n)) <==>
            HeadOf(stream).Some? && n == HeadOf(stream).value.length + Declared(HeadOf(stream).value.fields)
            && n <= |stream| && n <= limit && n <= SIZE_MAX
    ensures Receive(stream, limit, calls, 0, 0).Received? ==>
              var Received(request, n) := Receive(stream, limit, calls, 0, 0);
              n <= |stream| && |request.body| == Declared(request.fields) <= n &&
                  request.body == stream[n - |request.body|..n]
  {
    hide Receive, HeadIn, HeaderEndFrom, RequestOf;
    ChunkingIndependence(stream, limit, calls);
    HeaderEndPrefix(stream, Min(|stream|, limit));
    if HeadOf(stream).Some? {
      HeadLength(stream);
      var total := HeadOf(stream).value.length + Declared(HeadOf(stream).value.fields);
      if total <= |stream| && total <= limit && total <= SIZE_MAX {
        ParsedSucceeds(stream, total);
      }
    }
  }

  /** The length the head announces. */
  function Announced(stream: string): nat
    requires HeadOf(stream).Some?
  {
    HeadOf(stream).value.length + Declared(HeadOf(stream).value.fields)
  }

  /** Every outcome, by the bytes of the stream: 413 exactly when the head does not end within the limit or announces
      more than the limit, 400 exactly when a head that ends within the limit is malformed or the request is cut off. */
  lemma OutcomeIff(stream: string, limit: nat, calls: seq<Recv>)
    requires limit >= CHUNK
    ensures var outcome, h := Receive(stream, limit, calls, 0, 0), HeaderEnd(stream);
            && (outcome == Closed <==> stream == "")
            && (outcome == TooLarge <==>
                  || (|stream| >= limit && (h == None || h.value > limit))
                  || (h.Some? && h.value <= limit && HeadOf(stream).Some? && limit < Announced(stream) <= SIZE_MAX))
            && (outcome == BadRequest <==>
                  h.Some? && h.value <= limit && (HeadOf(stream) == None || Announced(stream) > SIZE_MAX))
            && (outcome == ClosedEarly <==>
                  || (0 < |stream| < limit && h == None)
                  || (h.Some? && HeadOf(stream).Some? && |stream| < Announced(stream) <= Min(limit, SIZE_MAX)))
            && outcome != OutOfMemory
  {
    hide Receive, HeadIn, HeaderEndFrom, RequestOf;
    ChunkingIndependence(stream, limit, calls);
    HeaderEndPrefix(stream, Min(|stream|, limit));
    if HeaderEnd(stream).Some? { assert HeaderEnd(stream).value <= |stream| by { HeaderEndInside(stream); } }
    if HeadOf(stream).Some? {
      HeadLength(stream);
      if Announced(stream) <= |stream| && Announced(stream) <= SIZE_MAX { ParsedSucceeds(stream, Announced(stream)); }
    }
  }

  lemma HeaderEndInside(stream: string)
    requires HeaderEnd(stream).Some?
    ensures 4 <= HeaderEnd(stream).value <= |stream|
  {
  }

  lemma ParsedSucceeds(stream: string, total: nat)
    requires HeadOf(stream).Some? && total == HeadOf(stream).value.length + Declared(HeadOf(stream).value.fields)
    requires total <= |stream| && total <= SIZE_MAX
    ensures Parsed(stream, total).Received? && Parsed(stream, total).length == total
    ensures var request := Parsed(stream, total).request;
            |request.body| == Declared(request.fields) <= total && request.body == stream[total - |request.body|..total]
  {
    hide HeadIn, HeaderEndFrom;
    HeadLength(stream);
    CompleteParses(stream, |stream|);
  }

  // ----- limits below one chunk -----------------------------------------------------------------------------

  /** The length of the shortest head that is accepted. */
  const SHORTEST: nat := 16

  lemma {:induction false} CStringShorter(s: string)
    ensures |CString(s)| <= |s|
  {
    if s != "" && s[0] != '\0' { CStringShorter(s[1..]); }
  }

  lemma HeadNotShorter(s: string)
    requires HeadOf(s).Some?
    ensures HeadOf(s).value.length >= SHORTEST
  {
    hide FieldsFrom, CString, ParseRequestLine, HeaderEndFrom, CrlfFrom;
    LineEndInHead(s);
    var h := HeaderEnd(s).value;
    var line := s[..h][..CrlfFrom(s[..h], 0).value];
    LineRead(line);
    CStringShorter(ParseRequestLine(line).value.2);
  }

  /** Under a limit too small for any request, everything is refused the same way however it arrives. */
  function SmallFate(stream: string, limit: nat): Outcome {
    if stream == "" then Closed else if |stream| > limit || HeaderEnd(stream).Some? then BadRequest else ClosedEarly
  }

  lemma SmallProbe(stream: string, limit: nat, n: nat)
    requires 0 < limit < SHORTEST && 0 < n <= |stream|
    ensures match ProbeOf(stream[..n], limit)
            case Invalid => SmallFate(stream, limit) == BadRequest
            case Complete(_) => false
            case Incomplete(total) => total == 0 && n <= limit && HeaderEnd(stream[..n]).None?
  {
    hide HeadIn, HeaderEndFrom;
    HeaderEndPrefix(stream, n);
    if n <= limit && HeadOf(stream[..n]).Some? {
      HeadLength(stream[..n]);
      HeadNotShorter(stream[..n]);
    }
  }

  lemma SmallEnd(stream: string, limit: nat)
    requires |stream| <= limit && HeaderEnd(stream[..|stream|]).None?
    ensures SmallFate(stream, limit) == if stream == "" then Closed else ClosedEarly
  {
    assert stream[..|stream|] == stream;
  }

  lemma ChunkRoom(capacity: nat, length: nat, limit: nat)
    requires (capacity == 0 || capacity == CHUNK) && length < CHUNK
    ensures Grown(capacity, length + 1, limit) == CHUNK
  {
  }

  lemma {:induction false} SmallReceive(stream: string, limit: nat, calls: seq<Recv>, length: nat, capacity: nat)
    requires 0 < limit < SHORTEST && length <= |stream| && length <= limit && HeaderEnd(stream[..length]).None?
    requires capacity == 0 || capacity == CHUNK
    ensures Receive(stream, limit, calls, length, capacity) == SmallFate(stream, limit)
    decreases |stream| - length, |calls|
  {
    hide Receive, ProbeOf, Parsed, Grown, Arriving, HeaderEnd, SmallFate;
    ReceiveStep(stream, limit, calls, length, capacity);
    ChunkRoom(capacity, length, limit);
    if calls != [] && calls[0].Interrupted? {
      SmallReceive(stream, limit, calls[1..], length, CHUNK);
    } else {
      ArrivingSome(calls, CHUNK - length, |stream| - length);
      var k := Arriving(calls, CHUNK - length, |stream| - length);
      if k == 0 {
        SmallEnd(stream, limit);
      } else {
        SmallProbe(stream, limit, length + k);
        if ProbeOf(stream[..length + k], limit).Incomplete? {
          SmallReceive(stream, limit, Rest(calls), length + k, CHUNK);
        }
      }
    }
  }

  const REQUEST_LINE := "G / HTTP/1.0"

  const SHORTEST_REQUEST := REQUEST_LINE + "\r\n" + "" + "\r\n"

  lemma ShortestLine()
    ensures ParseRequestLine(REQUEST_LINE) == Some(("G", "/", "HTTP/1.0"))
  {
    hide ParseRequestLine, CString;
    CStringWhole("HTTP/1.0");
    LineAccepted("G", "/", "HTTP/1.0");
    assert "G" + " " + "/" + " " + "HTTP/1.0" == REQUEST_LINE;
  }

  lemma ShortestCompletes(limit: nat)
    requires limit >= SHORTEST
    ensures ProbeOf(SHORTEST_REQUEST, limit) == Complete(SHORTEST) && Parsed(SHORTEST_REQUEST, SHORTEST).Received?
  {
    hide HeadOf, HeaderEnd, ParseRequestLine, RequestOf;
    var s := SHORTEST_REQUEST;
    ShortestLine();
    assert Written(REQUEST_LINE, []) + "" == s;
    HeadWritten(REQUEST_LINE, [], "");
    CompleteParses(s, limit);
    assert s[..SHORTEST] == s;
  }

  /** Between these limits the outcome does depend on the pieces: a request followed by more bytes than the
      limit allows is answered if it arrives by itself and refused if the rest arrives with it. */
  lemma MiddleDepends(limit: nat) returns (stream: string)
    requires SHORTEST <= limit < CHUNK
    ensures Receive(stream, limit, [Upto(SHORTEST)], 0, 0).Received? && Receive(stream, limit, [], 0, 0) == BadRequest
  {
    hide Receive;
    stream := SHORTEST_REQUEST + seq(limit + 1 - SHORTEST, _ => 'x');
    assert stream[..SHORTEST] == SHORTEST_REQUEST;
    FirstPiece(stream, limit);
    WholeAtOnce(stream, limit);
  }

  lemma FirstPiece(stream: string, limit: nat)
    requires SHORTEST <= limit < CHUNK && |stream| >= SHORTEST && stream[..SHORTEST] == SHORTEST_REQUEST
    ensures Receive(stream, limit, [Upto(SHORTEST)], 0, 0).Received?
  {
    hide Receive, Grown, Parsed, ProbeOf;
    ChunkRoom(0, 0, limit);
    ReceiveStep(stream, limit, [Upto(SHORTEST)], 0, 0);
    ShortestCompletes(limit);
    assert Arriving([Upto(SHORTEST)], CHUNK, |stream|) == SHORTEST;
  }

  lemma WholeAtOnce(stream: string, limit: nat)
    requires 0 < limit < |stream| <= CHUNK
    ensures Receive(stream, limit, [], 0, 0) == BadRequest
  {
    hide Receive, Grown, Parsed, HeadOf, HeaderEnd;
    ChunkRoom(0, 0, limit);
    ReceiveStep(stream, limit, [], 0, 0);
    assert Arriving([], CHUNK, |stream|) == |stream| && stream[..|stream|] == stream;
  }

  ghost predicate Independent(limit: nat)
    requires limit > 0
  {
    forall stream, calls, other :: Receive(stream, limit, calls, 0, 0) == Receive(stream, limit, other, 0, 0)
  }

  /** Exactly which limits make the outcome independent of the pieces. */
  lemma IndependentIff(limit: nat)
    requires limit > 0
    ensures Independent(limit) <==> limit >= CHUNK || limit < SHORTEST
  {
    hide Receive, Fate;
    if limit >= CHUNK {
      forall stream, calls, other ensures Receive(stream, limit, calls, 0, 0) == Receive(stream, limit, other, 0, 0) {
        ChunkingIndependence(stream, limit, calls);
        ChunkingIndependence(stream, limit, other);
      }
    } else if limit < SHORTEST {
      forall stream, calls, other ensures Receive(stream, limit, calls, 0, 0) == Receive(stream, limit, other, 0, 0) {
        HeaderEndPrefix(stream, 0);
        SmallReceive(stream, limit, calls, 0, 0);
        SmallReceive(stream, limit, other, 0, 0);
      }
    } else {
      var stream := MiddleDepends(limit);
    }
  }
}
