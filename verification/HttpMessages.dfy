/** Requests by their bytes: which header lines mean what, by the names as they are written, and whole requests
    as a client sends them (sections 5 and 6.3 of RFC 9112). */
module HttpMessages {
  import opened Basics
  import opened Text
  import opened HttpProtocol
  import opened HttpReceive

  // ----- header names -------------------------------------------------------------------------------

  lemma NameIs(name: string, written: string, capitals: string)
    requires |written| == |capitals| && forall i :: 0 <= i < |written| ==> ToUpper(written[i]) == capitals[i]
    ensures EqualIgnoringCase(name, written) <==> Spelled(name, capitals)
  {
    hide ToUpper, EqualIgnoringCase;
    EqualIffUpper(name, written);
  }

  /** The names the server looks at, in any mixture of cases. */
  lemma FieldNames(name: string)
    ensures KindOf(name) == ContentLength <==> Spelled(name, "CONTENT-LENGTH")
    ensures KindOf(name) == ContentType <==> Spelled(name, "CONTENT-TYPE")
    ensures KindOf(name) == DebugSleep <==> Spelled(name, "X-DEBUG-SLEEP-MS")
    ensures KindOf(name) == TransferEncoding <==> Spelled(name, "TRANSFER-ENCODING")
  {
    NameIs(name, "Content-Length", "CONTENT-LENGTH");
    NameIs(name, "Content-Type", "CONTENT-TYPE");
    NameIs(name, "X-Debug-Sleep-Ms", "X-DEBUG-SLEEP-MS");
    NameIs(name, "Transfer-Encoding", "TRANSFER-ENCODING");
    hide EqualIgnoringCase, Spelled;
    NamesDiffer(name);
  }

  lemma NamesDiffer(name: string)
    ensures Spelled(name, "CONTENT-LENGTH") ==> |name| == 14
    ensures Spelled(name, "CONTENT-TYPE") ==> |name| == 12
    ensures Spelled(name, "X-DEBUG-SLEEP-MS") ==> |name| == 16
    ensures Spelled(name, "TRANSFER-ENCODING") ==> |name| == 17
  {
  }

  // ----- one header line ------------------------------------------------------------------------------

  /** A header line: a name and a value, with any white space around them. */
  datatype Header = Header(before: string, name: string, after: string, lead: string, value: string, trail: string)

  predicate ValidHeader(h: Header) {
    && AllSpace(h.before) && AllSpace(h.after) && AllSpace(h.lead) && AllSpace(h.trail)
    && h.name != "" && Tight(h.name) && ':' !in h.name && Tight(h.value)
  }

  function Line(h: Header): string { (h.before + h.name + h.after) + ":" + (h.lead + h.value + h.trail) }

  /** Name and value are found, and trimmed. */
  lemma LineParts(f: Fields, h: Header)
    requires ValidHeader(h)
    ensures AddLine(f, Line(h)) == AddField(f, KindOf(h.name), h.value)
    ensures HasName(Line(h)) && LineKind(Line(h)) == KindOf(h.name) && LineValue(Line(h)) == h.value
  {
    hide Trim, ByteFrom, AddField, KindOf;
    var left, right := h.before + h.name + h.after, h.lead + h.value + h.trail;
    var line := Line(h);
    TrimMeans(h.before, h.name, h.after);
    TrimMeans(h.lead, h.value, h.trail);
    NoColon(h);
    assert line[0..|left|] == line[..|left|] == left && line[|left|] == ':' && line[|left| + 1..] == right;
    FirstByte(line, ':', 0, |left|);
  }

  lemma NoColon(h: Header)
    requires ValidHeader(h)
    ensures ':' !in h.before + h.name + h.after
  {
    assert !IsSpace(':');
  }

  lemma NumberIs(value: string)
    ensures NumberOf(value) == Some(DigitsOf(value)) || NumberOf(value) == None
    ensures NumberOf(value).Some? <==> value != "" && (forall i :: 0 <= i < |value| ==> value[i] in "0123456789")
                                       && DigitsOf(value) <= 0xffff_ffff_ffff_ffff
  {
    forall i | 0 <= i < |value| ensures IsDigit(value[i]) <==> value[i] in "0123456789" { SpacesAndDigits(value[i]); }
  }

  function DigitsOf(value: string): nat { if AllDigits(value) then DigitsValue(value) else 0 }

  lemma TightTrim(s: string)
    requires Tight(s)
    ensures Trim(s) == s
  {
    hide Trim;
    TrimMeans("", s, "");
    assert "" + s + "" == s;
  }

  /** What each header line does, by its name as it is written: Content-Length sets the declared length, Content-Type
      and X-Debug-Sleep-Ms are kept as they are, each at most once; Transfer-Encoding is refused; other names do
      nothing. */
  lemma HeaderLine(f: Fields, h: Header)
    requires ValidHeader(h)
    ensures var r := AddLine(f, Line(h));
            if Spelled(h.name, "CONTENT-LENGTH") then
              r == if f.contentLength == None && NumberOf(h.value).Some?
                   then Some(Fields(NumberOf(h.value), f.contentType, f.debugSleep)) else None
            else if Spelled(h.name, "CONTENT-TYPE") then
              r == if f.contentType == None && |h.value| <= 63
                   then Some(Fields(f.contentLength, Some(h.value), f.debugSleep)) else None
            else if Spelled(h.name, "X-DEBUG-SLEEP-MS") then
              r == if f.debugSleep == None && 1 <= |h.value| <= 15
                   then Some(Fields(f.contentLength, f.contentType, Some(h.value))) else None
            else if Spelled(h.name, "TRANSFER-ENCODING") then r == None
            else r == Some(f)
  {
    hide AddLine, Trim, NumberOf, KindOf, Spelled, Line;
    LineParts(f, h);
    FieldNames(h.name);
    TightTrim(h.value);
  }

  // ----- whole requests ---------------------------------------------------------------------------------

  /** Method, path and version the server accepts, by their bytes. */
  predicate ProperLine(m: string, path: string, version: string) {
    && 1 <= |m| <= 15 && ' ' !in m && '\r' !in m
    && 1 <= |path| <= 127 && ' ' !in path && '\r' !in path && path[0] == '/'
    && (version == "HTTP/1.1" || version == "HTTP/1.0")
  }

  lemma ProperAccepted(m: string, path: string, version: string)
    requires ProperLine(m, path, version)
    ensures ParseRequestLine(m + " " + path + " " + version) == Some((m, path, version))
    ensures OneLine(m + " " + path + " " + version)
  {
    hide ParseRequestLine;
    VersionKnown(version);
    LineAccepted(m, path, version);
  }

  lemma VersionKnown(version: string)
    requires version == "HTTP/1.1" || version == "HTTP/1.0"
    ensures KnownVersion(version) && ' ' !in version && '\r' !in version && 0 < |version| < 16
  {
    CStringWhole(version);
  }

  /** A line that could be part of a message. */
  predicate OnOneLine(h: Header) { '\r' !in Line(h) }

  function Lines(hs: seq<Header>): seq<string> { seq(|hs|, i requires 0 <= i < |hs| => Line(hs[i])) }

  /** The bytes of a request. */
  function Message(m: string, path: string, version: string, hs: seq<Header>, rest: string): string {
    Written(m + " " + path + " " + version, Lines(hs)) + rest
  }

  lemma LinesProper(hs: seq<Header>)
    requires forall h <- hs :: ValidHeader(h) && OnOneLine(h)
    ensures forall line <- Lines(hs) :: OneLine(line)
  {
    forall i | 0 <= i < |hs| ensures OneLine(Lines(hs)[i]) { assert hs[i] in hs; }
  }

  lemma {:induction false} OneHeader(f: Fields, h: Header)
    ensures AddLines(f, Lines([h])) == AddLine(f, Line(h))
  {
    hide AddLine, Line;
    assert Lines([h]) == [Line(h)] && [Line(h)][1..] == [];
    var r := AddLine(f, Line(h));
    assert r.Some? ==> AddLines(r.value, []) == r;
  }

  lemma MessageRead(m: string, path: string, version: string, hs: seq<Header>, rest: string)
    requires ProperLine(m, path, version) && forall h <- hs :: ValidHeader(h) && OnOneLine(h)
    ensures var r := RequestOf(Message(m, path, version, hs, rest));
            match AddLines(NO_FIELDS, Lines(hs))
            case None => r == None
            case Some(f) =>
              r == if Declared(f) <= |rest| then Some(Request(m, path, version, f, rest[..Declared(f)])) else None
  {
    hide RequestOf, AddLines, Lines, ParseRequestLine, OneLine, Written;
    ProperAccepted(m, path, version);
    LinesProper(hs);
    RequestWritten(m + " " + path + " " + version, Lines(hs), rest);
  }

  /** A request with a Content-Length line, the name in any case and any white space around it, followed by the
      body: the body is read back, whatever follows it. */
  lemma BodyRead(m: string, path: string, version: string, h: Header, body: string, more: string)
    requires ProperLine(m, path, version) && ValidHeader(h) && OnOneLine(h)
    requires Spelled(h.name, "CONTENT-LENGTH") && h.value == Decimal(|body|) && |body| <= 0xffff_ffff_ffff_ffff
    ensures RequestOf(Message(m, path, version, [h], body + more)) ==
            Some(Request(m, path, version, Fields(Some(|body|), None, None), body))
  {
    hide RequestOf, Spelled, Line, AddLine, Message, NumberOf, Decimal, DigitsValue;
    DecimalNumber(|body|);
    HeaderLine(NO_FIELDS, h);
    OneHeader(NO_FIELDS, h);
    MessageRead(m, path, version, [h], body + more);
    assert (body + more)[..|body|] == body;
  }

  lemma DecimalNumber(n: nat)
    requires n <= 0xffff_ffff_ffff_ffff
    ensures NumberOf(Decimal(n)) == Some(n)
  {
    hide Decimal, DigitsValue;
    DecimalDigits(n);
  }

  /** The same as plain bytes. */
  lemma PlainRequest(m: string, path: string, version: string, name: string, body: string)
    requires ProperLine(m, path, version) && Spelled(name, "CONTENT-LENGTH") && |body| <= 0xffff_ffff_ffff_ffff
    ensures RequestOf(m + " " + path + " " + version + "\r\n" + name + ": " + Decimal(|body|) + "\r\n" + "\r\n"
                      + body) ==
            Some(Request(m, path, version, Fields(Some(|body|), None, None), body))
  {
    hide RequestOf, Spelled, Decimal, Message, ValidHeader, OnOneLine;
    PlainHeader(name, |body|);
    BodyRead(m, path, version, PlainLength(name, |body|), body, "");
    PlainMessage(m, path, version, name, body);
  }

  function PlainLength(name: string, n: nat): Header { Header("", name, "", " ", Decimal(n), "") }

  lemma PlainHeader(name: string, n: nat)
    requires Spelled(name, "CONTENT-LENGTH")
    ensures ValidHeader(PlainLength(name, n)) && OnOneLine(PlainLength(name, n))
  {
    SpelledName(name);
    DecimalTight(n);
    hide Spelled, Decimal;
  }

  lemma PlainMessage(m: string, path: string, version: string, name: string, body: string)
    ensures Message(m, path, version, [PlainLength(name, |body|)], body + "") ==
            m + " " + path + " " + version + "\r\n" + name + ": " + Decimal(|body|) + "\r\n" + "\r\n" + body
  {
    hide Decimal, Line, Written;
    var h, line := PlainLength(name, |body|), m + " " + path + " " + version;
    PlainBytes(line, name, Decimal(|body|), body);
    OneLineOf(h);
    NothingMore(body);
  }

  lemma OneLineOf(h: Header)
    ensures Lines([h]) == [Line(h)]
  {
    hide Line;
  }

  lemma NothingMore(s: string)
    ensures s + "" == s
  {
  }

  lemma SpelledName(name: string)
    requires Spelled(name, "CONTENT-LENGTH")
    ensures name != "" && Tight(name) && ':' !in name && '\r' !in name
  {
    forall i | 0 <= i < |name| ensures !IsSpace(name[i]) && name[i] != ':' { UpperSpace(name[i]); }
  }

  lemma UpperSpace(c: char)
    ensures IsSpace(c) || c == ':' ==> ToUpper(c) == c
  {
  }

  lemma DecimalTight(n: nat)
    ensures Decimal(n) != "" && Tight(Decimal(n)) && '\r' !in Decimal(n)
  {
    hide Decimal, DigitsValue;
    DecimalDigits(n);
    var s := Decimal(n);
    assert forall i :: 0 <= i < |s| ==> IsDigit(s[i]);
  }

  lemma PlainBytes(line: string, name: string, digits: string, body: string)
    ensures var h := Header("", name, "", " ", digits, "");
            && Written(line, [Line(h)]) + body == line + "\r\n" + name + ": " + digits + "\r\n" + "\r\n" + body
            && Line(h) == name + ": " + digits
  {
    var h := Header("", name, "", " ", digits, "");
    assert Line(h) == name + ": " + digits;
    assert Joined([Line(h)]) == Line(h) + "\r\n" + "" by { assert [Line(h)][1..] == []; }
  }

  /** The other two lines the server keeps, together with the body. */
  lemma FieldsKept(m: string, path: string, version: string, t: Header, d: Header, l: Header, body: string)
    requires ProperLine(m, path, version) && forall h <- [t, d, l] :: ValidHeader(h) && OnOneLine(h)
    requires Spelled(t.name, "CONTENT-TYPE") && Spelled(d.name, "X-DEBUG-SLEEP-MS") && Spelled(l.name, "CONTENT-LENGTH")
    requires |t.value| <= 63 && 1 <= |d.value| <= 15 && l.value == Decimal(|body|) && |body| <= 0xffff_ffff_ffff_ffff
    ensures RequestOf(Message(m, path, version, [t, d, l], body)) ==
            Some(Request(m, path, version, Fields(Some(|body|), Some(t.value), Some(d.value)), body))
  {
    hide RequestOf, Message, AddLines, NumberOf, Decimal, ValidHeader, OnOneLine;
    assert t in [t, d, l] && d in [t, d, l] && l in [t, d, l];
    ThreeLines(t, d, l, |body|);
    MessageRead(m, path, version, [t, d, l], body);
    assert body[..|body|] == body;
  }

  lemma ThreeLines(t: Header, d: Header, l: Header, n: nat)
    requires ValidHeader(t) && ValidHeader(d) && ValidHeader(l) && l.value == Decimal(n) && n <= 0xffff_ffff_ffff_ffff
    requires Spelled(t.name, "CONTENT-TYPE") && Spelled(d.name, "X-DEBUG-SLEEP-MS") && Spelled(l.name, "CONTENT-LENGTH")
    requires |t.value| <= 63 && 1 <= |d.value| <= 15
    ensures AddLines(NO_FIELDS, Lines([t, d, l])) == Some(Fields(Some(n), Some(t.value), Some(d.value)))
  {
    hide AddLine, NumberOf, Decimal, ValidHeader, Spelled, Line, Lines, AddLines;
    var f1 := Fields(None, Some(t.value), None);
    var f2 := Fields(None, Some(t.value), Some(d.value));
    TypeLine(NO_FIELDS, t);
    SleepLine(f1, d);
    DecimalNumber(n);
    LengthLine(f2, l);
    MoreHeaders(NO_FIELDS, t, [d, l]);
    MoreHeaders(f1, d, [l]);
    OneHeader(f2, l);
    assert [t] + [d, l] == [t, d, l] && [d] + [l] == [d, l];
  }

  lemma TypeLine(f: Fields, h: Header)
    requires ValidHeader(h) && Spelled(h.name, "CONTENT-TYPE") && |h.value| <= 63 && f.contentType == None
    ensures AddLine(f, Line(h)) == Some(Fields(f.contentLength, Some(h.value), f.debugSleep))
  {
    NamesDiffer(h.name);
    hide AddLine, ValidHeader, Spelled, Line, NumberOf;
    HeaderLine(f, h);
  }

  lemma SleepLine(f: Fields, h: Header)
    requires ValidHeader(h) && Spelled(h.name, "X-DEBUG-SLEEP-MS") && 1 <= |h.value| <= 15 && f.debugSleep == None
    ensures AddLine(f, Line(h)) == Some(Fields(f.contentLength, f.contentType, Some(h.value)))
  {
    NamesDiffer(h.name);
    hide AddLine, ValidHeader, Spelled, Line, NumberOf;
    HeaderLine(f, h);
  }

  lemma LengthLine(f: Fields, h: Header)
    requires ValidHeader(h) && Spelled(h.name, "CONTENT-LENGTH") && NumberOf(h.value).Some? && f.contentLength == None
    ensures AddLine(f, Line(h)) == Some(Fields(NumberOf(h.value), f.contentType, f.debugSleep))
  {
    hide AddLine, ValidHeader, Spelled, Line, NumberOf;
    HeaderLine(f, h);
  }

  lemma MoreHeaders(f: Fields, h: Header, hs: seq<Header>)
    requires AddLine(f, Line(h)).Some?
    ensures AddLines(f, Lines([h] + hs)) == AddLines(AddLine(f, Line(h)).value, Lines(hs))
  {
    hide AddLine, Line;
    assert Lines([h] + hs)[1..] == Lines(hs);
  }

  /** A Transfer-Encoding line anywhere refuses the request. */
  lemma TransferEncodingRefused(m: string, path: string, version: string, hs: seq<Header>, i: nat, rest: string)
    requires ProperLine(m, path, version) && (forall h <- hs :: ValidHeader(h) && OnOneLine(h))
    requires i < |hs| && Spelled(hs[i].name, "TRANSFER-ENCODING")
    ensures RequestOf(Message(m, path, version, hs, rest)) == None
  {
    hide RequestOf, Message, AddLines, Line, LineOk;
    assert hs[i] in hs;
    LineParts(NO_FIELDS, hs[i]);
    FieldNames(hs[i].name);
    NotOk(Line(hs[i]));
    AddLinesIff(NO_FIELDS, Lines(hs));
    MessageRead(m, path, version, hs, rest);
    assert Lines(hs)[i] == Line(hs[i]);
  }

  lemma NotOk(line: string)
    requires HasName(line) && LineKind(line) == TransferEncoding
    ensures !LineOk(line)
  {
    hide ByteFrom, Trim;
  }

  /** Without a Content-Length line there is no body. */
  lemma NoBody(m: string, path: string, version: string, hs: seq<Header>, rest: string)
    requires ProperLine(m, path, version) && (forall h <- hs :: ValidHeader(h) && OnOneLine(h))
    requires forall h <- hs :: !Spelled(h.name, "CONTENT-LENGTH")
    ensures var r := RequestOf(Message(m, path, version, hs, rest)); r.Some? ==> r.value.body == ""
  {
    hide RequestOf, Message, AddLines, Line, Spelled, ValidHeader, OnOneLine;
    forall i | 0 <= i < |hs| ensures LineKind(Lines(hs)[i]) != ContentLength {
      assert hs[i] in hs;
      LineParts(NO_FIELDS, hs[i]);
      FieldNames(hs[i].name);
    }
    AddLinesIff(NO_FIELDS, Lines(hs));
    MessageRead(m, path, version, hs, rest);
  }

  // ----- on the wire ----------------------------------------------------------------------------------------

  /** However it is cut into pieces, and whatever follows it, a request within the limit is received with its body. */
  lemma BodyReceived(m: string, path: string, version: string, h: Header, body: string, more: string, limit: nat,
      calls: seq<Recv>)
    requires ProperLine(m, path, version) && ValidHeader(h) && OnOneLine(h)
    requires Spelled(h.name, "CONTENT-LENGTH") && h.value == Decimal(|body|)
    requires var n := |Message(m, path, version, [h], body)|; n <= limit && n <= 0xffff_ffff_ffff_ffff && limit >= 4096
    ensures Receive(Message(m, path, version, [h], body + more), limit, calls, 0, 0) ==
            Received(Request(m, path, version, Fields(Some(|body|), None, None), body),
                     |Message(m, path, version, [h], body)|)
  {
    hide Spelled, Receive, ProperLine, OnOneLine, Decimal, ValidHeader, Fate, RequestOf;
    var stream, whole := Message(m, path, version, [h], body + more), Message(m, path, version, [h], body);
    ChunkingIndependence(stream, limit, calls);
    BodyRead(m, path, version, h, body, "");
    assert body + "" == body;
    WholeIsPrefix(m, path, version, h, body, more);
    MessageHead(m, path, version, h, body);
    FateOfWhole(stream, |whole|, limit, Request(m, path, version, Fields(Some(|body|), None, None), body));
  }

  lemma MessageHead(m: string, path: string, version: string, h: Header, rest: string)
    requires ProperLine(m, path, version) && ValidHeader(h) && OnOneLine(h)
    ensures HeaderEnd(Message(m, path, version, [h], rest)) == Some(|Message(m, path, version, [h], "")|)
  {
    hide HeaderEnd, Written, Lines, ParseRequestLine;
    ProperAccepted(m, path, version);
    LinesProper([h]);
    WrittenEnd(m + " " + path + " " + version, Lines([h]), rest);
  }

  lemma WholeIsPrefix(m: string, path: string, version: string, h: Header, body: string, more: string)
    ensures var stream, whole := Message(m, path, version, [h], body + more), Message(m, path, version, [h], body);
            |whole| <= |stream| && stream[..|whole|] == whole
            && |whole| == |Message(m, path, version, [h], "")| + |body|
  {
    hide Written, Lines;
  }

  /** A stream that starts with a whole request within the limit is received as that request. */
  lemma FateOfWhole(stream: string, n: nat, limit: nat, request: Request)
    requires n <= |stream| && n <= limit && n <= SIZE_MAX && RequestOf(stream[..n]) == Some(request)
    requires HeaderEnd(stream[..n]) == Some(n - |request.body|)
    ensures Fate(stream, limit) == Received(request, n)
  {
    hide HeadIn, HeaderEndFrom;
    HeaderEndPrefix(stream, n);
    HeaderEndPrefix(stream, Min(|stream|, limit));
    HeadPrefix(stream, n);
    HeadLength(stream[..n]);
  }
}
