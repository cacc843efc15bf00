/** Reading one HTTP request (`SERVER-HTTP/src/http_protocol.c`): finding the end of the head, parsing the
    request line and the header fields, and framing the body by Content-Length (sections 6.2 and 6.3 of
    RFC 9112).  A rejected request is `None`; the wording of errors is left out. */
module HttpProtocol {
  import opened Basics
  import opened Text

  const SIZE_MAX: nat := 0xffff_ffff_ffff_ffff

  /** What the parser keeps of a request. */
  datatype Request = Request(method_: string, path: string, version: string, fields: Fields, body: string)

  /** The header fields the server looks at, as far as they have been seen. */
  datatype Fields = Fields(contentLength: Option<nat>, contentType: Option<string>, debugSleep: Option<string>)

  const NO_FIELDS := Fields(None, None, None)

  function Declared(f: Fields): nat { if f.contentLength.Some? then f.contentLength.value else 0 }

  // ----- searching ------------------------------------------------------------------------------------

  /** An empty line ends the head just before position `h`. */
  predicate EndsHead(s: string, h: nat) {
    4 <= h <= |s| && s[h - 4] == '\r' && s[h - 3] == '\n' && s[h - 2] == '\r' && s[h - 1] == '\n'
  }

  function HeaderEndFrom(s: string, h: nat): (r: Option<nat>)
    ensures r.Some? ==> h <= r.value && EndsHead(s, r.value) && forall k :: h <= k < r.value ==> !EndsHead(s, k)
    ensures r.None? ==> forall k :: h <= k ==> !EndsHead(s, k)
    decreases |s| - h
  {
    if h > |s| then None else if EndsHead(s, h) then Some(h) else HeaderEndFrom(s, h + 1)
  }

  /** The length of the head, including the empty line. */
  function HeaderEnd(s: string): Option<nat> { HeaderEndFrom(s, 4) }

  method FindHeaderEnd(s: string) returns (r: Option<nat>)
    ensures r == HeaderEnd(s)
  {
    var i := 0;
    while i + 3 < |s|
      invariant i <= |s| && HeaderEnd(s) == HeaderEndFrom(s, i + 4)
    {
      if s[i] == '\r' && s[i + 1] == '\n' && s[i + 2] == '\r' && s[i + 3] == '\n' {
        return Some(i + 4);
      }
      i := i + 1;
    }
    return None;
  }

  /** More bytes do not move the end of the head. */
  lemma HeaderEndPrefix(s: string, n: nat)
    requires n <= |s|
    ensures HeaderEnd(s[..n]) == if HeaderEnd(s).Some? && HeaderEnd(s).value <= n then HeaderEnd(s) else None
  {
    hide HeaderEndFrom;
    var p := s[..n];
    assert forall k: nat :: EndsHead(p, k) <==> EndsHead(s, k) && k <= n;
    assert HeaderEnd(p) == HeaderEndFrom(p, 4) && HeaderEnd(s) == HeaderEndFrom(s, 4);
  }

  predicate IsCrlf(s: string, e: nat) { e + 1 < |s| && s[e] == '\r' && s[e + 1] == '\n' }

  /** The first line end at or behind position `e`. */
  function CrlfFrom(s: string, e: nat): (r: Option<nat>)
    ensures r.Some? ==> e <= r.value && IsCrlf(s, r.value) && forall k :: e <= k < r.value ==> !IsCrlf(s, k)
    ensures r.None? ==> forall k :: e <= k ==> !IsCrlf(s, k)
    decreases |s| - e
  {
    if e + 1 >= |s| then None else if IsCrlf(s, e) then Some(e) else CrlfFrom(s, e + 1)
  }

  method FindCrlf(s: string, start: nat) returns (r: Option<nat>)
    ensures r == CrlfFrom(s, start)
  {
    var e := start;
    while e + 1 < |s|
      invariant CrlfFrom(s, start) == CrlfFrom(s, e)
    {
      if s[e] == '\r' && s[e + 1] == '\n' {
        return Some(e);
      }
      e := e + 1;
    }
    return None;
  }

  /** `memchr`. */
  function ByteFrom(s: string, c: char, i: nat): (r: Option<nat>)
    ensures r.Some? ==> i <= r.value < |s| && s[r.value] == c && c !in s[i..r.value]
    ensures r.None? && i <= |s| ==> c !in s[i..]
    decreases |s| - i
  {
    if i >= |s| then None
    else if s[i] == c then Some(i)
    else
      var r := ByteFrom(s, c, i + 1);
      assert s[i..] == [s[i]] + s[i + 1..];
      assert r.Some? ==> s[i..r.value] == [s[i]] + s[i + 1..r.value];
      r
  }

  // ----- trimming and numbers ---------------------------------------------------------------------------

  lemma TrimLeftStep(s: string)
    ensures TrimLeft(s) == if s != "" && IsSpace(s[0]) then TrimLeft(s[1..]) else s
    ensures TrimRight(s) == if s != "" && IsSpace(s[|s| - 1]) then TrimRight(s[..|s| - 1]) else s
  {
  }

  method TrimSpan(s: string) returns (r: string)
    ensures r == Trim(s)
  {
    hide TrimLeft, TrimRight;
    var start, end := 0, |s|;
    assert s[0..end] == s;
    while start < end && IsSpace(s[start])
      invariant start <= end == |s| && TrimLeft(s) == TrimLeft(s[start..end])
    {
      TrimLeftStep(s[start..end]);
      assert s[start..end][1..] == s[start + 1..end];
      start := start + 1;
    }
    TrimLeftStep(s[start..end]);
    while start < end && IsSpace(s[end - 1])
      invariant start <= end <= |s| && Trim(s) == TrimRight(s[start..end])
    {
      TrimLeftStep(s[start..end]);
      assert s[start..end][..end - start - 1] == s[start..end - 1];
      end := end - 1;
    }
    TrimLeftStep(s[start..end]);
    r := s[start..end];
  }

  /** A decimal number of at most SIZE_MAX. */
  function NumberOf(digits: string): Option<nat> {
    if digits != "" && AllDigits(digits) && DigitsValue(digits) <= SIZE_MAX then Some(DigitsValue(digits)) else None
  }

  lemma {:induction false} DigitsValueGrows(digits: string, n: nat)
    requires AllDigits(digits) && n <= |digits|
    ensures DigitsValue(digits[..n]) <= DigitsValue(digits)
    decreases |digits|
  {
    if n == |digits| {
      assert digits[..n] == digits;
    } else {
      var m := |digits| - 1;
      DigitsValueGrows(digits[..m], n);
      assert digits[..m][..n] == digits[..n];
    }
  }

  lemma DigitsSnoc(digits: string, n: nat)
    requires n < |digits| && AllDigits(digits[..n]) && IsDigit(digits[n])
    ensures AllDigits(digits[..n + 1])
    ensures DigitsValue(digits[..n + 1]) == DigitsValue(digits[..n]) * 10 + DigitValue(digits[n])
  {
    var s := digits[..n + 1];
    assert s[..|s| - 1] == digits[..n];
  }

  /** The accumulator never wraps around: a number is accepted exactly when its value fits. */
  method ParseContentLength(text: string) returns (r: Option<nat>)
    ensures r == NumberOf(Trim(text))
  {
    hide DigitsValue, Trim;
    var digits := TrimSpan(text);
    if digits == "" {
      return None;
    }
    var value: nat, i := 0, 0;
    assert digits[..0] == "";
    EmptyValue();
    while i < |digits|
      invariant i <= |digits| && AllDigits(digits[..i]) && value == DigitsValue(digits[..i]) <= SIZE_MAX
    {
      if !IsDigit(digits[i]) {
        return None;
      }
      var d := DigitValue(digits[i]);
      DigitsSnoc(digits, i);
      if value > (SIZE_MAX - d) / 10 {
        if AllDigits(digits) { DigitsValueGrows(digits, i + 1); }
        return None;
      }
      value := value * 10 + d;
      i := i + 1;
    }
    assert digits[..i] == digits;
    return Some(value);
  }

  lemma EmptyValue()
    ensures DigitsValue("") == 0
  {
  }

  // ----- the request line -------------------------------------------------------------------------------

  /** `http_copy_span`: a non-empty span that fits a buffer of `size` bytes with its NUL. */
  predicate Copyable(span: string, size: nat) { 0 < |span| < size }

  predicate KnownVersion(version: string) { CString(version) == "HTTP/1.1" || CString(version) == "HTTP/1.0" }

  /** Method, path and version that the server accepts. */
  predicate ValidLine(m: string, path: string, version: string) {
    && 1 <= |m| <= 15 && 1 <= |path| <= 127 && 1 <= |version| <= 15
    && ' ' !in m && ' ' !in path && ' ' !in version
    && (CString(version) == "HTTP/1.1" || CString(version) == "HTTP/1.0") && path[0] == '/'
  }

  function ParseRequestLine(line: string): Option<(string, string, string)> {
    match ByteFrom(line, ' ', 0)
    case None => None
    case Some(a) =>
      match ByteFrom(line, ' ', a + 1)
      case None => None
      case Some(b) =>
        if ByteFrom(line, ' ', b + 1).Some? then None else
        var m, path, version := line[..a], line[a + 1..b], line[b + 1..];
        if Copyable(m, 16) && Copyable(path, 128) && Copyable(version, 16) && KnownVersion(version) && path[0] == '/'
        then Some((m, path, version)) else None
  }

  /** A request line is accepted exactly when it is an acceptable method, path and version joined by
      single spaces. */
  lemma RequestLineIff(line: string, m: string, path: string, version: string)
    ensures ParseRequestLine(line) == Some((m, path, version)) <==>
            ValidLine(m, path, version) && line == m + " " + path + " " + version
  {
    hide ParseRequestLine;
    if ValidLine(m, path, version) && line == m + " " + path + " " + version { LineAccepted(m, path, version); }
    if ParseRequestLine(line) == Some((m, path, version)) { LineRead(line); }
  }

  lemma LineAccepted(m: string, path: string, version: string)
    requires ValidLine(m, path, version)
    ensures ParseRequestLine(m + " " + path + " " + version) == Some((m, path, version))
  {
    hide CString, ByteFrom;
    var line, a, b := m + " " + path + " " + version, |m|, |m| + 1 + |path|;
    assert line[..a] == line[0..a] == m && line[a + 1..b] == path && line[b + 1..] == version;
    FirstByte(line, ' ', 0, a);
    FirstByte(line, ' ', a + 1, b);
    NoByte(line, ' ', b + 1);
  }

  lemma LineRead(line: string)
    requires ParseRequestLine(line).Some?
    ensures var (m, path, version) := ParseRequestLine(line).value;
            ValidLine(m, path, version) && line == m + " " + path + " " + version
  {
    hide CString, ByteFrom;
    var a := ByteFrom(line, ' ', 0).value;
    var b := ByteFrom(line, ' ', a + 1).value;
    assert line[0..a] == line[..a];
    assert line == line[..a] + [line[a]] + line[a + 1..b] + [line[b]] + line[b + 1..];
  }

  lemma {:induction false} FirstByte(s: string, c: char, i: nat, k: nat)
    requires i <= k < |s| && s[k] == c && c !in s[i..k]
    ensures ByteFrom(s, c, i) == Some(k)
    decreases k - i
  {
    if i < k {
      assert s[i..k] == [s[i]] + s[i + 1..k];
      FirstByte(s, c, i + 1, k);
    }
  }

  lemma NoByte(s: string, c: char, i: nat)
    requires i <= |s| && c !in s[i..]
    ensures ByteFrom(s, c, i).None?
  {
    assert forall j :: i <= j < |s| ==> s[j] == s[i..][j - i];
  }

  // ----- header fields -------------------------------------------------------------------------------------

  datatype Kind = ContentLength | ContentType | DebugSleep | TransferEncoding | OtherField

  function KindOf(name: string): Kind {
    if EqualIgnoringCase(name, "Content-Length") then ContentLength
    else if EqualIgnoringCase(name, "Content-Type") then ContentType
    else if EqualIgnoringCase(name, "X-Debug-Sleep-Ms") then DebugSleep
    else if EqualIgnoringCase(name, "Transfer-Encoding") then TransferEncoding
    else OtherField
  }

  function AddField(f: Fields, kind: Kind, value: string): Option<Fields> {
    match kind
    case ContentLength =>
      if f.contentLength.Some? || NumberOf(Trim(value)).None? then None
      else Some(f.(contentLength := NumberOf(Trim(value))))
    case ContentType =>
      if f.contentType.Some? || (value != "" && !Copyable(value, 64)) then None
      else Some(f.(contentType := Some(value)))
    case DebugSleep =>
      if f.debugSleep.Some? || !Copyable(value, 16) then None else Some(f.(debugSleep := Some(value)))
    case TransferEncoding => None
    case OtherField => Some(f)
  }

  function AddLine(f: Fields, line: string): Option<Fields> {
    if line == "" then Some(f) else
    match ByteFrom(line, ':', 0)
    case None => None
    case Some(colon) =>
      var name, value := Trim(line[..colon]), Trim(line[colon + 1..]);
      if name == "" then None else AddField(f, KindOf(name), value)
  }

  function AddLines(f: Fields, lines: seq<string>): Option<Fields>
    decreases |lines|
  {
    if lines == [] then Some(f) else
    match AddLine(f, lines[0])
    case None => None
    case Some(f') => AddLines(f', lines[1..])
  }

  /** The lines of a text, each ended by CR LF. */
  function LinesFrom(text: string, at: nat): Option<seq<string>>
    decreases |text| - at
  {
    if at >= |text| then Some([]) else
    match CrlfFrom(text, at)
    case None => None
    case Some(e) =>
      match LinesFrom(text, e + 2)
      case None => None
      case Some(rest) => Some([text[at..e]] + rest)
  }

  function FieldsFrom(text: string, at: nat, f: Fields): Option<Fields> {
    match LinesFrom(text, at)
    case None => None
    case Some(lines) => AddLines(f, lines)
  }

  lemma FieldsStep(text: string, at: nat, f: Fields)
    requires at < |text|
    ensures CrlfFrom(text, at).None? ==> FieldsFrom(text, at, f).None?
    ensures CrlfFrom(text, at).Some? ==>
              var e := CrlfFrom(text, at).value;
              FieldsFrom(text, at, f) ==
              match AddLine(f, text[at..e])
              case None => None
              case Some(f') => FieldsFrom(text, e + 2, f')
  {
    hide AddLine, CrlfFrom;
  }

  lemma FieldsDone(text: string, at: nat, f: Fields)
    requires at >= |text|
    ensures FieldsFrom(text, at, f) == Some(f)
  {
  }

  method ParseHeaderLine(f: Fields, line: string) returns (r: Option<Fields>)
    requires line != ""
    ensures r == AddLine(f, line)
  {
    hide Trim, KindOf, NumberOf;
    var colon := ByteFrom(line, ':', 0);
    if colon.None? {
      return None;
    }
    var name := TrimSpan(line[..colon.value]);
    var value := TrimSpan(line[colon.value + 1..]);
    if name == "" {
      return None;
    }
    match KindOf(name) {
      case ContentLength =>
        if f.contentLength.Some? {
          return None;
        }
        var length := ParseContentLength(value);
        if length.None? {
          return None;
        }
        return Some(f.(contentLength := length));
      case ContentType =>
        if f.contentType.Some? || (value != "" && !Copyable(value, 64)) {
          return None;
        }
        return Some(f.(contentType := Some(value)));
      case DebugSleep =>
        if f.debugSleep.Some? || !Copyable(value, 16) {
          return None;
        }
        return Some(f.(debugSleep := Some(value)));
      case TransferEncoding => return None;
      case OtherField => return Some(f);
    }
  }

  method ParseHeaders(text: string) returns (r: Option<Fields>)
    ensures r == FieldsFrom(text, 0, NO_FIELDS)
  {
    hide AddLine, FieldsFrom;
    var cursor, fields := 0, NO_FIELDS;
    while cursor < |text|
      invariant FieldsFrom(text, 0, NO_FIELDS) == FieldsFrom(text, cursor, fields)
    {
      FieldsStep(text, cursor, fields);
      var e := FindCrlf(text, cursor);
      if e.None? {
        return None;
      }
      if e.value == cursor {
        BlankAdds(fields, text[cursor..e.value]);
        cursor := e.value + 2;
        continue;
      }
      var added := ParseHeaderLine(fields, text[cursor..e.value]);
      if added.None? {
        return None;
      }
      fields := added.value;
      cursor := e.value + 2;
    }
    FieldsDone(text, cursor, fields);
    return Some(fields);
  }

  lemma BlankAdds(f: Fields, line: string)
    requires line == ""
    ensures AddLine(f, line) == Some(f)
  {
  }

  // ----- what the header lines must be like ----------------------------------------------------------------

  predicate HasName(line: string) { ByteFrom(line, ':', 0).Some? && Trim(line[..ByteFrom(line, ':', 0).value]) != "" }

  function LineKind(line: string): Kind {
    if HasName(line) then KindOf(Trim(line[..ByteFrom(line, ':', 0).value])) else OtherField
  }

  function LineValue(line: string): string {
    if HasName(line) then Trim(line[ByteFrom(line, ':', 0).value + 1..]) else ""
  }

  /** A header line that is acceptable by itself. */
  predicate LineOk(line: string) {
    line == "" ||
    (HasName(line) &&
     match LineKind(line)
     case ContentLength => NumberOf(Trim(LineValue(line))).Some?
     case ContentType => |LineValue(line)| < 64
     case DebugSleep => 1 <= |LineValue(line)| <= 15
     case TransferEncoding => false
     case OtherField => true)
  }

  /** Fields that may occur only once. */
  predicate Clash(line: string, other: string) { Restricted(LineKind(line)) && LineKind(line) == LineKind(other) }

  predicate Seen(f: Fields, kind: Kind) {
    match kind
    case ContentLength => f.contentLength.Some?
    case ContentType => f.contentType.Some?
    case DebugSleep => f.debugSleep.Some?
    case TransferEncoding => false
    case OtherField => false
  }

  lemma AddLineIff(f: Fields, line: string)
    ensures AddLine(f, line).Some? <==> LineOk(line) && !Seen(f, LineKind(line))
    ensures AddLine(f, line).Some? ==>
              && (forall kind :: Seen(AddLine(f, line).value, kind) <==>
                   Seen(f, kind) || (kind == LineKind(line) && Restricted(kind)))
              && AddLine(f, line).value.contentLength ==
                 if LineKind(line).ContentLength? then NumberOf(Trim(LineValue(line))) else f.contentLength
  {
    hide Trim, KindOf, NumberOf;
  }

  predicate Restricted(kind: Kind) { kind.ContentLength? || kind.ContentType? || kind.DebugSleep? }

  predicate LinesOk(f: Fields, lines: seq<string>) {
    && (forall i :: 0 <= i < |lines| ==> LineOk(lines[i]) && !Seen(f, LineKind(lines[i])))
    && (forall i, j :: 0 <= i < j < |lines| ==> !Clash(lines[i], lines[j]))
  }

  /** Header lines are accepted exactly when each is acceptable and no restricted field occurs twice; the
      declared length is that of the one Content-Length line. */
  lemma {:induction false} AddLinesIff(f: Fields, lines: seq<string>)
    ensures AddLines(f, lines).Some? <==> LinesOk(f, lines)
    ensures AddLines(f, lines).Some? ==>
              && (forall i :: 0 <= i < |lines| && LineKind(lines[i]).ContentLength? ==>
                    AddLines(f, lines).value.contentLength == NumberOf(Trim(LineValue(lines[i]))))
              && ((forall i :: 0 <= i < |lines| ==> !LineKind(lines[i]).ContentLength?) ==>
                    AddLines(f, lines).value.contentLength == f.contentLength)
    decreases |lines|
  {
    hide AddLine, LineKind, LineOk, NumberOf, Trim, LineValue;
    if lines != [] {
      AddLineIff(f, lines[0]);
      var rest := lines[1..];
      if AddLine(f, lines[0]).Some? {
        AddLinesIff(AddLine(f, lines[0]).value, rest);
        assert forall i :: 1 <= i < |lines| ==> lines[i] == rest[i - 1];
      }
    }
  }

  // ----- head, probe and request -----------------------------------------------------------------------------

  datatype Head = Head(length: nat, line: (string, string, string), fields: Fields)

  /** `http_extract_head_metadata`: the head of a buffer that holds all of it. */
  function HeadOf(buffer: string): Option<Head> {
    match HeaderEnd(buffer)
    case None => None
    case Some(h) => HeadIn(buffer[..h])
  }

  function HeadIn(head: string): Option<Head> {
    match CrlfFrom(head, 0)
    case None => None
    case Some(e) =>
      match ParseRequestLine(head[..e])
      case None => None
      case Some(line) =>
        if e + 2 > |head| - 2 then None else
        match FieldsFrom(head[e + 2..|head| - 2], 0, NO_FIELDS)
        case None => None
        case Some(fields) => Some(Head(|head|, line, fields))
  }

  /** The first line end of a head is no later than the empty line. */
  lemma LineEndInHead(buffer: string)
    requires HeaderEnd(buffer).Some?
    ensures var h := HeaderEnd(buffer).value;
            CrlfFrom(buffer[..h], 0).Some? && CrlfFrom(buffer[..h], 0).value + 4 <= h
  {
    var h := HeaderEnd(buffer).value;
    assert EndsHead(buffer, h);
    assert IsCrlf(buffer[..h], h - 4);
  }

  method ExtractHead(buffer: string) returns (r: Option<Head>)
    ensures r == HeadOf(buffer)
  {
    hide ParseRequestLine, FieldsFrom;
    var h := FindHeaderEnd(buffer);
    if h.None? {
      return None;
    }
    LineEndInHead(buffer);
    var head := buffer[..h.value];
    var e := FindCrlf(head, 0);
    var line := ParseRequestLine(head[..e.value]);
    if line.None? {
      return None;
    }
    var fields := ParseHeaders(head[e.value + 2..h.value - 2]);
    if fields.None? {
      return None;
    }
    return Some(Head(h.value, line.value, fields.value));
  }

  /** Whether a whole request has arrived; `total` is the announced length of the request, 0 if not yet known. */
  datatype Probe = Invalid | Incomplete(total: nat) | Complete(total: nat)

  function ProbeOf(buffer: string, limit: nat): (r: Probe)
    ensures r.Complete? ==> r.total <= |buffer| && r.total <= limit
  {
    if |buffer| > limit then Invalid
    else if HeaderEnd(buffer).None? then Incomplete(0)
    else
      match HeadOf(buffer)
      case None => Invalid
      case Some(head) =>
        var total := head.length + Declared(head.fields);
        if total > SIZE_MAX then Invalid
        else if total <= limit && |buffer| >= total then Complete(total)
        else Incomplete(total)
  }

  method RequestProbe(buffer: string, limit: nat) returns (r: Probe)
    ensures r == ProbeOf(buffer, limit)
  {
    hide HeadOf, HeaderEnd;
    if |buffer| > limit {
      return Invalid;
    }
    var end := FindHeaderEnd(buffer);
    if end.None? {
      return Incomplete(0);
    }
    var head := ExtractHead(buffer);
    if head.None? {
      return Invalid;
    }
    var length, body := head.value.length, Declared(head.value.fields);
    if length > SIZE_MAX - body {
      return Invalid;
    }
    if length + body > limit {
      return Incomplete(length + body);
    }
    if |buffer| >= length + body {
      return Complete(length + body);
    }
    return Incomplete(length + body);
  }

  function RequestOf(buffer: string): Option<Request> {
    match HeadOf(buffer)
    case None => None
    case Some(Head(h, (m, path, version), fields)) =>
      if h > |buffer| || Declared(fields) > |buffer| - h then None
      else Some(Request(m, path, version, fields, buffer[h..h + Declared(fields)]))
  }

  method ParseRequest(buffer: string) returns (r: Option<Request>)
    ensures r == RequestOf(buffer)
  {
    hide HeadIn;
    var head := ExtractHead(buffer);
    if head.None? {
      return None;
    }
    HeadLength(buffer);
    var Head(h, (m, path, version), fields) := head.value;
    if Declared(fields) > |buffer| - h {
      return None;
    }
    return Some(Request(m, path, version, fields, buffer[h..h + Declared(fields)]));
  }

  lemma HeadLength(buffer: string)
    requires HeadOf(buffer).Some?
    ensures HeaderEnd(buffer) == Some(HeadOf(buffer).value.length) && 4 <= HeadOf(buffer).value.length <= |buffer|
  {
  }

  /** A head is read from its own bytes: what follows does not matter. */
  lemma HeadPrefix(s: string, n: nat)
    requires n <= |s|
    ensures HeaderEnd(s).Some? && HeaderEnd(s).value <= n ==> HeadOf(s[..n]) == HeadOf(s)
  {
    hide HeadIn, HeaderEndFrom;
    HeaderEndPrefix(s, n);
    if HeaderEnd(s).Some? && HeaderEnd(s).value <= n {
      assert s[..n][..HeaderEnd(s).value] == s[..HeaderEnd(s).value];
    }
  }

  /** When the probe says complete, parsing exactly the announced bytes succeeds and gives exactly the
      declared body. */
  lemma CompleteParses(buffer: string, limit: nat)
    requires ProbeOf(buffer, limit).Complete?
    ensures var n := ProbeOf(buffer, limit).total;
            && n <= |buffer| && RequestOf(buffer[..n]).Some?
            && var r := RequestOf(buffer[..n]).value;
               |r.body| == Declared(r.fields) <= n && r.body == buffer[n - |r.body|..n]
               && HeaderEnd(buffer) == Some(n - |r.body|)
  {
    hide HeadIn, HeaderEndFrom;
    var n := ProbeOf(buffer, limit).total;
    HeadLength(buffer);
    HeadPrefix(buffer, n);
    HeadLength(buffer[..n]);
    var h := HeadOf(buffer).value.length;
    assert buffer[..n][h..n] == buffer[h..n];
  }

  // ----- a well-formed head is read as it was written ----------------------------------------------------------

  function Joined(lines: seq<string>): string {
    if lines == [] then "" else lines[0] + "\r\n" + Joined(lines[1..])
  }

  function Written(line: string, headers: seq<string>): string { line + "\r\n" + Joined(headers) + "\r\n" }

  predicate OneLine(line: string) { line != "" && '\r' !in line }

  /** The lines of a joined text, from the middle of the text on. */
  lemma {:induction false} JoinedLines(text: string, at: nat, lines: seq<string>)
    requires at <= |text| && text[at..] == Joined(lines) && forall line <- lines :: OneLine(line)
    ensures LinesFrom(text, at) == Some(lines)
    decreases |lines|
  {
    hide CrlfFrom, Joined, OneLine, LinesFrom;
    JoinedStep(lines);
    if lines == [] {
      NoLines(text, at);
    } else {
      assert lines[0] in lines;
      var e := at + |lines[0]|;
      LineInText(text, at, lines[0], Joined(lines[1..]));
      JoinedLines(text, e + 2, lines[1..]);
      FirstLine(text, at, e, lines[1..]);
      assert [lines[0]] + lines[1..] == lines;
    }
  }

  lemma NoLines(text: string, at: nat)
    requires at <= |text| && text[at..] == ""
    ensures LinesFrom(text, at) == Some([])
  {
    assert |text[at..]| == |text| - at;
  }

  lemma FirstLine(text: string, at: nat, e: nat, rest: seq<string>)
    requires at < |text| && CrlfFrom(text, at) == Some(e) && LinesFrom(text, e + 2) == Some(rest)
    ensures at <= e <= |text| && LinesFrom(text, at) == Some([text[at..e]] + rest)
  {
    hide CrlfFrom;
  }

  lemma JoinedStep(lines: seq<string>)
    ensures Joined(lines) == if lines == [] then "" else lines[0] + "\r\n" + Joined(lines[1..])
  {
  }

  lemma LineInText(text: string, at: nat, line: string, tail: string)
    requires OneLine(line) && at <= |text| && text[at..] == line + "\r\n" + tail
    ensures var e := at + |line|;
            && at < |text| && e + 2 <= |text| && text[at..e] == line && text[e + 2..] == tail
            && CrlfFrom(text, at) == Some(e)
  {
    hide CrlfFrom;
    var e, t := at + |line|, text[at..];
    assert |t| == |line| + 2 + |tail|;
    assert t[..|line|] == line && t[|line| + 2..] == tail;
    assert text[at..e] == t[..|line|] && text[e + 2..] == t[|line| + 2..];
    assert text[e] == t[|line|] == '\r' && text[e + 1] == t[|line| + 1] == '\n';
    assert forall k :: at <= k < e ==> text[k] == line[k - at];
    CrlfIs(text, at, e);
  }

  lemma CrlfIs(s: string, i: nat, e: nat)
    requires i <= e && e + 1 < |s| && s[e] == '\r' && s[e + 1] == '\n'
    requires forall k :: i <= k < e ==> s[k] != '\r'
    ensures CrlfFrom(s, i) == Some(e)
  {
    assert IsCrlf(s, e);
    assert forall k :: i <= k < e ==> !IsCrlf(s, k);
  }

  /** No empty line inside the joined lines. */
  lemma {:induction false} JoinedHeaderEnd(pre: string, lines: seq<string>, rest: string)
    requires |pre| >= 2 && pre[|pre| - 2] == '\r' && pre[|pre| - 1] == '\n'
    requires forall line <- lines :: OneLine(line)
    ensures HeaderEndFrom(pre + (Joined(lines) + "\r\n") + rest, |pre| + 2) == Some(|pre| + |Joined(lines)| + 2)
    decreases |lines|
  {
    hide HeaderEndFrom;
    var s := pre + (Joined(lines) + "\r\n") + rest;
    if lines == [] {
      assert EndsHead(s, |pre| + 2);
    } else {
      var line, tail := lines[0], lines[1..];
      assert line in lines;
      var pre' := pre + line + "\r\n";
      assert s == pre' + (Joined(tail) + "\r\n") + rest;
      JoinedHeaderEnd(pre', tail, rest);
      assert forall k :: |pre| <= k < |pre| + |line| ==> s[k] == line[k - |pre|] && s[k] != '\r';
      NoEnd(s, |pre|, |pre| + |line|);
      SkipTo(s, |pre| + 2, |pre'| + 2);
    }
  }

  /** A line that is not empty is not the end of the head. */
  lemma NoEnd(s: string, i: nat, e: nat)
    requires i < e && e + 1 < |s| && s[e + 1] == '\n' && (i == 0 || s[i - 1] == '\n')
    requires forall k :: i <= k < e ==> s[k] != '\r'
    ensures forall h :: i + 2 <= h < e + 4 ==> !EndsHead(s, h)
  {
  }

  lemma {:induction false} SkipTo(s: string, i: nat, k: nat)
    requires i <= k <= |s| + 1 && forall h :: i <= h < k ==> !EndsHead(s, h)
    ensures HeaderEndFrom(s, i) == HeaderEndFrom(s, k)
    decreases k - i
  {
    if i < k { SkipTo(s, i + 1, k); }
  }

  /** Every head of proper lines is found and split into exactly those lines, whatever follows it. */
  lemma HeadWritten(line: string, headers: seq<string>, rest: string)
    requires OneLine(line) && forall header <- headers :: OneLine(header)
    ensures var s := Written(line, headers) + rest;
            && HeaderEnd(s) == Some(|Written(line, headers)|)
            && HeadOf(s) == match (ParseRequestLine(line), AddLines(NO_FIELDS, headers))
                            case (Some(l), Some(fields)) => Some(Head(|Written(line, headers)|, l, fields))
                            case _ => None
  {
    hide ParseRequestLine, AddLines, HeaderEnd, Written;
    var w := Written(line, headers);
    WrittenEnd(line, headers, rest);
    assert (w + rest)[..|w|] == w;
    WrittenParts(line, headers);
  }

  lemma WrittenEnd(line: string, headers: seq<string>, rest: string)
    requires OneLine(line) && forall header <- headers :: OneLine(header)
    ensures HeaderEnd(Written(line, headers) + rest) == Some(|Written(line, headers)|)
  {
    hide HeaderEndFrom, Joined;
    var pre := line + "\r\n";
    var s := pre + (Joined(headers) + "\r\n") + rest;
    assert s == Written(line, headers) + rest;
    JoinedHeaderEnd(pre, headers, rest);
    assert forall k :: 0 <= k < |line| ==> s[k] == line[k] && s[k] != '\r';
    NoEnd(s, 0, |line|);
    SkipTo(s, 4, |pre| + 2);
  }

  lemma WrittenParts(line: string, headers: seq<string>)
    requires OneLine(line) && forall header <- headers :: OneLine(header)
    ensures var w, e := Written(line, headers), |line|;
            && CrlfFrom(w, 0) == Some(e) && w[..e] == line && e + 4 <= |w|
            && LinesFrom(w[e + 2..|w| - 2], 0) == Some(headers)
  {
    hide CrlfFrom, LinesFrom, Joined;
    var w, e := Written(line, headers), |line|;
    assert forall k :: 0 <= k < e ==> w[k] == line[k] && w[k] != '\r';
    CrlfIs(w, 0, e);
    var text := w[e + 2..|w| - 2];
    assert text == Joined(headers) && text[0..] == text;
    JoinedLines(text, 0, headers);
  }

  /** A request of proper lines followed by at least the declared number of bytes is complete and parsed into
      exactly what was written; it is rejected exactly when its request line or its header lines are. */
  lemma RequestWritten(line: string, headers: seq<string>, rest: string)
    requires OneLine(line) && forall header <- headers :: OneLine(header)
    ensures var r := RequestOf(Written(line, headers) + rest);
            match (ParseRequestLine(line), AddLines(NO_FIELDS, headers))
            case (Some((m, path, version)), Some(fields)) =>
              var n := Declared(fields);
              r == if n <= |rest| then Some(Request(m, path, version, fields, rest[..n])) else None
            case _ => r == None
  {
    hide ParseRequestLine, AddLines, Written, HeadOf;
    var w := Written(line, headers);
    HeadWritten(line, headers, rest);
    var fields := AddLines(NO_FIELDS, headers);
    if fields.Some? && Declared(fields.value) <= |rest| {
      var n := Declared(fields.value);
      assert (w + rest)[|w|..|w| + n] == rest[..n];
    }
  }
}
