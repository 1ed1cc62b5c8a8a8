/** The CGI response a script builds through the host module, printed into a fixed buffer, and the
    service's parser of such responses. */
module CgiResponse {
  import opened Bytes

  const CR: Byte := 13
  const COLON: Byte := 58
  const CRLF: Bytes := [13, 10]
  const BLANK_LINE: Bytes := [13, 10, 13, 10]

  // Searching.

  predicate Matches(s: Bytes, pat: Bytes, i: nat) {
    i + |pat| <= |s| && s[i..i + |pat|] == pat
  }

  /** The first place at or after `from` where `pat` stands. */
  function IndexFrom(s: Bytes, pat: Bytes, from: nat): (r: Option<nat>)
    ensures r.Some? ==> Matches(s, pat, r.value)
    decreases |s| - from
  {
    if from + |pat| > |s| then None
    else if Matches(s, pat, from) then Some(from)
    else IndexFrom(s, pat, from + 1)
  }

  lemma {:induction false} IndexIs(s: Bytes, pat: Bytes, from: nat, i: nat)
    requires from <= i && Matches(s, pat, i) && forall k :: from <= k < i ==> !Matches(s, pat, k)
    ensures IndexFrom(s, pat, from) == Some(i)
    decreases i - from
  {
    if from < i { IndexIs(s, pat, from + 1, i); }
  }

  lemma {:induction false} IndexIsNone(s: Bytes, pat: Bytes, from: nat)
    requires forall k :: from <= k ==> !Matches(s, pat, k)
    ensures IndexFrom(s, pat, from) == None
    decreases |s| - from
  {
    if from + |pat| <= |s| { IndexIsNone(s, pat, from + 1); }
  }

  datatype Halves = Halves(before: Bytes, after: Bytes)

  /** `strings.Cut`. */
  function Cut(s: Bytes, pat: Bytes): (r: Option<Halves>)
    ensures r.Some? && pat != [] ==> |r.value.after| < |s|
  {
    var i := IndexFrom(s, pat, 0);
    if i.None? then None else Some(Halves(s[..i.value], s[i.value + |pat|..]))
  }

  /** `strings.Split` on line ends. */
  function Lines(s: Bytes): seq<Bytes>
    decreases |s|
  {
    var c := Cut(s, CRLF);
    if c.None? then [s] else [c.value.before] + Lines(c.value.after)
  }

  // Characters.

  predicate NameByte(c: Byte) {
    48 <= c <= 57 || 65 <= c <= 90 || 97 <= c <= 122 || c in Ascii("!#$%&'*+-.^_`|~")
  }

  predicate ValidHeaderName(name: Bytes) {
    name != [] && forall i :: 0 <= i < |name| ==> NameByte(name[i])
  }

  predicate ValidHeaderValue(value: Bytes) {
    forall i :: 0 <= i < |value| ==> (value[i] >= 32 || value[i] == 9) && value[i] != 127
  }

  function Lower(s: Bytes): (r: Bytes)
    ensures |r| == |s|
  {
    seq(|s|, i requires 0 <= i < |s| => if 65 <= s[i] <= 90 then s[i] + 32 else s[i])
  }

  function Upper(c: Byte): Byte {
    if 97 <= c <= 122 then c - 32 else c
  }

  /** The key under which a header is kept: capitals at the start and after each hyphen only. */
  function Canonical(name: Bytes): (r: Bytes)
    ensures |r| == |name|
  {
    var low := Lower(name);
    seq(|name|, i requires 0 <= i < |name| => if i == 0 || name[i - 1] == 45 then Upper(low[i]) else low[i])
  }

  /** Two spellings have one key exactly when they differ in case only; and a key is its own. */
  lemma CanonicalIff(a: Bytes, b: Bytes)
    ensures Canonical(a) == Canonical(b) <==> Lower(a) == Lower(b)
    ensures Canonical(Canonical(a)) == Canonical(a)
  {
    LowerCanonical(a);
    LowerCanonical(b);
    if Lower(a) == Lower(b) { SameKey(a, b); }
    SameKey(Canonical(a), a);
  }

  lemma LowerCanonical(name: Bytes)
    ensures Lower(Canonical(name)) == Lower(name)
  {
  }

  lemma SameKey(a: Bytes, b: Bytes)
    requires Lower(a) == Lower(b)
    ensures Canonical(a) == Canonical(b)
  {
    forall i | 0 <= i < |a| ensures Canonical(a)[i] == Canonical(b)[i] {
      assert Lower(a)[i] == Lower(b)[i];
      if i > 0 { assert Lower(a)[i - 1] == Lower(b)[i - 1]; }
    }
  }

  lemma CanonicalValid(name: Bytes)
    requires ValidHeaderName(name)
    ensures ValidHeaderName(Canonical(name))
  {
    hide Ascii;
  }

  predicate HostManaged(name: Bytes) {
    var n := Lower(name);
    || n == Ascii("connection") || n == Ascii("keep-alive") || n == Ascii("proxy-authenticate")
    || n == Ascii("proxy-authorization") || n == Ascii("te") || n == Ascii("trailer")
    || n == Ascii("transfer-encoding") || n == Ascii("upgrade")
  }

  predicate Space(c: Byte) {
    c == 32 || 9 <= c <= 13
  }

  /** The UTF-8 forms of the white space outside ASCII: U+0085, U+00A0, U+1680, U+2000 to U+200A,
      U+2028, U+2029, U+202F, U+205F and U+3000. */
  predicate WideSpace(t: Bytes) {
    || (|t| == 2 && t[0] == 0xC2 && (t[1] == 0x85 || t[1] == 0xA0))
    || (|t| == 3 && t[0] == 0xE1 && t[1] == 0x9A && t[2] == 0x80)
    || (|t| == 3 && t[0] == 0xE2 && t[1] == 0x80
        && (0x80 <= t[2] <= 0x8A || t[2] == 0xA8 || t[2] == 0xA9 || t[2] == 0xAF))
    || (|t| == 3 && t[0] == 0xE2 && t[1] == 0x81 && t[2] == 0x9F)
    || (|t| == 3 && t[0] == 0xE3 && t[1] == 0x80 && t[2] == 0x80)
  }

  lemma WideIsNotAscii(t: Bytes)
    requires t != [] && (t[0] < 128 || t[|t| - 1] < 128)
    ensures !WideSpace(t)
  {
  }

  /** The length of the white space character in front, if there is one. */
  function SpaceInFront(s: Bytes): (n: nat)
    ensures n <= |s|
  {
    if |s| >= 1 && Space(s[0]) then 1
    else if |s| >= 2 && WideSpace(s[..2]) then 2
    else if |s| >= 3 && WideSpace(s[..3]) then 3
    else 0
  }

  /** The same at the end. */
  function SpaceAtEnd(s: Bytes): (n: nat)
    ensures n <= |s|
  {
    if |s| >= 1 && Space(s[|s| - 1]) then 1
    else if |s| >= 2 && WideSpace(s[|s| - 2..]) then 2
    else if |s| >= 3 && WideSpace(s[|s| - 3..]) then 3
    else 0
  }

  function TrimLeft(s: Bytes): Bytes {
    var n := SpaceInFront(s);
    if n > 0 then TrimLeft(s[n..]) else s
  }

  function TrimRight(s: Bytes): Bytes {
    var n := SpaceAtEnd(s);
    if n > 0 then TrimRight(s[..|s| - n]) else s
  }

  function Trim(s: Bytes): Bytes {
    TrimRight(TrimLeft(s))
  }

  predicate Digits(s: Bytes) {
    forall i :: 0 <= i < |s| ==> 48 <= s[i] <= 57
  }

  function Value(s: Bytes): int {
    if s == [] then 0
    else
      var last: int := s[|s| - 1];
      Value(s[..|s| - 1]) * 10 + last - 48
  }

  /** `strconv.Atoi`: an optional sign and at least one digit. */
  function ParseInt(s: Bytes): Option<int> {
    var signed := s != [] && (s[0] == 43 || s[0] == 45);
    var digits := if signed then s[1..] else s;
    if digits == [] || !Digits(digits) then None
    else Some(if signed && s[0] == 45 then -Value(digits) else Value(digits))
  }

  // The parser.

  datatype Field = Field(name: Bytes, value: Bytes)

  datatype Parsed = Response(status: int, headers: seq<Field>, body: Bytes) | Rejected

  /** What one header line does: a new status, a header, nothing, or rejection. */
  datatype LineResult = SetStatus(status: int) | AddField(field: Field) | Skip | Bad

  function ParseLine(line: Bytes): LineResult {
    var c := Cut(line, [COLON]);
    if c.None? || !ValidHeaderName(c.value.before) || !ValidHeaderValue(c.value.after) then Bad
    else
      var name, value := c.value.before, c.value.after;
      if Lower(name) == Ascii("status") then
        var n := ParseInt(Trim(value));
        if n.None? || n.value < 100 || n.value > 599 then Bad else SetStatus(n.value)
      else if Lower(name) == Ascii("content-length") then Skip
      else if HostManaged(name) then Bad
      else AddField(Field(Canonical(name), Trim(value)))
  }

  function ParseLines(lines: seq<Bytes>, status: int, headers: seq<Field>, body: Bytes): Parsed
    decreases lines
  {
    if lines == [] then Response(status, headers, body)
    else match ParseLine(lines[0])
      case Bad => Rejected
      case Skip => ParseLines(lines[1..], status, headers, body)
      case SetStatus(n) => ParseLines(lines[1..], n, headers, body)
      case AddField(f) => ParseLines(lines[1..], status, headers + [f], body)
  }

  function Parse(response: Bytes): Parsed {
    var c := Cut(response, BLANK_LINE);
    if c.None? then Rejected else ParseLines(Lines(c.value.before), 200, [], c.value.after)
  }

  /** `parseScriptResponse`, with its header map built line by line. */
  method ParseScriptResponse(response: Bytes) returns (r: Parsed)
    ensures r == Parse(response)
  {
    hide ParseLine, Cut, Lines;
    var c := Cut(response, BLANK_LINE);
    if c.None? { return Rejected; }
    var lines := Lines(c.value.before);
    var status, headers: seq<Field> := 200, [];
    assert lines[0..] == lines;
    for i := 0 to |lines|
      invariant ParseLines(lines[i..], status, headers, c.value.after) == ParseLines(lines, 200, [], c.value.after)
    {
      assert lines[i..][0] == lines[i] && lines[i..][1..] == lines[i + 1..];
      match ParseLine(lines[i])
      case Bad => return Rejected;
      case Skip =>
      case SetStatus(n) => status := n;
      case AddField(f) => headers := headers + [f];
    }
    return Response(status, headers, c.value.after);
  }

  // What the parser lets through.

  ghost predicate SafeField(f: Field) {
    && ValidHeaderName(f.name) && Canonical(f.name) == f.name && ValidHeaderValue(f.value)
    && !HostManaged(f.name) && Lower(f.name) != Ascii("content-length") && Lower(f.name) != Ascii("status")
  }

  ghost predicate SafeFields(fs: seq<Field>) {
    forall i :: 0 <= i < |fs| ==> SafeField(fs[i])
  }

  lemma {:induction false} TrimLeftKeeps(s: Bytes)
    requires ValidHeaderValue(s)
    ensures ValidHeaderValue(TrimLeft(s))
  {
    var n := SpaceInFront(s);
    hide SpaceInFront;
    if n > 0 { TrimLeftKeeps(s[n..]); }
  }

  lemma {:induction false} TrimRightKeeps(s: Bytes)
    requires ValidHeaderValue(s)
    ensures ValidHeaderValue(TrimRight(s))
  {
    var n := SpaceAtEnd(s);
    hide SpaceAtEnd;
    if n > 0 { TrimRightKeeps(s[..|s| - n]); }
  }

  lemma LineIsSafe(line: Bytes)
    ensures ParseLine(line).AddField? ==> SafeField(ParseLine(line).field)
    ensures ParseLine(line).SetStatus? ==> 100 <= ParseLine(line).status <= 599
  {
    hide ValidHeaderName, ValidHeaderValue, Ascii, Canonical, Lower, Cut;
    var c := Cut(line, [COLON]);
    if c.Some? && ValidHeaderName(c.value.before) && ValidHeaderValue(c.value.after) {
      CanonicalIff(c.value.before, c.value.before);
      CanonicalValid(c.value.before);
      LowerCanonical(c.value.before);
      TrimLeftKeeps(c.value.after);
      TrimRightKeeps(TrimLeft(c.value.after));
    }
  }

  lemma {:induction false} LinesAreSafe(lines: seq<Bytes>, status: int, headers: seq<Field>, body: Bytes)
    requires 100 <= status <= 599 && SafeFields(headers)
    ensures var r := ParseLines(lines, status, headers, body);
            r.Response? ==> 100 <= r.status <= 599 && SafeFields(r.headers) && r.body == body
    decreases lines
  {
    hide ParseLine, SafeField;
    if lines != [] {
      LineIsSafe(lines[0]);
      match ParseLine(lines[0])
      case Bad =>
      case Skip => LinesAreSafe(lines[1..], status, headers, body);
      case SetStatus(n) => LinesAreSafe(lines[1..], n, headers, body);
      case AddField(f) => LinesAreSafe(lines[1..], status, headers + [f], body);
    }
  }

  /** Whatever a script returns, an accepted response has a status in 100..599 and only well-formed
      headers: no line breaks in values, keys in their canonical form, none the host manages itself, no
      Status or Content-Length. */
  lemma ParserIsSafe(response: Bytes)
    ensures var r := Parse(response); r.Response? ==> 100 <= r.status <= 599 && SafeFields(r.headers)
  {
    hide ParseLines, Cut, Lines, SafeFields;
    var c := Cut(response, BLANK_LINE);
    if c.Some? {
      assert SafeFields([]) by { NoFields(); }
      LinesAreSafe(Lines(c.value.before), 200, [], c.value.after);
    }
  }

  lemma NoFields()
    ensures SafeFields([])
  {
  }

  // The printer.

  /** Visible ASCII and spaces only: the C code compares signed chars. */
  predicate SafeContentType(t: Bytes) {
    0 < |t| <= 256 && forall i :: 0 <= i < |t| ==> 32 <= t[i] <= 126
  }

  function PrintInt(n: int): Bytes {
    if n < 0 then [45] + Decimal(-n) else Decimal(n)
  }

  function StatusLine(status: int): Bytes {
    Ascii("Status: ") + PrintInt(status)
  }

  function TypeLine(contentType: Bytes): Bytes {
    Ascii("Content-Type: ") + contentType
  }

  function Text(status: int, contentType: Bytes, body: Bytes): Bytes {
    StatusLine(status) + CRLF + TypeLine(contentType) + BLANK_LINE + body
  }

  /** `gengo_http_response`: the response text in the context's buffer, or an error code. */
  method GengoHttpResponse(context: array<Byte>, status: int, contentType: Bytes, body: Bytes)
    returns (rc: int, len: nat)
    requires context.Length == 131072
    modifies context
    ensures rc == 3 <==> !SafeContentType(contentType)
    ensures rc == 4 <==> SafeContentType(contentType) && |Text(status, contentType, body)| > 131072
    ensures rc == 0 <==> SafeContentType(contentType) && |Text(status, contentType, body)| <= 131072
    ensures rc == 0 ==> len == |Text(status, contentType, body)| && context[..len] == Text(status, contentType, body)
  {
    hide Ascii, PrintInt;
    if !SafeContentType(contentType) { return 3, 0; }
    var header := StatusLine(status) + CRLF + TypeLine(contentType) + BLANK_LINE;
    if |header| + |body| > context.Length { return 4, 0; }
    forall i | 0 <= i < |header| { context[i] := header[i]; }
    forall i | 0 <= i < |body| { context[|header| + i] := body[i]; }
    len := |header| + |body|;
    assert context[..len] == header + body;
    rc := 0;
  }

  // Round trip.

  ghost predicate NoCR(s: Bytes) {
    forall i :: 0 <= i < |s| ==> s[i] != CR
  }

  /** The blank line ends the header block at the first place it can, whatever the body holds. */
  lemma CutsAtBlankLine(a: Bytes, b: Bytes, body: Bytes)
    requires NoCR(a) && NoCR(b) && b != []
    ensures Cut(a + CRLF + b + BLANK_LINE + body, BLANK_LINE) == Some(Halves(a + CRLF + b, body))
  {
    var head := a + CRLF + b;
    var s := head + BLANK_LINE + body;
    var n := |head|;
    assert s[n..n + 4] == BLANK_LINE;
    forall k | 0 <= k < n ensures !Matches(s, BLANK_LINE, k) {
      assert s[k] == head[k];
      if k + 4 <= |s| {
        assert s[k..k + 4][0] == s[k] && s[k..k + 4][2] == s[k + 2];
        if k == |a| { assert s[k + 2] == b[0]; }
      }
    }
    IndexIs(s, BLANK_LINE, 0, n);
    assert s[..n] == head && s[n + 4..] == body;
  }

  lemma TwoLines(a: Bytes, b: Bytes)
    requires NoCR(a) && NoCR(b)
    ensures Lines(a + CRLF + b) == [a, b]
  {
    var s := a + CRLF + b;
    assert s[|a|..|a| + 2] == CRLF;
    forall k | 0 <= k < |a| ensures !Matches(s, CRLF, k) {
      assert s[k] == a[k] && s[k..k + 2][0] == s[k];
    }
    IndexIs(s, CRLF, 0, |a|);
    assert s[..|a|] == a && s[|a| + 2..] == b;
    forall k: nat ensures !Matches(b, CRLF, k) {
      if k + 2 <= |b| { assert b[k..k + 2][0] == b[k]; }
    }
    IndexIsNone(b, CRLF, 0);
    assert Lines(b) == [b];
  }

  lemma CutsAtColon(name: Bytes, value: Bytes)
    requires COLON !in name
    ensures Cut(name + [COLON] + value, [COLON]) == Some(Halves(name, value))
  {
    var s := name + [COLON] + value;
    assert s[|name|..|name| + 1] == [COLON];
    forall k | 0 <= k < |name| ensures !Matches(s, [COLON], k) {
      assert s[k..k + 1][0] == name[k];
    }
    IndexIs(s, [COLON], 0, |name|);
    assert s[..|name|] == name && s[|name| + 1..] == value;
  }

  lemma {:induction false} DecimalDigits(n: nat)
    ensures Decimal(n) != [] && Digits(Decimal(n)) && Value(Decimal(n)) == n
  {
    if n >= 10 {
      DecimalDigits(n / 10);
      var d := Decimal(n);
      assert d[..|d| - 1] == Decimal(n / 10);
    } else {
      assert Decimal(n)[..0] == [];
      assert Value([]) == 0;
    }
  }

  lemma PrintedReads(n: int)
    ensures PrintInt(n) != [] && ParseInt(PrintInt(n)) == Some(n)
    ensures forall i :: 0 <= i < |PrintInt(n)| ==> 45 <= PrintInt(n)[i] <= 57
  {
    hide Decimal, Value;
    if n < 0 {
      DecimalDigits(-n);
      assert PrintInt(n)[1..] == Decimal(-n);
    } else {
      DecimalDigits(n);
    }
  }

  lemma SpaceBefore(s: Bytes)
    ensures Trim([32] + s) == Trim(s)
  {
    assert ([32] + s)[1..] == s;
  }

  lemma NothingToTrim(s: Bytes)
    requires s != [] && 32 < s[0] < 128 && 32 < s[|s| - 1] < 128
    ensures Trim(s) == s
  {
    NoSpace(s);
    hide SpaceInFront, SpaceAtEnd;
  }

  lemma NoSpace(s: Bytes)
    requires s != [] && 32 < s[0] < 128 && 32 < s[|s| - 1] < 128
    ensures SpaceInFront(s) == 0 && SpaceAtEnd(s) == 0
  {
    hide WideSpace;
    if |s| >= 2 {
      WideIsNotAscii(s[..2]);
      WideIsNotAscii(s[|s| - 2..]);
    }
    if |s| >= 3 {
      WideIsNotAscii(s[..3]);
      WideIsNotAscii(s[|s| - 3..]);
    }
  }

  /** A name, a colon, a space and a value. */
  lemma FieldLine(name: Bytes, value: Bytes)
    requires COLON !in name && ValidHeaderName(name) && ValidHeaderValue(value)
    ensures ParseLine(name + [COLON] + ([32] + value)) ==
            if Lower(name) == Ascii("status") then
              var n := ParseInt(Trim(value));
              if n.None? || n.value < 100 || n.value > 599 then Bad else SetStatus(n.value)
            else if Lower(name) == Ascii("content-length") then Skip
            else if HostManaged(name) then Bad
            else AddField(Field(Canonical(name), Trim(value)))
  {
    hide Cut, Trim, ParseInt, Lower, Ascii, HostManaged, ValidHeaderName, Canonical;
    CutsAtColon(name, [32] + value);
    SpaceBefore(value);
    assert ValidHeaderValue([32] + value);
  }

  lemma Literals()
    ensures Ascii("Status: ") == [83, 116, 97, 116, 117, 115] + [COLON] + [32]
    ensures Ascii("Content-Type: ") == [67, 111, 110, 116, 101, 110, 116, 45, 84, 121, 112, 101] + [COLON] + [32]
    ensures Ascii("Content-Type") == [67, 111, 110, 116, 101, 110, 116, 45, 84, 121, 112, 101]
  {
  }

  lemma StatusName(name: Bytes)
    requires name == [83, 116, 97, 116, 117, 115]
    ensures ValidHeaderName(name) && COLON !in name && Lower(name) == Ascii("status")
  {
  }

  lemma PrintedIsClean(status: int)
    ensures var digits := PrintInt(status); ValidHeaderValue(digits) && Trim(digits) == digits && NoCR(digits)
  {
    hide PrintInt, Trim;
    PrintedReads(status);
    NothingToTrim(PrintInt(status));
  }

  lemma StatusLineParses(status: int)
    ensures NoCR(StatusLine(status))
    ensures ParseLine(StatusLine(status)) == if 100 <= status <= 599 then SetStatus(status) else Bad
  {
    hide Ascii, PrintInt, ParseLine, ValidHeaderName, ValidHeaderValue, Trim, Lower;
    var name: Bytes := [83, 116, 97, 116, 117, 115];
    var digits := PrintInt(status);
    Literals();
    StatusName(name);
    PrintedReads(status);
    PrintedIsClean(status);
    assert StatusLine(status) == name + [COLON] + ([32] + digits);
    FieldLine(name, digits);
  }

  lemma TypeLineParses(contentType: Bytes)
    requires SafeContentType(contentType)
    ensures NoCR(TypeLine(contentType))
    ensures ParseLine(TypeLine(contentType)) == AddField(Field(Ascii("Content-Type"), Trim(contentType)))
  {
    hide Ascii, ParseLine, ValidHeaderName, Trim, Lower, HostManaged, Canonical;
    var name: Bytes := [67, 111, 110, 116, 101, 110, 116, 45, 84, 121, 112, 101];
    Literals();
    TypeNameIsFree(name);
    assert TypeLine(contentType) == name + [COLON] + ([32] + contentType);
    FieldLine(name, contentType);
  }

  lemma TypeNameIsFree(name: Bytes)
    requires name == [67, 111, 110, 116, 101, 110, 116, 45, 84, 121, 112, 101]
    ensures ValidHeaderName(name) && !HostManaged(name) && COLON !in name
    ensures Lower(name) != Ascii("status") && Lower(name) != Ascii("content-length") && Canonical(name) == name
  {
    assert Ascii("!#$%&'*+-.^_`|~")[8] == 45;
    assert |Lower(name)| == 12 && Lower(name)[0] == 99;
  }

  /** What the host module prints, the service parses back: the same status, the trimmed content type
      as the only header, and the body untouched, blank lines in it included - exactly when the status
      is one the parser accepts. */
  lemma ParseInvertsPrint(status: int, contentType: Bytes, body: Bytes)
    requires SafeContentType(contentType)
    ensures Parse(Text(status, contentType, body)) ==
            if 100 <= status <= 599 then Response(status, [Field(Ascii("Content-Type"), Trim(contentType))], body)
            else Rejected
  {
    hide ParseLine, Cut, Lines, Ascii, Trim, StatusLine;
    var a, b := StatusLine(status), TypeLine(contentType);
    StatusLineParses(status);
    TypeLineParses(contentType);
    assert b != [] by { assert |b| >= |contentType|; }
    CutsAtBlankLine(a, b, body);
    TwoLines(a, b);
    var lines: seq<Bytes> := [a, b];
    assert lines[1..] == [b] && lines[1..][1..] == [];
    if 100 <= status <= 599 {
      var f := Field(Ascii("Content-Type"), Trim(contentType));
      assert ParseLines([], status, [] + [f], body) == Response(status, [f], body);
      assert ParseLines([b], status, [], body) == ParseLines([], status, [] + [f], body);
    }
  }

  /** What is printed has exactly these two lines, in this order, and then the body. */
  lemma PrintedLines(status: int, contentType: Bytes, body: Bytes)
    requires SafeContentType(contentType)
    ensures var a, b := Ascii("Status: ") + PrintInt(status), Ascii("Content-Type: ") + contentType;
            && Cut(Text(status, contentType, body), [13, 10, 13, 10]) == Some(Halves(a + [13, 10] + b, body))
            && Lines(a + [13, 10] + b) == [a, b]
  {
    hide ParseLine, Cut, Lines, Ascii;
    StatusLineParses(status);
    TypeLineParses(contentType);
    CutsAtBlankLine(StatusLine(status), TypeLine(contentType), body);
    TwoLines(StatusLine(status), TypeLine(contentType));
  }

  // Any number of headers.

  /** The lines of a header block. */
  function JoinLines(lines: seq<Bytes>): Bytes {
    if lines == [] then []
    else if |lines| == 1 then lines[0]
    else lines[0] + CRLF + JoinLines(lines[1..])
  }

  ghost predicate PlainLines(lines: seq<Bytes>) {
    lines != [] && forall i :: 0 <= i < |lines| ==> lines[i] != [] && NoCR(lines[i])
  }

  lemma PlainRest(lines: seq<Bytes>)
    requires PlainLines(lines) && |lines| > 1
    ensures PlainLines(lines[1..])
    ensures JoinLines(lines[1..]) != [] && JoinLines(lines[1..])[0] == lines[1][0] != CR
  {
    var rest := lines[1..];
    assert forall i :: 0 <= i < |rest| ==> rest[i] == lines[i + 1];
    assert rest[0] == lines[1] && lines[1] != [] && NoCR(lines[1]);
  }

  lemma OneLine(a: Bytes, rest: Bytes)
    requires NoCR(a)
    ensures Cut(a, CRLF) == None
    ensures Cut(a + CRLF + rest, CRLF) == Some(Halves(a, rest))
  {
    var s := a + CRLF + rest;
    assert s[|a|..|a| + 2] == CRLF;
    forall k | 0 <= k < |a| ensures !Matches(s, CRLF, k) {
      assert s[k] == a[k] && s[k..k + 2][0] == s[k];
    }
    IndexIs(s, CRLF, 0, |a|);
    assert s[..|a|] == a && s[|a| + 2..] == rest;
    forall k: nat ensures !Matches(a, CRLF, k) {
      if k + 2 <= |a| { assert a[k..k + 2][0] == a[k]; }
    }
    IndexIsNone(a, CRLF, 0);
  }

  lemma {:induction false} LinesOfJoin(lines: seq<Bytes>)
    requires PlainLines(lines)
    ensures Lines(JoinLines(lines)) == lines
  {
    hide Cut;
    if |lines| == 1 {
      OneLine(lines[0], []);
    } else {
      PlainRest(lines);
      LinesOfJoin(lines[1..]);
      OneLine(lines[0], JoinLines(lines[1..]));
      assert lines == [lines[0]] + lines[1..];
    }
  }

  /** The first line of a block, and the block behind it with whatever follows. */
  lemma JoinStep(lines: seq<Bytes>, tail: Bytes)
    requires |lines| > 1
    ensures JoinLines(lines) + tail == lines[0] + CRLF + (JoinLines(lines[1..]) + tail)
  {
    var a, b := lines[0] + CRLF, JoinLines(lines[1..]);
    assert a + b + tail == a + (b + tail);
  }

  /** The blank line after a block is the first one. */
  lemma {:induction false} NoBlankBefore(lines: seq<Bytes>, tail: Bytes, k: nat)
    requires PlainLines(lines) && k < |JoinLines(lines)|
    ensures !Matches(JoinLines(lines) + tail, BLANK_LINE, k)
    decreases lines
  {
    var s, a := JoinLines(lines) + tail, lines[0];
    assert NoCR(a);
    if |lines| == 1 || k < |a| {
      assert s[k] == a[k];
      NoMatch(s, k, 0);
    } else {
      PlainRest(lines);
      JoinStep(lines, tail);
      var rest := JoinLines(lines[1..]) + tail;
      if k == |a| {
        assert s[k + 2] == rest[0];
        NoMatch(s, k, 2);
      } else if k == |a| + 1 {
        assert s[k] == 10;
        NoMatch(s, k, 0);
      } else {
        var j := k - |a| - 2;
        NoBlankBefore(lines[1..], tail, j);
        Shifted(a + CRLF, rest, j);
      }
    }
  }

  lemma NoMatch(s: Bytes, k: nat, i: nat)
    requires k + i < |s| && s[k + i] != CR && (i == 0 || i == 2)
    ensures !Matches(s, BLANK_LINE, k)
  {
    if k + 4 <= |s| { assert s[k..k + 4][i] == s[k + i]; }
  }

  lemma Shifted(a: Bytes, b: Bytes, k: nat)
    ensures Matches(a + b, BLANK_LINE, |a| + k) <==> Matches(b, BLANK_LINE, k)
  {
    if k + 4 <= |b| { assert (a + b)[|a| + k..|a| + k + 4] == b[k..k + 4]; }
  }

  lemma CutOfJoin(lines: seq<Bytes>, body: Bytes)
    requires PlainLines(lines)
    ensures Cut(JoinLines(lines) + BLANK_LINE + body, BLANK_LINE) == Some(Halves(JoinLines(lines), body))
  {
    hide JoinLines;
    var head := JoinLines(lines);
    var s := head + BLANK_LINE + body;
    assert s == head + (BLANK_LINE + body);
    assert s[|head|..|head| + 4] == BLANK_LINE;
    forall k | 0 <= k < |head| ensures !Matches(s, BLANK_LINE, k) {
      NoBlankBefore(lines, BLANK_LINE + body, k);
    }
    IndexIs(s, BLANK_LINE, 0, |head|);
    assert s[..|head|] == head && s[|head| + 4..] == body;
  }

  // What a line says.

  /** A line is a valid name, a colon and a valid value. */
  ghost predicate Spells(line: Bytes, f: Field) {
    line == f.name + [58] + f.value && ValidHeaderName(f.name) && ValidHeaderValue(f.value)
  }

  ghost predicate IsStatus(f: Field) {
    Lower(f.name) == Ascii("status")
  }

  ghost predicate GoodStatus(f: Field) {
    var n := ParseInt(Trim(f.value));
    n.Some? && 100 <= n.value <= 599
  }

  /** A field that becomes a header. */
  ghost predicate Ordinary(f: Field) {
    !IsStatus(f) && Lower(f.name) != Ascii("content-length")
  }

  /** A field that makes the parser reject the response. */
  ghost predicate BadField(f: Field) {
    if IsStatus(f) then !GoodStatus(f) else Ordinary(f) && HostManaged(f.name)
  }

  function AsHeader(f: Field): Field {
    Field(Canonical(f.name), Trim(f.value))
  }

  lemma SpelledLine(line: Bytes, f: Field)
    requires Spells(line, f)
    ensures ParseLine(line) ==
            if BadField(f) then Bad
            else if IsStatus(f) then SetStatus(ParseInt(Trim(f.value)).value)
            else if Ordinary(f) then AddField(AsHeader(f))
            else Skip
  {
    assert COLON !in f.name by { NoColon(f.name); }
    hide Cut, Trim, ParseInt, Lower, Ascii, HostManaged, ValidHeaderName, ValidHeaderValue, Canonical;
    CutsAtColon(f.name, f.value);
  }

  lemma NoColon(name: Bytes)
    requires ValidHeaderName(name)
    ensures COLON !in name
  {
    assert COLON !in Ascii("!#$%&'*+-.^_`|~");
  }

  /** A line that is not spelled like that is bad. */
  lemma UnspelledLine(line: Bytes)
    requires forall f :: !Spells(line, f)
    ensures ParseLine(line) == Bad
  {
    hide ValidHeaderName, ValidHeaderValue, Ascii, Lower, HostManaged, Trim, ParseInt, Canonical;
    var c := Cut(line, [COLON]);
    if c.Some? {
      var i := IndexFrom(line, [COLON], 0).value;
      var f := Field(c.value.before, c.value.after);
      assert line == line[..i] + line[i..i + 1] + line[i + 1..];
      assert !Spells(line, f);
    }
  }

  ghost predicate BadLine(line: Bytes) {
    (forall f :: !Spells(line, f)) || exists f :: Spells(line, f) && BadField(f)
  }

  lemma BadLineIff(line: Bytes)
    ensures ParseLine(line) == Bad <==> BadLine(line)
  {
    hide ParseLine, Spells, BadField, IsStatus, Ordinary;
    if forall f :: !Spells(line, f) {
      UnspelledLine(line);
    } else {
      var f :| Spells(line, f);
      SpelledLine(line, f);
      if g :| Spells(line, g) && BadField(g) { SpelledLine(line, g); }
    }
  }

  lemma {:induction false} LinesRejectIff(lines: seq<Bytes>, status: int, headers: seq<Field>, body: Bytes)
    ensures ParseLines(lines, status, headers, body) == Rejected <==> exists i :: 0 <= i < |lines| && BadLine(lines[i])
    decreases lines
  {
    hide ParseLine, BadLine;
    if lines != [] {
      var rest := lines[1..];
      assert forall i :: 0 <= i < |rest| ==> rest[i] == lines[i + 1];
      assert forall i :: 0 < i < |lines| ==> lines[i] == rest[i - 1];
      BadLineIff(lines[0]);
      match ParseLine(lines[0])
      case Bad =>
      case Skip => LinesRejectIff(rest, status, headers, body);
      case SetStatus(n) => LinesRejectIff(rest, n, headers, body);
      case AddField(f) => LinesRejectIff(rest, status, headers + [f], body);
    }
  }

  /** Whatever the lines and the body: a response is rejected if and only if some line is malformed,
      names a header the host manages, or is a bad Status. */
  lemma RejectsIff(lines: seq<Bytes>, body: Bytes)
    requires PlainLines(lines)
    ensures Parse(JoinLines(lines) + [13, 10, 13, 10] + body) == Rejected <==>
            exists i :: 0 <= i < |lines| && BadLine(lines[i])
  {
    hide Cut, Lines, ParseLines, JoinLines, BadLine;
    CutOfJoin(lines, body);
    LinesOfJoin(lines);
    LinesRejectIff(lines, 200, [], body);
  }

  /** Without a blank line there is nothing to parse. */
  lemma NeedsBlankLine(response: Bytes)
    requires forall k: nat :: !Matches(response, [13, 10, 13, 10], k)
    ensures Parse(response) == Rejected
  {
    IndexIsNone(response, BLANK_LINE, 0);
  }

  // What an accepted response consists of.

  function LinesOf(fs: seq<Field>): seq<Bytes> {
    seq(|fs|, i requires 0 <= i < |fs| => fs[i].name + [58] + fs[i].value)
  }

  /** How many of the fields become headers. */
  ghost function Count(fs: seq<Field>): nat {
    if fs == [] then 0 else (if Ordinary(fs[0]) then 1 else 0) + Count(fs[1..])
  }

  /** The status of a list of fields: the last Status, or the one it starts with. */
  ghost predicate StatusIs(fs: seq<Field>, first: int, status: int) {
    && ((forall i :: 0 <= i < |fs| ==> !IsStatus(fs[i])) ==> status == first)
    && (forall i :: && 0 <= i < |fs| && IsStatus(fs[i]) && (forall j :: i < j < |fs| ==> !IsStatus(fs[j]))
                    ==> ParseInt(Trim(fs[i].value)) == Some(status))
  }

  /** The headers are exactly the ordinary fields, each in its place. */
  ghost predicate HeadersAre(fs: seq<Field>, headers: seq<Field>) {
    && |headers| == Count(fs)
    && forall i :: 0 <= i < |fs| && Ordinary(fs[i]) ==>
                     Count(fs[..i]) < |headers| && headers[Count(fs[..i])] == AsHeader(fs[i])
  }

  ghost predicate Spelled(fs: seq<Field>) {
    forall i :: 0 <= i < |fs| ==> ValidHeaderName(fs[i].name) && ValidHeaderValue(fs[i].value) && !BadField(fs[i])
  }

  lemma CountCons(fs: seq<Field>, i: nat)
    requires 0 < i <= |fs|
    ensures Count(fs[..i]) == (if Ordinary(fs[0]) then 1 else 0) + Count(fs[1..][..i - 1])
  {
    hide Ordinary;
    assert fs[..i][1..] == fs[1..][..i - 1];
  }

  lemma HeadersCons(fs: seq<Field>, rest: seq<Field>)
    requires fs != [] && HeadersAre(fs[1..], rest)
    ensures HeadersAre(fs, if Ordinary(fs[0]) then [AsHeader(fs[0])] + rest else rest)
  {
    hide Ordinary, AsHeader;
    var tail := fs[1..];
    var all := if Ordinary(fs[0]) then [AsHeader(fs[0])] + rest else rest;
    assert fs[..0] == [] && Count([]) == 0;
    forall i | 0 <= i < |fs| && Ordinary(fs[i])
      ensures Count(fs[..i]) < |all| && all[Count(fs[..i])] == AsHeader(fs[i])
    {
      if i > 0 {
        CountCons(fs, i);
        assert tail[i - 1] == fs[i];
        assert Count(tail[..i - 1]) < |rest| && rest[Count(tail[..i - 1])] == AsHeader(fs[i]);
      }
    }
  }

  lemma StatusCons(fs: seq<Field>, first: int, status: int)
    requires fs != [] && !BadField(fs[0])
    requires StatusIs(fs[1..], if IsStatus(fs[0]) then ParseInt(Trim(fs[0].value)).value else first, status)
    ensures StatusIs(fs, first, status)
  {
    hide IsStatus, ParseInt, Trim;
    var tail := fs[1..];
    assert forall i :: 0 <= i < |tail| ==> tail[i] == fs[i + 1];
    forall i | && 0 <= i < |fs| && IsStatus(fs[i]) && (forall j :: i < j < |fs| ==> !IsStatus(fs[j]))
      ensures ParseInt(Trim(fs[i].value)) == Some(status)
    {
      if i > 0 {
        assert tail[i - 1] == fs[i];
        assert forall j :: i - 1 < j < |tail| ==> tail[j] == fs[j + 1];
      } else {
        assert GoodStatus(fs[0]);
      }
    }
  }

  lemma {:induction false} FieldsParse(fs: seq<Field>, status: int, headers: seq<Field>, body: Bytes)
      returns (last: int, more: seq<Field>)
    requires Spelled(fs)
    ensures ParseLines(LinesOf(fs), status, headers, body) == Response(last, headers + more, body)
    ensures StatusIs(fs, status, last) && HeadersAre(fs, more)
    decreases fs
  {
    hide ParseLine, BadField, IsStatus, Ordinary, AsHeader, ValidHeaderName, ValidHeaderValue, ParseInt, Trim, StatusIs,
         HeadersAre;
    if fs == [] {
      last, more := status, [];
      NoFieldsParse(status);
      assert headers + [] == headers;
    } else {
      var f, tail := fs[0], fs[1..];
      var line := f.name + [58] + f.value;
      assert forall i :: 0 <= i < |tail| ==> tail[i] == fs[i + 1];
      assert LinesOf(fs)[0] == line && LinesOf(fs)[1..] == LinesOf(tail);
      SpelledLine(line, f);
      StatusOrOrdinary(f);
      var s := if IsStatus(f) then ParseInt(Trim(f.value)).value else status;
      var hs := if Ordinary(f) then headers + [AsHeader(f)] else headers;
      var rest;
      last, rest := FieldsParse(tail, s, hs, body);
      more := if Ordinary(f) then [AsHeader(f)] + rest else rest;
      assert hs + rest == headers + more;
      StatusCons(fs, status, last);
      HeadersCons(fs, rest);
    }
  }

  lemma NoFieldsParse(status: int)
    ensures StatusIs([], status, status) && HeadersAre([], [])
  {
  }

  lemma StatusOrOrdinary(f: Field)
    ensures !(IsStatus(f) && Ordinary(f))
    ensures IsStatus(f) && !BadField(f) ==> ParseInt(Trim(f.value)).Some?
  {
  }

  /** Any header block of valid fields, none of them bad, and any body: the response has the status of
      the last Status line, or 200; exactly the other fields but Content-Length as headers, trimmed,
      under their keys, in order; and that body. */
  lemma FieldsComeThrough(fs: seq<Field>, body: Bytes)
    requires fs != [] && Spelled(fs)
    ensures var r := Parse(JoinLines(LinesOf(fs)) + [13, 10, 13, 10] + body);
            r.Response? && StatusIs(fs, 200, r.status) && HeadersAre(fs, r.headers) && r.body == body
  {
    hide Cut, Lines, ParseLines, JoinLines, StatusIs, HeadersAre;
    var lines := LinesOf(fs);
    LinesArePlain(fs);
    CutOfJoin(lines, body);
    LinesOfJoin(lines);
    var last, more := FieldsParse(fs, 200, [], body);
    assert [] + more == more;
  }

  lemma LinesArePlain(fs: seq<Field>)
    requires fs != [] && Spelled(fs)
    ensures PlainLines(LinesOf(fs))
  {
    hide BadField;
    forall i | 0 <= i < |fs| ensures LinesOf(fs)[i] != [] && NoCR(LinesOf(fs)[i]) {
      NameHasNoCR(fs[i].name);
    }
  }

  lemma NameHasNoCR(name: Bytes)
    requires ValidHeaderName(name)
    ensures NoCR(name)
  {
    assert CR !in Ascii("!#$%&'*+-.^_`|~");
  }

  // Trimming.

  ghost predicate SpaceChar(p: Bytes) {
    (|p| == 1 && Space(p[0])) || WideSpace(p)
  }

  ghost predicate Blank(s: Bytes) {
    exists pieces: seq<Bytes> :: Flatten(pieces) == s && forall i :: 0 <= i < |pieces| ==> SpaceChar(pieces[i])
  }

  lemma BlankCons(p: Bytes, s: Bytes)
    requires SpaceChar(p) && Blank(s)
    ensures Blank(p + s)
  {
    hide SpaceChar;
    var pieces: seq<Bytes> :| Flatten(pieces) == s && forall i :: 0 <= i < |pieces| ==> SpaceChar(pieces[i]);
    var more := [p] + pieces;
    assert more[0] == p && more[1..] == pieces;
    assert Flatten(more) == p + s;
  }

  lemma {:induction false} FlattenSnoc(pieces: seq<Bytes>, p: Bytes)
    ensures Flatten(pieces + [p]) == Flatten(pieces) + p
  {
    if pieces == [] {
      assert [] + [p] == [p] && [p][1..] == [];
      assert Flatten<Byte>([]) == [];
    } else {
      assert (pieces + [p])[1..] == pieces[1..] + [p];
      FlattenSnoc(pieces[1..], p);
    }
  }

  lemma BlankSnoc(s: Bytes, p: Bytes)
    requires SpaceChar(p) && Blank(s)
    ensures Blank(s + p)
  {
    hide SpaceChar, Flatten;
    var pieces: seq<Bytes> :| Flatten(pieces) == s && forall i :: 0 <= i < |pieces| ==> SpaceChar(pieces[i]);
    FlattenSnoc(pieces, p);
    var more := pieces + [p];
    assert forall i :: 0 <= i < |more| ==> SpaceChar(more[i]);
  }

  lemma NothingIsBlank()
    ensures Blank([])
  {
    var none: seq<Bytes> := [];
    assert Flatten(none) == [];
  }

  lemma FrontIs(s: Bytes)
    ensures var n := SpaceInFront(s);
            && (n > 0 ==> SpaceChar(s[..n]))
            && (n == 0 ==> forall p :: SpaceChar(p) && |p| <= |s| ==> s[..|p|] != p)
  {
    hide WideSpace;
    if SpaceInFront(s) == 0 {
      forall p | SpaceChar(p) && |p| <= |s| ensures s[..|p|] != p {
        SpaceLength(p);
        assert |p| == 1 ==> s[..1][0] == s[0];
      }
    } else if SpaceInFront(s) == 1 {
      assert s[..1][0] == s[0];
    }
  }

  lemma SpaceLength(p: Bytes)
    requires SpaceChar(p)
    ensures |p| == 1 ==> Space(p[0])
    ensures |p| == 1 || ((|p| == 2 || |p| == 3) && WideSpace(p))
  {
  }

  lemma EndIs(s: Bytes)
    ensures var n := SpaceAtEnd(s);
            && (n > 0 ==> SpaceChar(s[|s| - n..]))
            && (n == 0 ==> forall p :: SpaceChar(p) && |p| <= |s| ==> s[|s| - |p|..] != p)
  {
    hide WideSpace;
    if SpaceAtEnd(s) == 0 {
      forall p | SpaceChar(p) && |p| <= |s| ensures s[|s| - |p|..] != p {
        SpaceLength(p);
        assert |p| == 1 ==> s[|s| - 1..][0] == s[|s| - 1];
      }
    } else if SpaceAtEnd(s) == 1 {
      assert s[|s| - 1..][0] == s[|s| - 1];
    }
  }

  lemma {:induction false} TrimLeftIs(s: Bytes) returns (a: Bytes)
    ensures s == a + TrimLeft(s) && Blank(a)
    ensures forall p :: SpaceChar(p) && |p| <= |TrimLeft(s)| ==> TrimLeft(s)[..|p|] != p
  {
    hide SpaceInFront, SpaceChar, Blank;
    var n := SpaceInFront(s);
    FrontIs(s);
    if n == 0 {
      a := [];
      NothingIsBlank();
    } else {
      var rest := TrimLeftIs(s[n..]);
      BlankCons(s[..n], rest);
      a := s[..n] + rest;
    }
  }

  lemma {:induction false} TrimRightIs(s: Bytes) returns (b: Bytes)
    ensures s == TrimRight(s) + b && Blank(b)
    ensures forall p :: SpaceChar(p) && |p| <= |TrimRight(s)| ==> TrimRight(s)[|TrimRight(s)| - |p|..] != p
  {
    hide SpaceAtEnd, SpaceChar, Blank;
    var n := SpaceAtEnd(s);
    EndIs(s);
    if n == 0 {
      b := [];
      NothingIsBlank();
    } else {
      var m := |s| - n;
      var rest := TrimRightIs(s[..m]);
      BlankSnoc(rest, s[m..]);
      b := rest + s[m..];
    }
  }

  /** Trimming takes white space off both ends, all of it and nothing else. */
  lemma TrimIs(s: Bytes) returns (a: Bytes, b: Bytes)
    ensures s == a + Trim(s) + b && Blank(a) && Blank(b)
    ensures forall p :: SpaceChar(p) && |p| <= |Trim(s)| ==> Trim(s)[..|p|] != p
    ensures forall p :: SpaceChar(p) && |p| <= |Trim(s)| ==> Trim(s)[|Trim(s)| - |p|..] != p
  {
    hide TrimLeft, TrimRight, SpaceChar, Blank;
    a := TrimLeftIs(s);
    b := TrimRightIs(TrimLeft(s));
    forall p | SpaceChar(p) && |p| <= |Trim(s)| ensures Trim(s)[..|p|] != p {
      assert Trim(s)[..|p|] == TrimLeft(s)[..|p|];
    }
  }

  /** The names the host keeps for itself, in their usual spelling. */
  lemma ManagedNames()
    ensures HostManaged(Ascii("Connection")) && HostManaged(Ascii("Keep-Alive"))
    ensures HostManaged(Ascii("Proxy-Authenticate")) && HostManaged(Ascii("Proxy-Authorization"))
    ensures HostManaged(Ascii("TE")) && HostManaged(Ascii("Trailer"))
    ensures HostManaged(Ascii("Transfer-Encoding")) && HostManaged(Ascii("Upgrade"))
  {
    hide Ascii, Lower;
    assert Lower(Ascii("Connection")) == Ascii("connection") by { InLowerCase("Connection", "connection"); }
    assert Lower(Ascii("Keep-Alive")) == Ascii("keep-alive") by { InLowerCase("Keep-Alive", "keep-alive"); }
    ProxyNames();
    assert Lower(Ascii("TE")) == Ascii("te") by { InLowerCase("TE", "te"); }
    assert Lower(Ascii("Trailer")) == Ascii("trailer") by { InLowerCase("Trailer", "trailer"); }
    TransferName();
    assert Lower(Ascii("Upgrade")) == Ascii("upgrade") by { InLowerCase("Upgrade", "upgrade"); }
  }

  lemma ProxyNames()
    ensures Lower(Ascii("Proxy-Authenticate")) == Ascii("proxy-authenticate")
    ensures Lower(Ascii("Proxy-Authorization")) == Ascii("proxy-authorization")
  {
    hide Ascii, Lower;
    InLowerCase("Proxy-Authenticate", "proxy-authenticate");
    InLowerCase("Proxy-Authorization", "proxy-authorization");
  }

  lemma TransferName()
    ensures Lower(Ascii("Transfer-Encoding")) == Ascii("transfer-encoding")
  {
    hide Ascii, Lower;
    InLowerCase("Transfer-Encoding", "transfer-encoding");
  }

  lemma InLowerCase(s: string, low: string)
    requires |s| == |low| && forall i :: 0 <= i < |s| ==> s[i] as int < 128
    requires forall i :: 0 <= i < |s| ==>
               low[i] as int == if 65 <= s[i] as int <= 90 then s[i] as int + 32 else s[i] as int
    ensures Lower(Ascii(s)) == Ascii(low)
  {
  }
}
