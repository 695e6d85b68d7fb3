/** The server side of the WebSocket opening handshake (section 4.2.2 of
    RFC 6455) as `do_handshake` performs it: the request is cut into lines
    at every CRLF, each line loses the trailing characters `chop` strips, lines of the
    shape `NAME: VALUE` fill a header dictionary, and the reply carries
    base64(SHA-1(key + GUID)) for the `Sec-WebSocket-Key` found there. */
module Handshake {
  import opened Wrappers
  import opened Octets
  import Base64

  /** The 20 octets of a SHA-1 digest. SHA-1 itself is a parameter of the
      model (`sha1` below), as PHP's `sha1` followed by `pack('H*', …)`. */
  type Digest = d: Bytes | |d| == 20
    witness [0, 0, 0, 0, 0, 0, 0, 0, 0, 0, 0, 0, 0, 0, 0, 0, 0, 0, 0, 0]

  /** The GUID of section 1.3 of RFC 6455 appended to the client's key. */
  const Guid: string := "258EAFA5-E914-47DA-95CA-C5AB0DC85B11"

  /** The name of the request header that carries the client's key. */
  const KeyHeader: string := "Sec-WebSocket-Key"

  // ---------------------------------------------------------------------
  // Cutting the request into lines: preg_split("/\r\n/", …)
  // ---------------------------------------------------------------------

  /** Whether "\r\n" does not occur in `s`. */
  predicate CrlfFree(s: string)
  {
    forall i :: 0 <= i < |s| - 1 ==> !(s[i] == '\r' && s[i + 1] == '\n')
  }

  /** The pieces of `s` between the occurrences of "\r\n", found from the
      left: there is always one piece more than there are separators, and
      a separator at either end leaves an empty piece there. */
  function SplitCrlf(s: string): (lines: seq<string>)
    ensures |lines| >= 1
    ensures |lines[0]| <= |s| && lines[0] == s[..|lines[0]|]
    decreases |s|
  {
    if |s| < 2 then [s]
    else if s[0] == '\r' && s[1] == '\n' then [""] + SplitCrlf(s[2..])
    else
      var rest := SplitCrlf(s[1..]);
      [[s[0]] + rest[0]] + rest[1..]
  }

  /** The pieces put back together with "\r\n" between them. */
  function JoinCrlf(lines: seq<string>): string
    requires |lines| >= 1
    decreases |lines|
  {
    if |lines| == 1 then lines[0] else lines[0] + "\r\n" + JoinCrlf(lines[1..])
  }

  /** Splitting loses nothing: the pieces join back into the request. */
  lemma {:induction false} JoinSplitCrlf(s: string)
    ensures JoinCrlf(SplitCrlf(s)) == s
    decreases |s|
  {
    if |s| < 2 {
    } else if s[0] == '\r' && s[1] == '\n' {
      JoinSplitCrlf(s[2..]);
      JoinSplitAtSeparator(s);
    } else {
      JoinSplitCrlf(s[1..]);
      JoinSplitAtChar(s);
    }
  }

  /** The step of `JoinSplitCrlf` for a request that starts with "\r\n". */
  lemma JoinSplitAtSeparator(s: string)
    requires |s| >= 2 && s[0] == '\r' && s[1] == '\n'
    requires JoinCrlf(SplitCrlf(s[2..])) == s[2..]
    ensures JoinCrlf(SplitCrlf(s)) == s
  {
    var lines := SplitCrlf(s);
    assert lines == [""] + SplitCrlf(s[2..]);
    assert lines[1..] == SplitCrlf(s[2..]);
    assert s == "\r\n" + s[2..];
  }

  /** The step of `JoinSplitCrlf` for a request that starts otherwise. */
  lemma JoinSplitAtChar(s: string)
    requires |s| >= 2 && !(s[0] == '\r' && s[1] == '\n')
    requires JoinCrlf(SplitCrlf(s[1..])) == s[1..]
    ensures JoinCrlf(SplitCrlf(s)) == s
  {
    var rest := SplitCrlf(s[1..]);
    assert SplitCrlf(s) == [[s[0]] + rest[0]] + rest[1..];
    JoinConsFirst(s[0], rest[0], rest[1..]);
    HeadTail(rest);
    assert s == [s[0]] + s[1..];
  }

  /** A character put in front of the first piece comes out in front of the
      joined string. */
  lemma JoinConsFirst(c: char, first: string, tail: seq<string>)
    ensures JoinCrlf([[c] + first] + tail) == [c] + JoinCrlf([first] + tail)
  {
    JoinFront([c] + first, tail);
    JoinFront(first, tail);
  }

  /** A non-empty sequence is its first element followed by the rest. */
  lemma HeadTail<T>(x: seq<T>)
    requires |x| >= 1
    ensures [x[0]] + x[1..] == x
  {
  }

  /** `JoinCrlf` of a first piece and the pieces after it. */
  lemma JoinFront(first: string, tail: seq<string>)
    ensures JoinCrlf([first] + tail) == if tail == [] then first else first + "\r\n" + JoinCrlf(tail)
  {
    assert ([first] + tail)[1..] == tail;
  }

  /** No piece still holds a separator. */
  lemma {:induction false} SplitCrlfPieces(s: string)
    ensures forall k :: 0 <= k < |SplitCrlf(s)| ==> CrlfFree(SplitCrlf(s)[k])
    decreases |s|
  {
    if |s| < 2 {
    } else if s[0] == '\r' && s[1] == '\n' {
      SplitCrlfPieces(s[2..]);
      var lines := SplitCrlf(s);
      assert forall k :: 1 <= k < |lines| ==> lines[k] == SplitCrlf(s[2..])[k - 1];
    } else {
      SplitCrlfPieces(s[1..]);
      var rest := SplitCrlf(s[1..]);
      var lines := SplitCrlf(s);
      assert forall k :: 1 <= k < |lines| ==> lines[k] == rest[k];
      var first := [s[0]] + rest[0];
      assert first == s[..|first|];
      forall i | 0 <= i < |first| - 1
        ensures !(first[i] == '\r' && first[i + 1] == '\n')
      {
        if i > 0 {
          assert first[i] == rest[0][i - 1] && first[i + 1] == rest[0][i];
        }
      }
    }
  }

  /** A first piece without a separator is split off unchanged. */
  lemma {:induction false} SplitCrlfPrefix(a: string, b: string)
    requires CrlfFree(a)
    ensures SplitCrlf(a + "\r\n" + b) == [a] + SplitCrlf(b)
    decreases |a|
  {
    var s := a + "\r\n" + b;
    if |a| == 0 {
      assert s[2..] == b;
    } else {
      var a' := a[1..];
      assert CrlfFree(a') by {
        forall i | 0 <= i < |a'| - 1
          ensures !(a'[i] == '\r' && a'[i + 1] == '\n')
        {
          assert a'[i] == a[i + 1] && a'[i + 1] == a[i + 2];
        }
      }
      SplitCrlfPrefix(a', b);
      assert s[1..] == a' + "\r\n" + b;
      assert s[0] == a[0];
      assert |a| >= 2 ==> s[1] == a[1];
      assert |a| == 1 ==> s[1] == '\r';
      assert [s[0]] + a' == a;
    }
  }

  // ---------------------------------------------------------------------
  // chop(): trailing space, tab, line feed, carriage return, NUL and VT removed
  // ---------------------------------------------------------------------

  /** The characters `chop` removes: space, tab, line feed, carriage return,
      NUL and vertical tab. */
  predicate IsChopped(c: char)
  {
    c == ' ' || c == '\t' || c == '\n' || c == '\r' || c == 0 as char || c == 11 as char
  }

  /** `line` without its trailing run of chopped characters: a prefix that
      ends in a kept character (or is empty), and only chopped characters
      were cut off. */
  function Chop(line: string): (r: string)
    ensures |r| <= |line| && r == line[..|r|]
    ensures |r| == 0 || !IsChopped(r[|r| - 1])
    ensures forall i :: |r| <= i < |line| ==> IsChopped(line[i])
    decreases |line|
  {
    if |line| > 0 && IsChopped(line[|line| - 1]) then Chop(line[..|line| - 1]) else line
  }

  /** A line that does not end in a chopped character is left alone. */
  lemma ChopKeeps(line: string)
    requires |line| > 0 && !IsChopped(line[|line| - 1])
    ensures Chop(line) == line
  {
  }

  // ---------------------------------------------------------------------
  // preg_match('/\A(\S+): (.*)\z/', …)
  // ---------------------------------------------------------------------

  /** PCRE's `\s`: tab, line feed, vertical tab, form feed, carriage return
      and space. */
  predicate IsSpace(c: char)
  {
    9 <= c as int <= 13 || c == ' '
  }

  /** One header line: the name and the value the pattern captures. */
  datatype Header = Header(name: string, value: string)

  /** The line has the shape the pattern accepts, with these captures: a
      non-empty name without white space, ": ", and a value that `.` can
      match in full, i.e. without a line feed. */
  ghost predicate IsHeaderLine(line: string, h: Header)
  {
    && |h.name| > 0
    && (forall i :: 0 <= i < |h.name| ==> !IsSpace(h.name[i]))
    && '\n' !in h.value
    && line == h.name + ": " + h.value
  }

  /** The length of the run of non-white-space characters `line` starts with. */
  function NonSpaceRun(line: string): (n: nat)
    ensures n <= |line|
    ensures forall i :: 0 <= i < n ==> !IsSpace(line[i])
    ensures n < |line| ==> IsSpace(line[n])
    decreases |line|
  {
    if |line| == 0 || IsSpace(line[0]) then 0 else 1 + NonSpaceRun(line[1..])
  }

  /** The match of the header pattern against `line`. `\S+` is followed by
      ": ", so it must stop right before the ':' that ends the line's
      leading non-white-space run; backtracking has no other choice. */
  function MatchHeaderLine(line: string): Option<Header>
  {
    var n := NonSpaceRun(line);
    if 2 <= n < |line| && line[n - 1] == ':' && line[n] == ' ' && '\n' !in line[n + 1..]
    then Some(Header(line[..n - 1], line[n + 1..]))
    else None
  }

  /** The matcher finds exactly the lines of header shape, with their
      captures. */
  lemma MatchHeaderLineIff(line: string, h: Header)
    ensures MatchHeaderLine(line) == Some(h) <==> IsHeaderLine(line, h)
  {
    if IsHeaderLine(line, h) {
      HeaderLineMatches(line, h);
    }
    if MatchHeaderLine(line) == Some(h) {
      MatchIsHeaderLine(line, h);
    }
  }

  /** A line of header shape is matched, with its captures. */
  lemma HeaderLineMatches(line: string, h: Header)
    requires IsHeaderLine(line, h)
    ensures MatchHeaderLine(line) == Some(h)
  {
    var n := NonSpaceRun(line);
    var k := |h.name|;
    assert line[k] == ':' && line[k + 1] == ' ';
    assert forall i :: 0 <= i < k ==> line[i] == h.name[i];
    assert forall i :: 0 <= i <= k ==> !IsSpace(line[i]);
    assert IsSpace(line[k + 1]);
    assert line[..n - 1] == h.name;
    assert line[n + 1..] == h.value;
  }

  /** What the matcher yields has header shape. */
  lemma MatchIsHeaderLine(line: string, h: Header)
    requires MatchHeaderLine(line) == Some(h)
    ensures IsHeaderLine(line, h)
  {
    var n := NonSpaceRun(line);
    assert line == line[..n - 1] + ": " + line[n + 1..];
  }

  /** After `chop`, a recorded value is never empty and never ends in a
      character `chop` removes (it may still end in a form feed, which `\s`
      counts as white space): "Name: " loses its space and no longer
      matches. */
  lemma ChoppedValue(line: string)
    requires MatchHeaderLine(Chop(line)).Some?
    ensures var v := MatchHeaderLine(Chop(line)).value.value;
      |v| > 0 && !IsChopped(v[|v| - 1])
  {
  }

  // ---------------------------------------------------------------------
  // The header dictionary
  // ---------------------------------------------------------------------

  /** The header a line of the request yields, if any. */
  function LineHeader(line: string): Option<Header>
  {
    MatchHeaderLine(Chop(line))
  }

  /** Whether the line, once chopped, declares header `name`. */
  predicate Declares(line: string, name: string)
  {
    LineHeader(line).Some? && LineHeader(line).value.name == name
  }

  /** The dictionary the lines fill in order: each header line stores its
      value under its name, replacing what an earlier line stored there. */
  function HeaderMap(lines: seq<string>): map<string, string>
    decreases |lines|
  {
    if |lines| == 0 then map[]
    else
      var m := HeaderMap(lines[..|lines| - 1]);
      match LineHeader(lines[|lines| - 1])
      case None => m
      case Some(h) => m[h.name := h.value]
  }

  /** A name is in the dictionary exactly when some line declares it. */
  lemma {:induction false} HeaderMapDomain(lines: seq<string>, name: string)
    ensures name in HeaderMap(lines) <==> exists i :: 0 <= i < |lines| && Declares(lines[i], name)
    decreases |lines|
  {
    if |lines| > 0 {
      var init := lines[..|lines| - 1];
      HeaderMapDomain(init, name);
      assert forall i :: 0 <= i < |init| ==> init[i] == lines[i];
      if !Declares(lines[|lines| - 1], name) && exists i :: 0 <= i < |lines| && Declares(lines[i], name) {
        var i :| 0 <= i < |lines| && Declares(lines[i], name);
        assert Declares(init[i], name);
      }
    }
  }

  /** The value stored under a name is the one of the last line that
      declares it. */
  lemma {:induction false} HeaderMapLastWins(lines: seq<string>, name: string, i: nat)
    requires i < |lines| && Declares(lines[i], name)
    requires forall j :: i < j < |lines| ==> !Declares(lines[j], name)
    ensures name in HeaderMap(lines)
    ensures HeaderMap(lines)[name] == LineHeader(lines[i]).value.value
    decreases |lines|
  {
    var init := lines[..|lines| - 1];
    if i < |lines| - 1 {
      assert forall j :: i < j < |init| ==> init[j] == lines[j];
      HeaderMapLastWins(init, name, i);
      assert !Declares(lines[|lines| - 1], name);
    }
  }

  /** The header dictionary of `received`, built as the `foreach` over its
      lines does. */
  method ParseHeaders(received: string) returns (headers: map<string, string>)
    ensures headers == HeaderMap(SplitCrlf(received))
  {
    var lines := SplitCrlf(received);
    headers := map[];
    var i := 0;
    while i < |lines|
      invariant 0 <= i <= |lines|
      invariant headers == HeaderMap(lines[..i])
    {
      var line := Chop(lines[i]);
      var matches := MatchHeaderLine(line);
      if matches.Some? {
        headers := headers[matches.value.name := matches.value.value];
      }
      assert lines[..i + 1][..i] == lines[..i];
      i := i + 1;
    }
    assert lines[..|lines|] == lines;
  }

  // ---------------------------------------------------------------------
  // The reply
  // ---------------------------------------------------------------------

  /** The client's key: a missing header reads as PHP's null, which
      concatenates as the empty string. */
  function SecKey(headers: map<string, string>): (key: string)
    ensures KeyHeader in headers ==> key == headers[KeyHeader]
    ensures KeyHeader !in headers ==> key == ""
  {
    if KeyHeader in headers then headers[KeyHeader] else ""
  }

  /** The accept token of section 4.2.2 of RFC 6455, item 5. */
  function AcceptToken(key: string, sha1: string -> Digest): (token: string)
  {
    Base64.Encode(sha1(key + Guid))
  }

  /** The token is 28 characters of the base 64 alphabet ending in one '=',
      and it determines the digest it was made from. */
  lemma AcceptTokenShape(key: string, sha1: string -> Digest)
    ensures var token := AcceptToken(key, sha1);
      && |token| == 28
      && (forall i :: 0 <= i < 27 ==> Base64.IsDigit(token[i]))
      && token[27] == '='
      && Base64.Decode(token) == Some(sha1(key + Guid))
  {
    var d := sha1(key + Guid);
    var token := Base64.Encode(d);
    assert |d| == 20 && |token| == 28;
    Base64.EncodeAlphabet(d);
    Base64.EncodePadding(d);
    assert Base64.IsDigit(token[26]);
    Base64.DecodeEncode(d);
  }

  /** The lines of the reply. */
  const StatusLine: string := "HTTP/1.1 101 Web Socket Protocol Handshake"
  const UpgradeLine: string := "Upgrade: websocket"
  const ConnectionLine: string := "Connection: Upgrade"
  const OriginPrefix: string := "WebSocket-Origin: "
  const AcceptPrefix: string := "Sec-WebSocket-Accept:"

  /** The digest of the worked example of section 1.3 of RFC 6455. */
  const ExampleDigest: Bytes := [0xb3, 0x7a, 0x4f, 0x2c, 0xc0, 0x62, 0x4f, 0x16, 0x90, 0xf6,
                                 0x46, 0x06, 0xcf, 0x38, 0x59, 0x45, 0xb2, 0xbe, 0xc4, 0xea]

  /** The key of the worked example of section 1.3 of RFC 6455. */
  const ExampleKey: string := "dGhlIHNhbXBsZSBub25jZQ=="

  /** The worked example of section 1.3 of RFC 6455: for the key
      `ExampleKey`, whose SHA-1 with the GUID appended is `ExampleDigest`,
      the token is "s3pPLMBiTxaQ9kYGzzhZRbK+xOo=". */
  lemma AcceptTokenExample(sha1: string -> Digest)
    requires sha1(ExampleKey + Guid) == ExampleDigest
    ensures AcceptToken(ExampleKey, sha1) == "s3pPLMBiTxaQ9kYGzzhZRbK+xOo="
  {
    ExampleEncoding();
    ExampleGroups();
  }

  /** The example token, group by group. */
  lemma ExampleGroups()
    ensures "s3pP" + ("LMBi" + ("TxaQ" + ("9kYG" + ("zzhZ" + ("RbK+" + "xOo="))))) == "s3pPLMBiTxaQ9kYGzzhZRbK+xOo="
  {
  }

  /** The base 64 encoding of the example digest, group by group. */
  lemma ExampleEncoding()
    ensures Base64.Encode(ExampleDigest) == "s3pP" + ("LMBi" + ("TxaQ" + ("9kYG" + ("zzhZ" + ("RbK+" + "xOo=")))))
  {
    var d := ExampleDigest;
    ExampleQuanta();
    assert d[15..][3..] == d[18..] && d[12..][3..] == d[15..] && d[9..][3..] == d[12..];
    assert d[6..][3..] == d[9..] && d[3..][3..] == d[6..];
    assert d[0] == 0xb3 && d[1] == 0x7a && d[2] == 0x4f;
    Base64.EncodeStep(d[15..]);
    Base64.EncodeStep(d[12..]);
    Base64.EncodeStep(d[9..]);
    Base64.EncodeStep(d[6..]);
    Base64.EncodeStep(d[3..]);
    Base64.EncodeStep(d);
  }

  /** The groups of the example token, one quantum at a time. */
  lemma ExampleQuanta()
    ensures Base64.EncodeQuantum(0xb3, 0x7a, 0x4f) == "s3pP"
    ensures Base64.EncodeQuantum(0x2c, 0xc0, 0x62) == "LMBi"
    ensures Base64.EncodeQuantum(0x4f, 0x16, 0x90) == "TxaQ"
    ensures Base64.EncodeQuantum(0xf6, 0x46, 0x06) == "9kYG"
    ensures Base64.EncodeQuantum(0xcf, 0x38, 0x59) == "zzhZ"
    ensures Base64.EncodeQuantum(0x45, 0xb2, 0xbe) == "RbK+"
    ensures Base64.Encode(ExampleDigest[18..]) == "xOo="
  {
    assert ExampleDigest[18..] == [0xc4, 0xea];
  }

  /** The reply `do_handshake` writes: a status line, three headers, the
      accept token after "Sec-WebSocket-Accept:" with no space, and an empty
      line. */
  function Response(hostName: string, accept: string): string
  {
    StatusLine + "\r\n" + UpgradeLine + "\r\n" + ConnectionLine + "\r\n"
      + OriginPrefix + hostName + "\r\n" + AcceptPrefix + accept + "\r\n\r\n"
  }

  /** The reply to the request `received`. */
  function HandshakeResponse(received: string, hostName: string, sha1: string -> Digest): string
  {
    Response(hostName, AcceptToken(SecKey(HeaderMap(SplitCrlf(received))), sha1))
  }

  /** The reply answers the key of the last request line that declares
      `Sec-WebSocket-Key`. */
  lemma HandshakeKey(received: string, hostName: string, sha1: string -> Digest)
    ensures var lines := SplitCrlf(received);
      forall i :: (0 <= i < |lines| && Declares(lines[i], KeyHeader)
                   && (forall j :: i < j < |lines| ==> !Declares(lines[j], KeyHeader)))
        ==> (HandshakeResponse(received, hostName, sha1)
             == Response(hostName, AcceptToken(LineHeader(lines[i]).value.value, sha1)))
  {
    var lines := SplitCrlf(received);
    forall i | 0 <= i < |lines| && Declares(lines[i], KeyHeader)
               && (forall j :: i < j < |lines| ==> !Declares(lines[j], KeyHeader))
      ensures HandshakeResponse(received, hostName, sha1)
           == Response(hostName, AcceptToken(LineHeader(lines[i]).value.value, sha1))
    {
      HeaderMapLastWins(lines, KeyHeader, i);
      assert SecKey(HeaderMap(lines)) == LineHeader(lines[i]).value.value;
    }
  }

  /** A request where no line declares `Sec-WebSocket-Key` is answered as
      if the key were empty. */
  lemma HandshakeNoKey(received: string, hostName: string, sha1: string -> Digest)
    requires var lines := SplitCrlf(received);
      forall i :: 0 <= i < |lines| ==> !Declares(lines[i], KeyHeader)
    ensures HandshakeResponse(received, hostName, sha1) == Response(hostName, AcceptToken("", sha1))
  {
    HeaderMapDomain(SplitCrlf(received), KeyHeader);
    assert SecKey(HeaderMap(SplitCrlf(received))) == "";
  }

  /** `do_handshake` without the final `socket_write`: the buffer it
      writes. */
  method DoHandshake(received: string, hostName: string, sha1: string -> Digest) returns (buffer: string)
    ensures buffer == HandshakeResponse(received, hostName, sha1)
  {
    var headers := ParseHeaders(received);
    var secKey := SecKey(headers);
    var secAccept := Base64.Encode(sha1(secKey + Guid));
    buffer := Response(hostName, secAccept);
  }

  /** The reply is the status line, three header lines, the accept line and
      an empty line; the final "\r\n" leaves one more, empty, piece. */
  lemma ResponseLines(hostName: string, accept: string)
    requires CrlfFree(hostName) && CrlfFree(accept)
    ensures SplitCrlf(Response(hostName, accept))
         == [StatusLine, UpgradeLine, ConnectionLine, OriginPrefix + hostName, AcceptPrefix + accept, "", ""]
  {
    var lines := [StatusLine, UpgradeLine, ConnectionLine, OriginPrefix + hostName, AcceptPrefix + accept, "", ""];
    ResponsePiecesCrlfFree(hostName, accept);
    JoinSeven(StatusLine, UpgradeLine, ConnectionLine, OriginPrefix + hostName, AcceptPrefix + accept);
    assert Response(hostName, accept) == JoinCrlf(lines);
    assert forall k :: 0 <= k < |lines| ==> CrlfFree(lines[k]);
    SplitJoinCrlf(lines);
  }

  /** No line of the reply holds a separator. */
  lemma ResponsePiecesCrlfFree(hostName: string, accept: string)
    requires CrlfFree(hostName) && CrlfFree(accept)
    ensures CrlfFree(StatusLine) && CrlfFree(UpgradeLine) && CrlfFree(ConnectionLine)
    ensures CrlfFree(OriginPrefix + hostName) && CrlfFree(AcceptPrefix + accept)
  {
    ReplyConstantsCrlfFree();
    NoCrlfAppend(OriginPrefix, hostName);
    NoCrlfAppend(AcceptPrefix, accept);
  }

  /** The fixed parts of the reply hold no carriage return. */
  lemma ReplyConstantsCrlfFree()
    ensures CrlfFree(StatusLine) && CrlfFree(UpgradeLine) && CrlfFree(ConnectionLine)
    ensures CrlfFree(OriginPrefix) && OriginPrefix[|OriginPrefix| - 1] != '\r'
    ensures CrlfFree(AcceptPrefix) && AcceptPrefix[|AcceptPrefix| - 1] != '\r'
  {
    StatusLineCrlfFree();
    NoCr(UpgradeLine);
    NoCr(ConnectionLine);
    NoCr(OriginPrefix);
    NoCr(AcceptPrefix);
  }

  /** The status line holds no carriage return. */
  lemma StatusLineCrlfFree()
    ensures CrlfFree(StatusLine)
  {
    NoCr(StatusLine);
  }

  /** Five lines and two empty ones joined. */
  lemma JoinSeven(a: string, b: string, c: string, d: string, e: string)
    ensures JoinCrlf([a, b, c, d, e, "", ""])
         == a + "\r\n" + b + "\r\n" + c + "\r\n" + d + "\r\n" + e + "\r\n\r\n"
  {
    var lines := [a, b, c, d, e, "", ""];
    assert JoinCrlf(lines[5..]) == "\r\n";
    assert JoinCrlf(lines[4..]) == e + "\r\n\r\n";
    assert JoinCrlf(lines[3..]) == d + "\r\n" + (e + "\r\n\r\n");
    assert JoinCrlf(lines[2..]) == c + "\r\n" + (d + "\r\n" + (e + "\r\n\r\n"));
    assert JoinCrlf(lines[1..]) == b + "\r\n" + (c + "\r\n" + (d + "\r\n" + (e + "\r\n\r\n")));
  }

  /** Pieces without separators are split back out of their join: with
      `JoinSplitCrlf`, splitting and joining are inverse. */
  lemma {:induction false} SplitJoinCrlf(lines: seq<string>)
    requires |lines| >= 1
    requires forall k :: 0 <= k < |lines| ==> CrlfFree(lines[k])
    ensures SplitCrlf(JoinCrlf(lines)) == lines
    decreases |lines|
  {
    if |lines| == 1 {
      SplitCrlfSingle(lines[0]);
    } else {
      SplitJoinCrlf(lines[1..]);
      SplitCrlfPrefix(lines[0], JoinCrlf(lines[1..]));
      assert lines == [lines[0]] + lines[1..];
    }
  }

  /** A string without a separator is a single piece. */
  lemma {:induction false} SplitCrlfSingle(s: string)
    requires CrlfFree(s)
    ensures SplitCrlf(s) == [s]
    decreases |s|
  {
    if |s| >= 2 {
      assert CrlfFree(s[1..]) by {
        forall i | 0 <= i < |s[1..]| - 1
          ensures !(s[1..][i] == '\r' && s[1..][i + 1] == '\n')
        {
          assert s[1..][i] == s[i + 1] && s[1..][i + 1] == s[i + 2];
        }
      }
      SplitCrlfSingle(s[1..]);
      assert [s[0]] + s[1..] == s;
    }
  }

  /** A string without a carriage return has no separator. */
  lemma NoCr(s: string)
    requires '\r' !in s
    ensures CrlfFree(s)
  {
  }

  /** A prefix ending in a character other than '\r' adds no separator. */
  lemma NoCrlfAppend(a: string, b: string)
    requires CrlfFree(a) && CrlfFree(b)
    requires |a| > 0 && a[|a| - 1] != '\r'
    ensures CrlfFree(a + b)
  {
    var s := a + b;
    forall i | 0 <= i < |s| - 1
      ensures !(s[i] == '\r' && s[i + 1] == '\n')
    {
      if i + 1 < |a| {
        assert s[i] == a[i] && s[i + 1] == a[i + 1];
      } else if i >= |a| {
        assert s[i] == b[i - |a|] && s[i + 1] == b[i - |a| + 1];
      } else {
        assert s[i] == a[|a| - 1];
      }
    }
  }
}
