/**
 * The request parser (class HttpRequest): a line-oriented state machine that consumes a
 * Buffer. The value Req is one snapshot of its fields, the functions below say what each
 * step does to a snapshot, ParseFrom runs the whole loop of parse on a snapshot, and the
 * class runs the same steps in place on its fields and on the Buffer.
 */
module Request {
  import opened Wrappers
  import opened Faults
  import opened Decimal
  import opened ByteBuffer
  import opened HttpGrammar

  datatype ParseState = RequestLine | Headers | Body

  datatype LineState = LineOk | LineError | LineOpen

  datatype HttpCode =
    | NoRequest | GetRequest | BadRequest | NoResource | ForbiddentRequest
    | FileRequest | InternalError | ClosedConnection

  const CONTENT_LENGTH: string := "Content-Length"
  const CONTENT_TYPE: string := "Content-Type"
  const FORM_URLENCODED: string := "application/x-www-form-urlencoded"

  /** DEFAULT_HTML_TAG: the pages whose POST goes to the user table, 1 meaning a login. */
  const DEFAULT_HTML_TAG: map<string, int> := map["/register.html" := 0, "/login.html" := 1]

  /** The user table: (name, password, isLogin) answers whether the login or registration succeeds. */
  type UserDb = (string, string, bool) -> bool

  /** UserVerify: an empty name or password is refused before the table is consulted. */
  function UserVerify(db: UserDb, name: string, pwd: string, isLogin: bool): (ok: bool)
    ensures ok <==> name != "" && pwd != "" && db(name, pwd, isLogin)
  {
    if name == "" || pwd == "" then false else db(name, pwd, isLogin)
  }

  /** The conversion of the int from std::stoi to size_t: a negative value wraps around. */
  const SIZE_T_RANGE: int := 0x1_0000_0000_0000_0000

  function ToSizeT(v: int): (n: nat)
    requires INT_MIN <= v <= INT_MAX
    ensures v >= 0 ==> n == v
    ensures v < 0 ==> n == v + SIZE_T_RANGE && n > INT_MAX
  {
    if v < 0 then v + SIZE_T_RANGE else v
  }

  /** One snapshot of the fields of HttpRequest; verb is method_. */
  datatype Req = Req(
    parseState: ParseState, lineState: LineState,
    verb: string, path: string, version: string, body: string,
    header: map<string, string>, post: map<string, string>)

  /** The state init() leaves. */
  const Fresh: Req := Req(RequestLine, LineOk, "", "", "", "", map[], map[])

  /** What getLine produces: its state and the line it read. */
  datatype Line = Line(state: LineState, text: string)

  /**
   * getLine on the readable bytes `input`. Outside the body it looks for the first CRLF;
   * in the body it takes Content-Length bytes, and fails without that header.
   */
  function LineOf(r: Req, input: string): (l: Result<Line, Fault>)
    ensures l.Success? && l.value.state == LineOk ==>
      |l.value.text| + (if r.parseState == Body then 0 else 2) <= |input|
  {
    if r.parseState != Body then
      match FindCrlf(input)
      case None => Success(Line(LineOpen, ""))
      case Some(k) => Success(Line(LineOk, input[..k]))
    else if CONTENT_LENGTH !in r.header then Success(Line(LineError, ""))
    else
      match Stoi(r.header[CONTENT_LENGTH])
      case Failure(e) => Failure(e)
      case Success(v) =>
        var n := ToSizeT(v);
        if |input| < n then Success(Line(LineOpen, "")) else Success(Line(LineOk, input[..n]))
  }

  /**
   * What getLine finds. Outside the body: LINE_OPEN exactly when there is no CRLF,
   * otherwise the text before the first CRLF. In the body: LINE_ERROR without a
   * Content-Length header, LINE_OPEN while fewer than Content-Length bytes are there,
   * otherwise exactly the first Content-Length bytes. Only LINE_OK carries text.
   */
  lemma {:induction false} LineOfMeaning(r: Req, input: string)
    ensures var l := LineOf(r, input);
      && (r.parseState != Body ==> l.Success? && (l.value.state == LineOpen <==> NoCrlf(input)))
      && (r.parseState != Body && l.Success? && l.value.state != LineOpen ==>
            && l.value.state == LineOk
            && input[..|l.value.text| + 2] == l.value.text + "\r\n"
            && NoCrlf(l.value.text + "\r"))
      && (r.parseState == Body && CONTENT_LENGTH !in r.header ==> l == Success(Line(LineError, "")))
      && (r.parseState == Body && CONTENT_LENGTH in r.header ==>
            match Stoi(r.header[CONTENT_LENGTH])
            case Failure(e) => l == Failure(e)
            case Success(v) =>
              var n := ToSizeT(v);
              l == Success(if |input| < n then Line(LineOpen, "") else Line(LineOk, input[..n])))
      && (l.Success? && l.value.state != LineOk ==> l.value.text == "")
  {
    if r.parseState != Body {
      FindCrlfIsFirst(input);
      if FindCrlf(input).Some? {
        var k := FindCrlf(input).value;
        assert input[..k + 2] == input[..k] + "\r\n";
        assert input[..k + 1] == input[..k] + "\r";
      }
    }
  }

  /** parseRequestLine_: the three groups are stored, the path normalised, and headers come next. */
  function RequestLineStep(r: Req, line: string): (Req, HttpCode) {
    match MatchRequestLine(line)
    case None => (r, BadRequest)
    case Some(parts) =>
      (r.(verb := parts.verb, path := NormalizePath(parts.path), version := parts.version,
          parseState := Headers), NoRequest)
  }

  /** A request line the pattern matches moves to the headers with exactly its groups stored. */
  lemma {:induction false} RequestLineAccepted(r: Req, line: string, m: string, p: string, v: string)
    requires IsRequestLineOf(line, m, p, v)
    ensures RequestLineStep(r, line) ==
      (r.(verb := m, path := NormalizePath(p), version := v, parseState := Headers), NoRequest)
  {
    MatchRequestLineComplete(line, m, p, v);
  }

  /** A request line the pattern does not match is BAD_REQUEST and changes nothing. */
  lemma {:induction false} RequestLineRejected(r: Req, line: string)
    requires forall m, p, v :: !IsRequestLineOf(line, m, p, v)
    ensures RequestLineStep(r, line) == (r, BadRequest)
  {
  }

  /**
   * parseHeader_: a blank line ends the headers (GET_REQUEST without a non-zero
   * Content-Length, otherwise the body is next); a matching line stores its value under
   * its name; anything else is BAD_REQUEST.
   */
  function HeaderStep(r: Req, line: string): Result<(Req, HttpCode), Fault> {
    if line == [] then
      if CONTENT_LENGTH !in r.header then Success((r, GetRequest))
      else
        match Stoi(r.header[CONTENT_LENGTH])
        case Failure(e) => Failure(e)
        case Success(v) => if v == 0 then Success((r, GetRequest)) else Success((r.(parseState := Body), NoRequest))
    else
      match MatchHeaderLine(line)
      case None => Success((r, BadRequest))
      case Some(h) => Success((r.(header := r.header[h.name := h.value]), NoRequest))
  }

  /** A header line the pattern matches stores its value, a later line with the same name winning. */
  lemma {:induction false} HeaderAccepted(r: Req, line: string, name: string, value: string)
    requires IsHeaderLineOf(line, name, value) && line != []
    ensures HeaderStep(r, line) == Success((r.(header := r.header[name := value]), NoRequest))
  {
    MatchHeaderLineComplete(line, name, value);
  }

  /** A non-blank line the header pattern does not match is BAD_REQUEST and changes nothing. */
  lemma {:induction false} HeaderRejected(r: Req, line: string)
    requires line != [] && forall n, v :: !IsHeaderLineOf(line, n, v)
    ensures HeaderStep(r, line) == Success((r, BadRequest))
  {
  }

  /** operator[] on a map: a missing key is inserted with an empty value. */
  function Touch(m: map<string, string>, k: string): (t: map<string, string>)
    ensures k in t && t.Keys == m.Keys + {k}
    ensures forall j :: j in m ==> t[j] == m[j]
    ensures k !in m ==> t[k] == ""
  {
    if k in m then m else m[k := ""]
  }

  /**
   * parsePost_ (and parseFromUrlencoded_ inside it): a urlencoded POST body is decoded and
   * split into post; a POST to the register or login page then goes to the welcome page when
   * the user table accepts the posted name and password, and to the error page otherwise.
   */
  function PostStep(r: Req, db: UserDb): Result<Req, Fault> {
    if r.verb != "POST" then Success(r)
    else
      var header := Touch(r.header, CONTENT_TYPE);
      var r1 := r.(header := header);
      if header[CONTENT_TYPE] != FORM_URLENCODED then Success(r1)
      else
        match Urlencoded(r1.body, r1.post)
        case Failure(e) => Failure(e)
        case Success(decoded) =>
          var r2 := r1.(body := decoded.0, post := decoded.1);
          if r2.path !in DEFAULT_HTML_TAG then Success(r2)
          else
            var isLogin := DEFAULT_HTML_TAG[r2.path] == 1;
            var post := Touch(Touch(r2.post, "username"), "password");
            var ok := UserVerify(db, post["username"], post["password"], isLogin);
            Success(r2.(post := post, path := if ok then "/welcome.html" else "/error.html"))
  }

  /** Only a urlencoded POST changes more than the Content-Type entry; the rest is untouched. */
  lemma {:induction false} PostStepKeeps(r: Req, db: UserDb)
    requires r.verb != "POST" || (CONTENT_TYPE in r.header && r.header[CONTENT_TYPE] != FORM_URLENCODED)
    ensures PostStep(r, db) == Success(r)
  {
  }

  /**
   * A browser's form posted to the login or register page: the fields are stored, with
   * username and password present, and the page is chosen by the user table.
   */
  lemma {:induction false} PostForm(r: Req, db: UserDb, fs: seq<Field>)
    requires r.verb == "POST" && CONTENT_TYPE in r.header && r.header[CONTENT_TYPE] == FORM_URLENCODED
    requires r.path in DEFAULT_HTML_TAG
    requires forall i :: 0 <= i < |fs| ==> IsBytes(fs[i].key) && IsBytes(fs[i].value)
    requires PlainForm(fs, r.post)
    requires r.body == EncodeForm(fs)
    ensures var post := Touch(Touch(AddFields(r.post, fs), "username"), "password");
      PostStep(r, db) == Success(r.(body := JoinForm(fs), post := post,
        path := if UserVerify(db, post["username"], post["password"], r.path == "/login.html")
                then "/welcome.html" else "/error.html"))
  {
    UrlencodedRoundTrip(fs, r.post);
  }

  /** parseBody_: the body is stored and parsePost_ runs; the answer is GET_REQUEST. */
  function BodyStep(r: Req, line: string, db: UserDb): Result<Req, Fault> {
    PostStep(r.(body := line), db)
  }

  lemma {:induction false} ThenEmpty(r: Result<string, Fault>)
    ensures Then([], r) == r && (r.Success? ==> Then(r.value, Success([])) == r)
  {
    if r.Success? {
      assert [] + r.value == r.value && r.value + [] == r.value;
    }
  }

  /** The result of a whole parse: the new snapshot, the code and the bytes consumed. */
  datatype Outcome = Outcome(req: Req, code: HttpCode, consumed: nat)

  /**
   * The loop of parse on the readable bytes `input` from snapshot r, `base` bytes having
   * been retrieved already (consumed counts from before those): getLine, and NO_REQUEST
   * when it is not LINE_OK.
   */
  function ParseLoop(r: Req, input: string, base: nat, db: UserDb): (o: Result<Outcome, Fault>)
    ensures o.Success? ==> base <= o.value.consumed <= base + |input|
    ensures o.Success? ==> o.value.code in {NoRequest, GetRequest, BadRequest}
    ensures o.Success? && o.value.code == NoRequest ==> o.value.req.lineState != LineOk
    decreases |input|, 1
  {
    match LineOf(r, input)
    case Failure(e) => Failure(e)
    case Success(l) =>
      if l.state != LineOk then Success(Outcome(r.(lineState := l.state), NoRequest, base))
      else AfterLine(r.(lineState := LineOk), l.text, input, base, db)
  }

  /**
   * The rest of one pass, once getLine returned `line`: the request line and a header line
   * are retrieved with their CRLF, the body with its Content-Length bytes; BAD_REQUEST and
   * GET_REQUEST return, NO_REQUEST goes round the loop again.
   */
  function AfterLine(r: Req, line: string, input: string, base: nat, db: UserDb): (o: Result<Outcome, Fault>)
    requires |line| + (if r.parseState == Body then 0 else 2) <= |input|
    ensures o.Success? ==> base <= o.value.consumed <= base + |input|
    ensures o.Success? ==> o.value.code in {NoRequest, GetRequest, BadRequest}
    ensures o.Success? && o.value.code == NoRequest ==> o.value.req.lineState != LineOk
    decreases |input|, 0
  {
    match r.parseState
    case RequestLine =>
      var (r2, code) := RequestLineStep(r, line);
      var n := |line| + 2;
      if code == BadRequest then Success(Outcome(r2, BadRequest, base + n))
      else ParseLoop(r2, input[n..], base + n, db)
    case Headers =>
      (match HeaderStep(r, line)
       case Failure(e) => Failure(e)
       case Success((r2, code)) =>
         var n := |line| + 2;
         if code != NoRequest then Success(Outcome(r2, code, base + n))
         else ParseLoop(r2, input[n..], base + n, db))
    case Body =>
      match BodyStep(r, line, db)
      case Failure(e) => Failure(e)
      case Success(r2) => Success(Outcome(r2, GetRequest, base + |line|))
  }

  /**
   * What parse returns on the readable bytes `input` from snapshot r. The facts below are
   * stated on this entry point, and each proof unrolls the loop one pass at a time.
   */
  function ParseFrom(r: Req, input: string, base: nat, db: UserDb): (o: Result<Outcome, Fault>)
    ensures o.Success? ==> base <= o.value.consumed <= base + |input|
    ensures o.Success? ==> o.value.code in {NoRequest, GetRequest, BadRequest}
    ensures o.Success? && o.value.code == NoRequest ==> o.value.req.lineState != LineOk
  {
    ParseLoop(r, input, base, db)
  }

  /** getLine fails (std::stoi threw): so does parse. */
  lemma {:induction false} ParseFromFault(r: Req, input: string, base: nat, db: UserDb)
    requires LineOf(r, input).Failure?
    ensures ParseFrom(r, input, base, db) == Failure(LineOf(r, input).error)
  {
  }

  /** getLine is not LINE_OK: parse returns NO_REQUEST having consumed nothing more. */
  lemma {:induction false} ParseFromWaits(r: Req, input: string, base: nat, db: UserDb, l: Line)
    requires LineOf(r, input) == Success(l) && l.state != LineOk
    ensures ParseFrom(r, input, base, db) == Success(Outcome(r.(lineState := l.state), NoRequest, base))
  {
  }

  /** getLine is LINE_OK: the rest of the pass decides. */
  lemma {:induction false} ParseFromLine(r: Req, input: string, base: nat, db: UserDb, line: string)
    requires LineOf(r, input) == Success(Line(LineOk, line))
    ensures |line| + (if r.parseState == Body then 0 else 2) <= |input|
    ensures ParseFrom(r, input, base, db) == AfterLine(r.(lineState := LineOk), line, input, base, db)
  {
  }

  /** A pass over the request line: BAD_REQUEST returns, anything else goes on after the CRLF. */
  lemma {:induction false} ParseFromRequestLine(r: Req, input: string, base: nat, db: UserDb, line: string)
    requires r.parseState == RequestLine && LineOf(r, input) == Success(Line(LineOk, line))
    ensures |line| + 2 <= |input|
    ensures var (r2, code) := RequestLineStep(r.(lineState := LineOk), line);
      ParseFrom(r, input, base, db) ==
        if code == BadRequest then Success(Outcome(r2, BadRequest, base + |line| + 2))
        else ParseFrom(r2, input[|line| + 2..], base + |line| + 2, db)
  {
    assert ParseFrom(r, input, base, db) == AfterLine(r.(lineState := LineOk), line, input, base, db);
  }

  /** A pass over a header line: a fault or a code other than NO_REQUEST returns, else it goes on. */
  lemma {:induction false} ParseFromHeader(r: Req, input: string, base: nat, db: UserDb, line: string)
    requires r.parseState == Headers && LineOf(r, input) == Success(Line(LineOk, line))
    ensures |line| + 2 <= |input|
    ensures HeaderStep(r.(lineState := LineOk), line).Failure? ==>
      ParseFrom(r, input, base, db) == Failure(HeaderStep(r.(lineState := LineOk), line).error)
    ensures HeaderStep(r.(lineState := LineOk), line).Success? ==>
      var (r2, code) := HeaderStep(r.(lineState := LineOk), line).value;
      ParseFrom(r, input, base, db) ==
        if code != NoRequest then Success(Outcome(r2, code, base + |line| + 2))
        else ParseFrom(r2, input[|line| + 2..], base + |line| + 2, db)
  {
    assert ParseFrom(r, input, base, db) == AfterLine(r.(lineState := LineOk), line, input, base, db);
  }

  /** A pass over the body: parse returns GET_REQUEST with the body consumed, or the fault. */
  lemma {:induction false} ParseFromBody(r: Req, input: string, base: nat, db: UserDb, line: string)
    requires r.parseState == Body && LineOf(r, input) == Success(Line(LineOk, line))
    ensures |line| <= |input|
    ensures BodyStep(r.(lineState := LineOk), line, db).Failure? ==>
      ParseFrom(r, input, base, db) == Failure(BodyStep(r.(lineState := LineOk), line, db).error)
    ensures BodyStep(r.(lineState := LineOk), line, db).Success? ==>
      ParseFrom(r, input, base, db) ==
        Success(Outcome(BodyStep(r.(lineState := LineOk), line, db).value, GetRequest, base + |line|))
  {
    assert ParseFrom(r, input, base, db) == AfterLine(r.(lineState := LineOk), line, input, base, db);
  }

  /** Header lines as a client writes them (name ": " value CRLF each), the blank line, then rest. */
  function HeaderBlock(hs: seq<HeaderParts>, rest: string): string
    decreases |hs|
  {
    if hs == [] then "\r\n" + rest
    else hs[0].name + (": " + (hs[0].value + ("\r\n" + HeaderBlock(hs[1..], rest))))
  }

  /** What follows the blank line can be appended afterwards. */
  lemma {:induction false} HeaderBlockAppend(hs: seq<HeaderParts>, rest: string)
    ensures HeaderBlock(hs, rest) == HeaderBlock(hs, []) + rest
    decreases |hs|
  {
    if hs == [] {
      assert "\r\n" + [] == "\r\n";
    } else {
      HeaderBlockAppend(hs[1..], rest);
      var h := hs[0];
      var t := HeaderBlock(hs[1..], []);
      assert h.name + (": " + (h.value + ("\r\n" + (t + rest)))) ==
             h.name + (": " + (h.value + ("\r\n" + t))) + rest;
    }
  }

  /** The headers stored one after another, a later one winning. */
  function AddHeaders(header: map<string, string>, hs: seq<HeaderParts>): map<string, string>
    decreases |hs|
  {
    if hs == [] then header else AddHeaders(header[hs[0].name := hs[0].value], hs[1..])
  }

  /** A header a client can send without a body: a name without ':', no line break, not Content-Length. */
  predicate PlainHeader(h: HeaderParts) {
    ':' !in h.name && NoLineBreak(h.name) && NoLineBreak(h.value) && h.name != CONTENT_LENGTH
  }

  lemma {:induction false} NoLineBreakNoCrlf(s: string)
    requires NoLineBreak(s)
    ensures NoCrlf(s) && (s == [] || s[|s| - 1] != '\r')
  {
    if s != [] {
      assert s[|s| - 1] in s;
    }
    forall k | 0 <= k < |s| - 1
      ensures s[k] != '\r'
    {
      assert s[k] in s;
    }
  }

  lemma {:induction false} NoLineBreakAppend(a: string, b: string)
    requires NoLineBreak(a) && NoLineBreak(b)
    ensures NoLineBreak(a + b)
  {
    forall c | c in a + b
      ensures c != '\r' && c != '\n'
    {
      var k :| 0 <= k < |a + b| && (a + b)[k] == c;
      if k < |a| {
        assert a[k] == c;
      } else {
        assert b[k - |a|] == c;
      }
    }
  }

  /** Reading one line followed by CRLF in a non-body state finds exactly that line. */
  lemma {:induction false} LineOfText(r: Req, line: string, rest: string)
    requires r.parseState != Body && NoLineBreak(line)
    ensures LineOf(r, line + ("\r\n" + rest)) == Success(Line(LineOk, line))
    ensures (line + ("\r\n" + rest))[|line| + 2..] == rest
  {
    NoLineBreakNoCrlf(line);
    FindCrlfOfLine(line, rest);
    assert line + ("\r\n" + rest) == line + "\r\n" + rest;
    assert (line + "\r\n" + rest)[..|line|] == line;
  }

  /** A header line a client writes, followed by CRLF, is read whole and stored. */
  lemma {:induction false} HeaderLineRead(r: Req, h: HeaderParts, tail: string)
    requires r.parseState == Headers && PlainHeader(h)
    ensures var line := h.name + (": " + h.value);
      var input := h.name + (": " + (h.value + ("\r\n" + tail)));
      && LineOf(r, input) == Success(Line(LineOk, line))
      && HeaderStep(r.(lineState := LineOk), line) ==
           Success((r.(lineState := LineOk, header := r.header[h.name := h.value]), NoRequest))
      && |line| + 2 == |h.name| + |h.value| + 4
      && input[|line| + 2..] == tail
  {
    var line := h.name + (": " + h.value);
    NoLineBreakAppend(": ", h.value);
    NoLineBreakAppend(h.name, ": " + h.value);
    assert h.name + (": " + (h.value + ("\r\n" + tail))) == line + ("\r\n" + tail);
    LineOfText(r, line, tail);
    assert line == h.name + ": " + h.value;
    HeaderAccepted(r.(lineState := LineOk), line, h.name, h.value);
  }

  /** The blank line ends the headers with GET_REQUEST when there is no Content-Length. */
  lemma {:induction false} BlankLineRead(r: Req, rest: string)
    requires r.parseState == Headers && CONTENT_LENGTH !in r.header
    ensures LineOf(r, "\r\n" + rest) == Success(Line(LineOk, []))
    ensures HeaderStep(r.(lineState := LineOk), []) == Success((r.(lineState := LineOk), GetRequest))
  {
    assert "\r\n" + rest == [] + ("\r\n" + rest);
    LineOfText(r, [], rest);
  }

  /** A pass over a header line a client writes stores it and goes on after its CRLF. */
  lemma {:induction false} HeaderLinePass(r: Req, h: HeaderParts, tail: string, base: nat, db: UserDb)
    requires r.parseState == Headers && PlainHeader(h)
    ensures ParseFrom(r, h.name + (": " + (h.value + ("\r\n" + tail))), base, db) ==
      ParseFrom(r.(lineState := LineOk, header := r.header[h.name := h.value]), tail,
                base + |h.name| + |h.value| + 4, db)
  {
    HeaderLineRead(r, h, tail);
    ParseFromHeader(r, h.name + (": " + (h.value + ("\r\n" + tail))), base, db, h.name + (": " + h.value));
  }

  /** A pass over the blank line without Content-Length ends the request with GET_REQUEST. */
  lemma {:induction false} BlankLinePass(r: Req, rest: string, base: nat, db: UserDb)
    requires r.parseState == Headers && CONTENT_LENGTH !in r.header
    ensures ParseFrom(r, "\r\n" + rest, base, db) == Success(Outcome(r.(lineState := LineOk), GetRequest, base + 2))
  {
    BlankLineRead(r, rest);
    ParseFromHeader(r, "\r\n" + rest, base, db, []);
  }

  /** The header lines and the blank line after them end the request with GET_REQUEST. */
  lemma {:induction false} ParseHeaderText(r: Req, hs: seq<HeaderParts>, rest: string, base: nat, db: UserDb)
    requires r.parseState == Headers && CONTENT_LENGTH !in r.header
    requires forall i :: 0 <= i < |hs| ==> PlainHeader(hs[i])
    ensures |rest| <= |HeaderBlock(hs, rest)|
    ensures ParseFrom(r, HeaderBlock(hs, rest), base, db) ==
      Success(Outcome(r.(lineState := LineOk, header := AddHeaders(r.header, hs)), GetRequest,
                      base + |HeaderBlock(hs, rest)| - |rest|))
    decreases |hs|
  {
    if hs == [] {
      assert HeaderBlock(hs, rest) == "\r\n" + rest;
      BlankLinePass(r, rest, base, db);
    } else {
      var h := hs[0];
      var tail := HeaderBlock(hs[1..], rest);
      var r2 := r.(lineState := LineOk, header := r.header[h.name := h.value]);
      var n := |h.name| + |h.value| + 4;
      assert HeaderBlock(hs, rest) == h.name + (": " + (h.value + ("\r\n" + tail)));
      assert |HeaderBlock(hs, rest)| == n + |tail|;
      HeaderLinePass(r, h, tail, base, db);
      ParseHeaderText(r2, hs[1..], rest, base + n, db);
      assert r2.(lineState := LineOk, header := AddHeaders(r2.header, hs[1..])) ==
             r.(lineState := LineOk, header := AddHeaders(r.header, hs));
    }
  }

  /** The bytes of a request without a body: request line, header lines, blank line. */
  function RequestText(m: string, p: string, v: string, hs: seq<HeaderParts>): string {
    m + " " + p + " HTTP/" + v + ("\r\n" + HeaderBlock(hs, []))
  }

  /** A request line a client writes has no line break and is matched with its own groups. */
  lemma {:induction false} RequestLineText(m: string, p: string, v: string)
    requires |m| > 0 && Letters(m)
    requires |p| > 0 && ' ' !in p && NoLineBreak(p)
    requires |v| > 0 && ' ' !in v && NoLineBreak(v)
    ensures NoLineBreak(m + " " + p + " HTTP/" + v)
    ensures IsRequestLineOf(m + " " + p + " HTTP/" + v, m, p, v)
  {
    assert NoLineBreak(m) by {
      forall k | 0 <= k < |m|
        ensures m[k] != '\r' && m[k] != '\n'
      {
        assert IsAlpha(m[k]);
      }
    }
    NoLineBreakAppend(m, " ");
    NoLineBreakAppend(m + " ", p);
    NoLineBreakAppend(m + " " + p, " HTTP/");
    NoLineBreakAppend(m + " " + p + " HTTP/", v);
  }

  lemma {:induction false} RequestTextAppend(m: string, p: string, v: string, hs: seq<HeaderParts>, rest: string)
    ensures RequestText(m, p, v, hs) + rest == m + " " + p + " HTTP/" + v + ("\r\n" + HeaderBlock(hs, rest))
    ensures |RequestText(m, p, v, hs)| == |m + " " + p + " HTTP/" + v| + 2 + |HeaderBlock(hs, rest)| - |rest|
  {
    HeaderBlockAppend(hs, rest);
    var line := m + " " + p + " HTTP/" + v;
    var b := HeaderBlock(hs, []);
    assert line + ("\r\n" + b) + rest == line + ("\r\n" + (b + rest));
  }

  /** A pass over a line the request-line pattern matches stores its groups and goes on after its CRLF. */
  lemma {:induction false} MatchedLinePass(line: string, m: string, p: string, v: string, tail: string, db: UserDb)
    requires IsRequestLineOf(line, m, p, v) && NoLineBreak(line)
    ensures ParseFrom(Fresh, line + ("\r\n" + tail), 0, db) ==
      ParseFrom(Fresh.(verb := m, path := NormalizePath(p), version := v, parseState := Headers),
                tail, |line| + 2, db)
  {
    LineOfText(Fresh, line, tail);
    RequestLineAccepted(Fresh.(lineState := LineOk), line, m, p, v);
    ParseFromRequestLine(Fresh, line + ("\r\n" + tail), 0, db, line);
  }

  /** A pass over a request line a client writes stores its groups and goes on after its CRLF. */
  lemma {:induction false} RequestLinePass(m: string, p: string, v: string, tail: string, db: UserDb)
    requires |m| > 0 && Letters(m)
    requires |p| > 0 && ' ' !in p && NoLineBreak(p)
    requires |v| > 0 && ' ' !in v && NoLineBreak(v)
    ensures var line := m + " " + p + " HTTP/" + v;
      ParseFrom(Fresh, line + ("\r\n" + tail), 0, db) ==
      ParseFrom(Fresh.(verb := m, path := NormalizePath(p), version := v, parseState := Headers),
                tail, |line| + 2, db)
  {
    RequestLineText(m, p, v);
    MatchedLinePass(m + " " + p + " HTTP/" + v, m, p, v, tail, db);
  }

  /**
   * A request without a body that a client writes is parsed back: GET_REQUEST, consuming
   * exactly its bytes, with the groups of its request line (the path normalised) and its
   * headers stored, whatever follows it in the buffer.
   */
  lemma {:induction false} ParseRequestText(m: string, p: string, v: string, hs: seq<HeaderParts>, rest: string, db: UserDb)
    requires |m| > 0 && Letters(m)
    requires |p| > 0 && ' ' !in p && NoLineBreak(p)
    requires |v| > 0 && ' ' !in v && NoLineBreak(v)
    requires forall i :: 0 <= i < |hs| ==> PlainHeader(hs[i])
    ensures ParseFrom(Fresh, RequestText(m, p, v, hs) + rest, 0, db) ==
      Success(Outcome(Req(Headers, LineOk, m, NormalizePath(p), v, "", AddHeaders(map[], hs), map[]),
                      GetRequest, |RequestText(m, p, v, hs)|))
  {
    var line := m + " " + p + " HTTP/" + v;
    RequestTextAppend(m, p, v, hs, rest);
    RequestLinePass(m, p, v, HeaderBlock(hs, rest), db);
    var r2 := Fresh.(verb := m, path := NormalizePath(p), version := v, parseState := Headers);
    ParseHeaderText(r2, hs, rest, |line| + 2, db);
    assert r2.(lineState := LineOk, header := AddHeaders(r2.header, hs)) ==
           Req(Headers, LineOk, m, NormalizePath(p), v, "", AddHeaders(map[], hs), map[]);
  }

  /** With no CRLF in the input outside the body, nothing is consumed and more input is awaited. */
  lemma {:induction false} ParseIncomplete(r: Req, input: string, base: nat, db: UserDb)
    requires r.parseState != Body && NoCrlf(input)
    ensures ParseFrom(r, input, base, db) == Success(Outcome(r.(lineState := LineOpen), NoRequest, base))
  {
    LineOfMeaning(r, input);
    ParseFromWaits(r, input, base, db, Line(LineOpen, ""));
  }

  /** Dropping k more bytes from the unread window [a, b) moves its start to a + k. */
  lemma UnreadSuffix(s: seq<char>, a: nat, k: nat, b: nat)
    requires a + k <= b <= |s|
    ensures s[a..b][k..] == s[a + k..b]
  {
  }

  /** getLine in the body, with Content-Length n: LINE_OPEN below n bytes, else the first n bytes. */
  lemma LineOfBody(r: Req, input: string, n: nat)
    requires r.parseState == Body && CONTENT_LENGTH in r.header && Stoi(r.header[CONTENT_LENGTH]).Success?
    requires n == ToSizeT(Stoi(r.header[CONTENT_LENGTH]).value)
    ensures |input| < n ==> LineOf(r, input) == Success(Line(LineOpen, ""))
    ensures |input| >= n ==> LineOf(r, input) == Success(Line(LineOk, input[..n]))
  {
  }

  /**
   * In the body, Content-Length n: fewer than n bytes wait for more input; otherwise the
   * first n bytes are the body, handed to parsePost_.
   */
  lemma {:induction false} ParseBodyBytes(r: Req, input: string, db: UserDb)
    requires r.parseState == Body && CONTENT_LENGTH in r.header && Stoi(r.header[CONTENT_LENGTH]).Success?
    ensures var n := ToSizeT(Stoi(r.header[CONTENT_LENGTH]).value);
      && (|input| < n ==> ParseFrom(r, input, 0, db) == Success(Outcome(r.(lineState := LineOpen), NoRequest, 0)))
      && (|input| >= n ==> (ParseFrom(r, input, 0, db) ==
            match BodyStep(r.(lineState := LineOk), input[..n], db)
            case Failure(e) => Failure(e)
            case Success(r2) => Success(Outcome(r2, GetRequest, n))))
  {
    var n := ToSizeT(Stoi(r.header[CONTENT_LENGTH]).value);
    LineOfBody(r, input, n);
    if |input| < n {
      ParseFromWaits(r, input, 0, db, Line(LineOpen, ""));
    } else {
      ParseFromBody(r, input, 0, db, input[..n]);
    }
  }

  class HttpRequest {
    var parseState: ParseState
    var lineState: LineState
    var verb: string
    var path: string
    var version: string
    var body: string
    var header: map<string, string>
    var post: map<string, string>

    /** The fields as one value. */
    function View(): Req
      reads this
    {
      Req(parseState, lineState, verb, path, version, body, header, post)
    }

    constructor ()
      ensures View() == Fresh
    {
      parseState, lineState := RequestLine, LineOk;
      verb, path, version, body := "", "", "", "";
      header, post := map[], map[];
    }

    /** init: back to the request line with every field empty. */
    method Init()
      modifies this
      ensures View() == Fresh
    {
      parseState := RequestLine;
      lineState := LineOk;
      verb := "";
      path := "";
      version := "";
      body := "";
      header := map[];
      post := map[];
    }

    /** getLine: look at the readable bytes of buff without consuming them. */
    method GetLine(buff: Buffer) returns (l: Result<Line, Fault>)
      requires buff.Valid()
      modifies this
      ensures l == LineOf(old(View()), buff.Contents())
      ensures l.Success? ==> View() == old(View()).(lineState := l.value.state)
      ensures l.Failure? ==> View() == old(View())
    {
      var input := buff.Contents();
      if parseState != Body {
        var lineEnd := FindCrlf(input);
        if lineEnd.None? {
          lineState := LineOpen;
          l := Success(Line(LineOpen, ""));
        } else {
          lineState := LineOk;
          l := Success(Line(LineOk, input[..lineEnd.value]));
        }
      } else {
        if CONTENT_LENGTH !in header {
          lineState := LineError;
          l := Success(Line(LineError, ""));
        } else {
          var v := Stoi(header[CONTENT_LENGTH]);
          if v.Failure? {
            return Failure(v.error);
          }
          var contentLength := ToSizeT(v.value);
          if buff.ReadableBytes() < contentLength {
            lineState := LineOpen;
            l := Success(Line(LineOpen, ""));
          } else {
            lineState := LineOk;
            l := Success(Line(LineOk, input[..contentLength]));
          }
        }
      }
    }

    /** parsePath_. */
    method ParsePath()
      modifies this
      ensures View() == old(View()).(path := NormalizePath(old(path)))
    {
      if path == "/" {
        path := "/index.html";
      } else if path in DEFAULT_HTML {
        path := path + ".html";
      }
    }

    /** parseRequestLine_. */
    method ParseRequestLine(line: string) returns (code: HttpCode)
      modifies this
      ensures (View(), code) == RequestLineStep(old(View()), line)
    {
      var parts := MatchRequestLine(line);
      if parts.None? {
        return BadRequest;
      }
      verb := parts.value.verb;
      path := parts.value.path;
      version := parts.value.version;
      ParsePath();
      parseState := Headers;
      code := NoRequest;
    }

    /** parseHeader_. */
    method ParseHeader(line: string) returns (res: Result<HttpCode, Fault>)
      modifies this
      ensures HeaderStep(old(View()), line).Success? ==>
        res == Success(HeaderStep(old(View()), line).value.1) && View() == HeaderStep(old(View()), line).value.0
      ensures HeaderStep(old(View()), line).Failure? ==> res == Failure(HeaderStep(old(View()), line).error)
    {
      if line == [] {
        if CONTENT_LENGTH !in header {
          return Success(GetRequest);
        }
        var v := Stoi(header[CONTENT_LENGTH]);
        if v.Failure? {
          return Failure(v.error);
        }
        if v.value == 0 {
          return Success(GetRequest);
        }
        parseState := Body;
        return Success(NoRequest);
      }
      var h := MatchHeaderLine(line);
      if h.None? {
        return Success(BadRequest);
      }
      header := header[h.value.name := h.value.value];
      res := Success(NoRequest);
    }

    /**
     * parseFromUrlencoded_: nothing for an empty body; otherwise the body is decoded in one
     * loop and then split into post in another. A '%' in the last byte reads past the end of
     * the body, which is the fault returned.
     */
    method ParseFromUrlencoded() returns (fault: Option<Fault>)
      modifies this
      ensures Urlencoded(old(body), old(post)).Success? ==> (fault == None &&
        View() == old(View()).(body := Urlencoded(old(body), old(post)).value.0,
                               post := Urlencoded(old(body), old(post)).value.1))
      ensures Urlencoded(old(body), old(post)).Failure? ==>
        fault == Some(Urlencoded(old(body), old(post)).error) && View() == old(View())
    {
      if |body| == 0 {
        return None;
      }
      fault := DecodeBody();
      if fault.None? {
        SplitBody();
      }
    }

    /** The first loop of parseFromUrlencoded_: the body is replaced by its decoding. */
    method DecodeBody() returns (fault: Option<Fault>)
      modifies this
      ensures Decoded(old(body)).Success? ==> fault == None && View() == old(View()).(body := Decoded(old(body)).value)
      ensures Decoded(old(body)).Failure? ==> fault == Some(Decoded(old(body)).error) && View() == old(View())
    {
      var n := |body|;
      var processed := "";
      var i := 0;
      ThenEmpty(Decoded(body));
      while i < n
        invariant View() == old(View()) && n == |body|
        invariant 0 <= i <= n + 1
        invariant Decoded(body) == Then(processed, Decoded(if i <= n then body[i..] else []))
      {
        var rest := body[i..];
        if body[i] == '+' {
          assert rest[1..] == body[i + 1..];
          ThenThen(processed, " ", Decoded(rest[1..]));
          processed := processed + " ";
        } else if body[i] == '%' {
          if i + 2 > n {
            return Some(ReadPastEnd);
          }
          var lo := if i + 2 < n then body[i + 2] else '\0';
          var ch := EscapedByte(body[i + 1], lo);
          if i + 2 < n {
            assert rest[3..] == body[i + 3..];
            ThenThen(processed, [ch], Decoded(rest[3..]));
          } else {
            ThenThen(processed, [ch], Success([]));
          }
          i := i + 2;
          processed := processed + [ch];
        } else {
          assert rest[1..] == body[i + 1..];
          ThenThen(processed, [body[i]], Decoded(rest[1..]));
          processed := processed + [body[i]];
        }
        i := i + 1;
      }
      ThenEmpty(Success(processed));
      body := processed;
      fault := None;
    }

    /** The second loop of parseFromUrlencoded_: '=' closes a key, '&' stores a value. */
    method SplitBody()
      modifies this
      ensures View() == old(View()).(post := Scan(old(body), "", [], old(post)))
    {
      var key, value := "", "";
      var n := |body|;
      var i, j := 0, 0;
      while i < n
        invariant View() == old(View()).(post := post) && n == |body|
        invariant 0 <= j <= i <= n
        invariant Scan(body, "", [], old(post)) == Scan(body[i..], key, body[j..i], post)
      {
        var ch := body[i];
        assert body[i..][0] == ch && body[i..][1..] == body[i + 1..];
        if ch == '=' {
          assert body[i + 1..i + 1] == [];
          key := body[j..i];
          j := i + 1;
        } else if ch == '&' {
          assert body[i + 1..i + 1] == [];
          value := body[j..i];
          j := i + 1;
          post := post[key := value];
        } else {
          assert body[j..i + 1] == body[j..i] + [ch];
        }
        i := i + 1;
      }
      assert body[i..] == [];
      if key !in post && j < i {
        value := body[j..i];
        post := post[key := value];
      }
    }

    /** parsePost_. */
    method ParsePost(db: UserDb) returns (res: Result<HttpCode, Fault>)
      modifies this
      ensures PostStep(old(View()), db).Success? ==> res == Success(GetRequest) && View() == PostStep(old(View()), db).value
      ensures PostStep(old(View()), db).Failure? ==> res == Failure(PostStep(old(View()), db).error)
    {
      ghost var r0 := View();
      if verb == "POST" {
        header := Touch(header, CONTENT_TYPE);
        ghost var r1 := View();
        assert r1 == r0.(header := Touch(r0.header, CONTENT_TYPE));
        if header[CONTENT_TYPE] == FORM_URLENCODED {
          var fault := ParseFromUrlencoded();
          if fault.Some? {
            return Failure(fault.value);
          }
          assert Urlencoded(r1.body, r1.post) == Success((body, post));
          if path in DEFAULT_HTML_TAG {
            var tag := DEFAULT_HTML_TAG[path];
            if tag == 0 || tag == 1 {
              var isLogin := tag == 1;
              post := Touch(post, "username");
              post := Touch(post, "password");
              if UserVerify(db, post["username"], post["password"], isLogin) {
                path := "/welcome.html";
              } else {
                path := "/error.html";
              }
            }
          }
        }
      }
      res := Success(GetRequest);
    }

    /** parseBody_. */
    method ParseBody(line: string, db: UserDb) returns (res: Result<HttpCode, Fault>)
      modifies this
      ensures BodyStep(old(View()), line, db).Success? ==> res == Success(GetRequest) && View() == BodyStep(old(View()), line, db).value
      ensures BodyStep(old(View()), line, db).Failure? ==> res == Failure(BodyStep(old(View()), line, db).error)
    {
      body := line;
      res := ParsePost(db);
    }

    /**
     * The switch of parse, once getLine on the readable bytes of buff returned LINE_OK with
     * `line` from the snapshot `before`: None when the loop goes round again, otherwise what
     * parse returns; `base` counts the bytes parse retrieved before.
     */
    method Dispatch(buff: Buffer, line: string, ghost before: Req, ghost base: nat, db: UserDb)
      returns (res: Option<Result<HttpCode, Fault>>)
      requires buff.Valid() && LineOf(before, buff.Contents()) == Success(Line(LineOk, line))
      requires View() == before.(lineState := LineOk)
      modifies this, buff
      ensures buff.Valid()
      ensures buff.storage == old(buff.storage) && buff.writePos == old(buff.writePos)
      ensures res.None? ==>
        && buff.readPos == old(buff.readPos) + |line| + 2
        && ParseFrom(before, old(buff.Contents()), base, db) ==
           ParseFrom(View(), buff.Contents(), base + |line| + 2, db)
      ensures res.Some? ==>
        var o := ParseFrom(before, old(buff.Contents()), base, db);
        && (o.Failure? ==> res.value == Failure(o.error))
        && (o.Success? ==>
              res.value == Success(o.value.code) && View() == o.value.req &&
              buff.readPos == old(buff.readPos) + (o.value.consumed - base))
    {
      ghost var input := buff.Contents();
      ghost var r := View();
      match parseState {
        case RequestLine =>
          ParseFromRequestLine(before, input, base, db, line);
          var code := ParseRequestLine(line);
          assert (View(), code) == RequestLineStep(r, line);
          buff.Retrieve(|line| + 2);
          if code == BadRequest {
            return Some(Success(BadRequest));
          }
          res := None;
        case Headers =>
          ParseFromHeader(before, input, base, db, line);
          var res0 := ParseHeader(line);
          assert HeaderStep(r, line).Failure? <==> res0.Failure?;
          if res0.Failure? {
            return Some(Failure(res0.error));
          }
          assert HeaderStep(r, line).value == (View(), res0.value);
          buff.Retrieve(|line| + 2);
          if res0.value != NoRequest {
            return Some(Success(res0.value));
          }
          res := None;
        case Body =>
          ParseFromBody(before, input, base, db, line);
          var res0 := ParseBody(line, db);
          if res0.Failure? {
            return Some(Failure(res0.error));
          }
          assert BodyStep(r, line, db).Success?;
          buff.Retrieve(|line|);
          res := Some(Success(GetRequest));
      }
    }

    /**
     * One round of the loop in parse(): fetch a line and, when it is complete, hand it to the
     * current state.  The whole parse from the buffer's `start` position is to produce
     * `target`; the buffer only ever moves its read cursor.
     */
    method Pass(buff: Buffer, ghost start: nat, db: UserDb, ghost target: Result<Outcome, Fault>)
      returns (res: Option<Result<HttpCode, Fault>>)
      requires buff.Valid() && start <= buff.readPos
      requires target == ParseFrom(View(), buff.Contents(), buff.readPos - start, db)
      modifies this, buff
      ensures buff.Valid() && buff.storage == old(buff.storage) && buff.writePos == old(buff.writePos)
      ensures res.None? ==>
        old(buff.readPos) < buff.readPos && target == ParseFrom(View(), buff.Contents(), buff.readPos - start, db)
      ensures res.Some? && target.Failure? ==> res.value == Failure(target.error)
      ensures res.Some? && target.Success? ==>
        res.value == Success(target.value.code) && View() == target.value.req &&
        buff.readPos == start + target.value.consumed
    {
      ghost var before := View();
      ghost var base := buff.readPos - start;
      var l := GetLine(buff);
      if l.Failure? {
        ParseFromFault(before, buff.Contents(), base, db);
        return Some(Failure(l.error));
      }
      if l.value.state != LineOk {
        ParseFromWaits(before, buff.Contents(), base, db, l.value);
        return Some(Success(NoRequest));
      }
      res := Dispatch(buff, l.value.text, before, base, db);
    }

    method Parse(buff: Buffer, db: UserDb) returns (res: Result<HttpCode, Fault>)
      requires buff.Valid()
      modifies this, buff
      ensures buff.Valid()
      ensures ParseFrom(old(View()), old(buff.Contents()), 0, db).Success? ==>
        var o := ParseFrom(old(View()), old(buff.Contents()), 0, db).value;
        res == Success(o.code) && View() == o.req && buff.Contents() == old(buff.Contents())[o.consumed..]
      ensures ParseFrom(old(View()), old(buff.Contents()), 0, db).Failure? ==>
        res == Failure(ParseFrom(old(View()), old(buff.Contents()), 0, db).error)
    {
      ghost var target := ParseFrom(View(), buff.Contents(), 0, db);
      ghost var start := buff.readPos;
      while true
        invariant buff.Valid() && buff.storage == old(buff.storage) && buff.writePos == old(buff.writePos)
        invariant start <= buff.readPos
        invariant target == ParseFrom(View(), buff.Contents(), buff.readPos - start, db)
        decreases buff.writePos - buff.readPos
      {
        var step := Pass(buff, start, db, target);
        if step.Some? {
          if target.Success? {
            UnreadSuffix(buff.storage, start, target.value.consumed, buff.writePos);
          }
          return step.value;
        }
      }
    }

    /** isKeepAlive. */
    predicate IsKeepAlive()
      reads this
    {
      KeepAlive(header, version)
    }

    /** getPost. */
    function GetPost(key: string): (v: string)
      reads this
      requires key != ""
      ensures v == PostValue(post, key)
    {
      if key in post then post[key] else ""
    }
  }
}
