/**
 * The pure pieces of the request parser (code/http/httprequest.cc): the line terminator
 * search, the two line grammars that the regular expressions of parseRequestLine_ and
 * parseHeader_ accept, path normalisation, the keep-alive rule, and the decoding and
 * splitting of an application/x-www-form-urlencoded body.
 */
module HttpGrammar {
  import opened Wrappers
  import opened Faults

  /** The first index holding c, as a left-to-right scan finds it. */
  function IndexOf(s: string, c: char): (r: Option<nat>)
    ensures r.Some? ==> r.value < |s| && s[r.value] == c && c !in s[..r.value]
    ensures r.None? ==> c !in s
  {
    if s == [] then None
    else if s[0] == c then Some(0)
    else
      match IndexOf(s[1..], c)
      case None => None
      case Some(k) =>
        assert s[..k + 1] == [s[0]] + s[1..][..k];
        Some(k + 1)
  }

  /** Any index holding the first occurrence of c is the one IndexOf finds. */
  lemma IndexOfIs(s: string, c: char, k: nat)
    requires k < |s| && s[k] == c && c !in s[..k]
    ensures IndexOf(s, c) == Some(k)
  {
  }

  /** No "\r\n" starts inside s. */
  predicate NoCrlf(s: string) {
    forall k :: 0 <= k < |s| - 1 ==> !(s[k] == '\r' && s[k + 1] == '\n')
  }

  /** std::search for "\r\n": the index of the first CRLF of s. */
  function FindCrlf(s: string): (r: Option<nat>)
    ensures r.Some? ==> r.value + 2 <= |s|
  {
    if |s| < 2 then None
    else if s[0] == '\r' && s[1] == '\n' then Some(0)
    else
      match FindCrlf(s[1..])
      case None => None
      case Some(k) => Some(k + 1)
  }

  /** The index found is the first CRLF of s; none is found exactly when s has no CRLF. */
  lemma {:induction false} FindCrlfIsFirst(s: string)
    ensures FindCrlf(s).Some? ==> var k := FindCrlf(s).value;
      s[k] == '\r' && s[k + 1] == '\n' && NoCrlf(s[..k + 1])
    ensures FindCrlf(s).None? <==> NoCrlf(s)
    decreases |s|
  {
    if |s| >= 2 && !(s[0] == '\r' && s[1] == '\n') {
      FindCrlfIsFirst(s[1..]);
      match FindCrlf(s[1..])
      case None =>
        assert NoCrlf(s) by {
          forall k | 0 <= k < |s| - 1
            ensures !(s[k] == '\r' && s[k + 1] == '\n')
          {
            if k > 0 {
              assert s[1..][k - 1] == s[k] && s[1..][k] == s[k + 1];
            }
          }
        }
      case Some(k) =>
        assert s[..k + 2] == [s[0]] + s[1..][..k + 1];
        assert s[1..][k] == s[k + 1] && s[1..][k + 1] == s[k + 2];
        assert !NoCrlf(s) by {
          assert s[k + 1] == '\r' && s[k + 2] == '\n';
        }
    } else if |s| >= 2 {
      assert !NoCrlf(s) by {
        assert s[0] == '\r' && s[1] == '\n';
      }
    }
  }

  /** A line followed by CRLF is found as exactly that line, whatever follows. */
  lemma {:induction false} FindCrlfOfLine(line: string, rest: string)
    requires NoCrlf(line) && (line == [] || line[|line| - 1] != '\r')
    ensures FindCrlf(line + "\r\n" + rest) == Some(|line|)
    decreases |line|
  {
    var s := line + "\r\n" + rest;
    if line != [] {
      assert !(s[0] == '\r' && s[1] == '\n');
      assert s[1..] == line[1..] + "\r\n" + rest;
      FindCrlfOfLine(line[1..], rest);
    }
  }

  predicate IsAlpha(c: char) {
    ('a' <= c <= 'z') || ('A' <= c <= 'Z')
  }

  predicate Letters(s: string) {
    forall k :: 0 <= k < |s| ==> IsAlpha(s[k])
  }

  /** Neither '\r' nor '\n' occurs: what '.' of the regular expressions accepts. */
  predicate NoLineBreak(s: string) {
    '\r' !in s && '\n' !in s
  }

  /** The three groups of a request line. */
  datatype RequestParts = RequestParts(verb: string, path: string, version: string)

  /**
   * The line matches ^([a-zA-Z]+) ([^ ]+) HTTP/([^ ]+)$ with groups m, p and v. Neither
   * group can hold a space, so the line is split at exactly its two spaces.
   */
  predicate IsRequestLineOf(line: string, m: string, p: string, v: string) {
    && |m| > 0 && Letters(m)
    && |p| > 0 && ' ' !in p
    && |v| > 0 && ' ' !in v
    && line == m + " " + p + " HTTP/" + v
  }

  /** A line cut at a space, the rest cut at a space, and "HTTP/" taken off the tail, put back together. */
  lemma RejoinRequestLine(line: string, a: nat, b: nat)
    requires a < |line| && line[a] == ' '
    requires b < |line[a + 1..]| && line[a + 1..][b] == ' '
    requires |line[a + 1..][b + 1..]| > 5 && line[a + 1..][b + 1..][..5] == "HTTP/"
    ensures line == line[..a] + " " + line[a + 1..][..b] + " HTTP/" + line[a + 1..][b + 1..][5..]
  {
    var rest := line[a + 1..];
    var tail := rest[b + 1..];
    assert line == line[..a] + " " + rest;
    assert rest == rest[..b] + " " + tail;
    assert tail == "HTTP/" + tail[5..];
  }

  /** regex_match of the request-line pattern, written as a scan for the two spaces. */
  function MatchRequestLine(line: string): (r: Option<RequestParts>)
    ensures r.Some? ==> IsRequestLineOf(line, r.value.verb, r.value.path, r.value.version)
  {
    match IndexOf(line, ' ')
    case None => None
    case Some(a) =>
      var m := line[..a];
      var rest := line[a + 1..];
      match IndexOf(rest, ' ')
      case None => None
      case Some(b) =>
        var p := rest[..b];
        var tail := rest[b + 1..];
        if |m| > 0 && Letters(m) && |p| > 0 && |tail| > 5 && tail[..5] == "HTTP/" && ' ' !in tail[5..] then
          RejoinRequestLine(line, a, b);
          Some(RequestParts(m, p, tail[5..]))
        else None
  }

  /** In a matching line, the first space ends the method and the next one ends the path. */
  lemma RequestLineSpaces(line: string, m: string, p: string, v: string)
    requires IsRequestLineOf(line, m, p, v)
    ensures IndexOf(line, ' ') == Some(|m|) && line[..|m|] == m
    ensures IndexOf(line[|m| + 1..], ' ') == Some(|p|) && line[|m| + 1..][..|p|] == p
    ensures line[|m| + 1..][|p| + 1..] == "HTTP/" + v
  {
    var tail := "HTTP/" + v;
    var rest := p + " " + tail;
    assert line == m + " " + rest;
    assert line[..|m|] == m && line[|m| + 1..] == rest;
    IndexOfIs(line, ' ', |m|);
    assert rest[..|p|] == p && rest[|p| + 1..] == tail;
    IndexOfIs(rest, ' ', |p|);
  }

  /** The scan accepts every line the pattern matches, with the same groups. */
  lemma MatchRequestLineComplete(line: string, m: string, p: string, v: string)
    requires IsRequestLineOf(line, m, p, v)
    ensures MatchRequestLine(line) == Some(RequestParts(m, p, v))
  {
    RequestLineSpaces(line, m, p, v);
    var tail := line[|m| + 1..][|p| + 1..];
    assert tail[..5] == "HTTP/" && tail[5..] == v;
  }

  /** Both directions: the scan returns these groups exactly when the pattern matches with them. */
  lemma MatchRequestLineIff(line: string, m: string, p: string, v: string)
    ensures MatchRequestLine(line) == Some(RequestParts(m, p, v)) <==> IsRequestLineOf(line, m, p, v)
  {
    if IsRequestLineOf(line, m, p, v) {
      MatchRequestLineComplete(line, m, p, v);
    }
  }

  /** The two groups of a header line. */
  datatype HeaderParts = HeaderParts(name: string, value: string)

  /**
   * The line matches ^([^:]*): ?(.*)$ with groups name and value. The name stops at the
   * first ':'; the optional space is greedy, so a value right after the ':' never starts
   * with a space; '.' accepts anything but '\r' and '\n'.
   */
  predicate IsHeaderLineOf(line: string, name: string, value: string) {
    && ':' !in name
    && NoLineBreak(value)
    && (|| line == name + ": " + value
        || (line == name + ":" + value && (value == [] || value[0] != ' ')))
  }

  /** A line cut at a ':', with or without one space after it, put back together. */
  lemma RejoinHeaderLine(line: string, a: nat)
    requires a < |line| && line[a] == ':'
    ensures var rest := line[a + 1..];
      && line == line[..a] + ":" + rest
      && (|rest| > 0 && rest[0] == ' ' ==> line == line[..a] + ": " + rest[1..])
  {
    var rest := line[a + 1..];
    assert line == line[..a] + ":" + rest by {
      assert line == line[..a] + line[a..] && line[a..] == [line[a]] + rest;
    }
    if |rest| > 0 && rest[0] == ' ' {
      assert rest == " " + rest[1..];
    }
  }

  /** regex_match of the header pattern, written as a scan for the first ':'. */
  function MatchHeaderLine(line: string): (r: Option<HeaderParts>)
    ensures r.Some? ==> IsHeaderLineOf(line, r.value.name, r.value.value)
  {
    match IndexOf(line, ':')
    case None => None
    case Some(a) =>
      var rest := line[a + 1..];
      var value := if |rest| > 0 && rest[0] == ' ' then rest[1..] else rest;
      if NoLineBreak(value) then
        RejoinHeaderLine(line, a);
        Some(HeaderParts(line[..a], value))
      else None
  }

  /** The scan accepts every line the pattern matches, with the same groups. */
  lemma MatchHeaderLineComplete(line: string, name: string, value: string)
    requires IsHeaderLineOf(line, name, value)
    ensures MatchHeaderLine(line) == Some(HeaderParts(name, value))
  {
    assert line[..|name|] == name;
    IndexOfIs(line, ':', |name|);
    var rest := line[|name| + 1..];
    if line == name + ": " + value {
      assert rest == " " + value;
      assert rest[1..] == value;
    } else {
      assert rest == value;
    }
  }

  /** Both directions: the scan returns these groups exactly when the pattern matches with them. */
  lemma MatchHeaderLineIff(line: string, name: string, value: string)
    ensures MatchHeaderLine(line) == Some(HeaderParts(name, value)) <==> IsHeaderLineOf(line, name, value)
  {
    if IsHeaderLineOf(line, name, value) {
      MatchHeaderLineComplete(line, name, value);
    }
  }

  /** DEFAULT_HTML: the page names that get ".html" appended. */
  const DEFAULT_HTML: set<string> := {"/index", "/register", "/login", "/welcome", "/video", "/picture"}

  /** parsePath_: "/" is the index page, a default page name gains ".html", anything else stays. */
  function NormalizePath(p: string): string {
    if p == "/" then "/index.html"
    else if p in DEFAULT_HTML then p + ".html"
    else p
  }

  /** Normalising a normalised path changes nothing, and the result is never a bare page name. */
  lemma NormalizePathIdempotent(p: string)
    ensures NormalizePath(NormalizePath(p)) == NormalizePath(p)
    ensures NormalizePath(p) != "/" && NormalizePath(p) !in DEFAULT_HTML
  {
    if p in DEFAULT_HTML {
      var q := p + ".html";
      assert q[|q| - 1] == 'l';
      assert forall d | d in DEFAULT_HTML :: d[|d| - 1] != 'l';
    }
  }

  const CONNECTION: string := "Connection"

  /** isKeepAlive: a Connection header of exactly "keep-alive" on an HTTP/1.1 request. */
  predicate KeepAlive(header: map<string, string>, version: string) {
    CONNECTION in header && header[CONNECTION] == "keep-alive" && version == "1.1"
  }

  /** getPost: the stored value, or "" for a key that was never posted. */
  function PostValue(post: map<string, string>, key: string): (v: string)
    requires key != ""
    ensures key in post ==> v == post[key]
    ensures key !in post ==> v == ""
  {
    if key in post then post[key] else ""
  }

  /** A C++ char as an int: the byte read as a signed 8-bit value. */
  function SignedChar(c: char): (v: int)
    ensures -128 <= v < 128 && (v - c as int) % 256 == 0
  {
    var b := c as int % 256;
    if b >= 128 then b - 256 else b
  }

  /** ConverHex: 'A'-'F' and 'a'-'f' count from 10, every other char is its distance from '0'. */
  function ConverHex(c: char): int {
    if 'A' <= c <= 'F' then c as int - 'A' as int + 10
    else if 'a' <= c <= 'f' then c as int - 'a' as int + 10
    else SignedChar(c) - '0' as int
  }

  /** The upper-case hexadecimal digit of d. */
  function HexDigit(d: nat): (c: char)
    requires d < 16
    ensures ('0' <= c <= '9') || ('A' <= c <= 'F')
  {
    if d < 10 then ('0' as int + d) as char else ('A' as int + d - 10) as char
  }

  /** ConverHex inverts HexDigit, and reads lower-case letters as upper-case ones. */
  lemma ConverHexDigit(d: nat)
    requires d < 16
    ensures ConverHex(HexDigit(d)) == d
    ensures d >= 10 ==> ConverHex(('a' as int + d - 10) as char) == d
  {
  }

  /** static_cast<char>(ConverHex(hi) * 16 + ConverHex(lo)): the byte a "%XY" escape stands for. */
  function EscapedByte(hi: char, lo: char): (c: char)
    ensures c as int < 256
  {
    ((ConverHex(hi) * 16 + ConverHex(lo)) % 256) as char
  }

  /** The characters of s are bytes. */
  predicate IsBytes(s: string) {
    forall k :: 0 <= k < |s| ==> s[k] as int < 256
  }

  /** prefix + the decoded text, or the same fault. */
  function Then(prefix: string, r: Result<string, Fault>): Result<string, Fault> {
    match r
    case Success(t) => Success(prefix + t)
    case Failure(e) => Failure(e)
  }

  /**
   * The first loop of parseFromUrlencoded_: '+' is a space and "%XY" the byte
   * EscapedByte(X, Y). A '%' second to last reads the terminating '\0' of the string as Y;
   * a '%' last reads past it, which is the ReadPastEnd fault.
   */
  function Decoded(s: string): Result<string, Fault>
    decreases |s|
  {
    if s == [] then Success([])
    else if s[0] == '%' then
      if |s| == 1 then Failure(ReadPastEnd)
      else if |s| == 2 then Success([EscapedByte(s[1], '\0')])
      else Then([EscapedByte(s[1], s[2])], Decoded(s[3..]))
    else if s[0] == '+' then Then(" ", Decoded(s[1..]))
    else Then([s[0]], Decoded(s[1..]))
  }

  /** What a browser leaves as it is in a form body. */
  predicate Unreserved(c: char) {
    IsAlpha(c) || ('0' <= c <= '9') || c == '-' || c == '.' || c == '_' || c == '*'
  }

  /** The encoding of one byte in an application/x-www-form-urlencoded body. */
  function EncodeByte(c: char): (e: string)
    requires c as int < 256
    ensures '=' !in e && '&' !in e
  {
    if c == ' ' then "+"
    else if Unreserved(c) then [c]
    else ['%', HexDigit(c as int / 16), HexDigit(c as int % 16)]
  }

  /** Form encoding of a byte string; it never produces a separator. */
  function PercentEncode(s: string): (e: string)
    requires IsBytes(s)
    ensures '=' !in e && '&' !in e
  {
    if s == [] then [] else EncodeByte(s[0]) + PercentEncode(s[1..])
  }

  /** Decoding an encoded byte gives the byte back and goes on with what follows. */
  lemma DecodeEncodeByte(c: char, t: string)
    requires c as int < 256
    ensures Decoded(EncodeByte(c) + t) == Then([c], Decoded(t))
  {
    var e := EncodeByte(c) + t;
    if c == ' ' || Unreserved(c) {
      assert e[1..] == t;
    } else {
      ConverHexDigit(c as int / 16);
      ConverHexDigit(c as int % 16);
      assert EscapedByte(e[1], e[2]) == c;
      assert e[3..] == t;
    }
  }

  lemma ThenThen(a: string, b: string, r: Result<string, Fault>)
    ensures Then(a, Then(b, r)) == Then(a + b, r)
  {
    if r.Success? {
      assert a + (b + r.value) == (a + b) + r.value;
    }
  }

  /** Decoding undoes encoding, and decoding stops exactly at the end of an encoded prefix. */
  lemma {:induction false} DecodeEncode(s: string, t: string)
    requires IsBytes(s)
    ensures Decoded(PercentEncode(s) + t) == Then(s, Decoded(t))
    decreases |s|
  {
    if s == [] {
      assert PercentEncode(s) + t == t;
      assert Then([], Decoded(t)) == Decoded(t) by {
        if Decoded(t).Success? {
          assert [] + Decoded(t).value == Decoded(t).value;
        }
      }
    } else {
      var x := PercentEncode(s[1..]) + t;
      assert PercentEncode(s) + t == EncodeByte(s[0]) + x;
      DecodeEncodeByte(s[0], x);
      DecodeEncode(s[1..], t);
      ThenThen([s[0]], s[1..], Decoded(t));
      assert [s[0]] + s[1..] == s;
    }
  }

  /** The round trip for a whole byte string. */
  lemma DecodePercentEncode(s: string)
    requires IsBytes(s)
    ensures Decoded(PercentEncode(s)) == Success(s)
  {
    DecodeEncode(s, []);
    assert PercentEncode(s) + [] == PercentEncode(s);
    assert s + [] == s;
  }

  /**
   * The second loop of parseFromUrlencoded_, over the decoded body. seg is the text since the
   * last separator; '=' makes it the key, '&' stores it under the current key (a later
   * write wins); at the end a non-empty seg is stored only if its key is not stored yet.
   */
  function Scan(rest: string, key: string, seg: string, post: map<string, string>): map<string, string>
    decreases |rest|
  {
    if rest == [] then (if key !in post && seg != [] then post[key := seg] else post)
    else if rest[0] == '=' then Scan(rest[1..], seg, [], post)
    else if rest[0] == '&' then Scan(rest[1..], key, [], post[key := seg])
    else Scan(rest[1..], key, seg + [rest[0]], post)
  }

  /** parseFromUrlencoded_ on a whole body: nothing for an empty body, else decode and split. */
  function Urlencoded(body: string, post: map<string, string>): Result<(string, map<string, string>), Fault> {
    if body == [] then Success((body, post))
    else
      match Decoded(body)
      case Failure(e) => Failure(e)
      case Success(d) => Success((d, Scan(d, "", [], post)))
  }

  /** A key and its value, as a form submits them. */
  datatype Field = Field(key: string, value: string)

  /** key=value pairs joined by '&'. */
  function JoinForm(fs: seq<Field>): string
    requires |fs| > 0
    decreases |fs|
  {
    if |fs| == 1 then fs[0].key + ("=" + fs[0].value)
    else fs[0].key + ("=" + (fs[0].value + ("&" + JoinForm(fs[1..]))))
  }

  /** The fields written into a map one after another, a later write winning. */
  function AddFields(post: map<string, string>, fs: seq<Field>): map<string, string>
    decreases |fs|
  {
    if fs == [] then post else AddFields(post[fs[0].key := fs[0].value], fs[1..])
  }

  /** Text without the two separators passes through Scan into the current segment. */
  lemma {:induction false} ScanPlain(s: string, rest: string, key: string, seg: string, post: map<string, string>)
    requires '=' !in s && '&' !in s
    ensures Scan(s + rest, key, seg, post) == Scan(rest, key, seg + s, post)
    decreases |s|
  {
    if s == [] {
      assert s + rest == rest && seg + s == seg;
    } else {
      assert (s + rest)[0] == s[0] && (s + rest)[1..] == s[1..] + rest;
      assert s[0] in s;
      assert Scan(s + rest, key, seg, post) == Scan(s[1..] + rest, key, seg + [s[0]], post);
      ScanPlain(s[1..], rest, key, seg + [s[0]], post);
      assert seg + [s[0]] + s[1..] == seg + s;
    }
  }

  /** A field list with no separator inside a key or value, whose last field can be stored. */
  predicate PlainForm(fs: seq<Field>, post: map<string, string>) {
    && |fs| > 0
    && (forall i :: 0 <= i < |fs| ==> '=' !in fs[i].key && '&' !in fs[i].key && '=' !in fs[i].value && '&' !in fs[i].value)
    && (forall i :: 0 <= i < |fs| - 1 ==> fs[i].key != fs[|fs| - 1].key)
    && fs[|fs| - 1].key !in post
    && fs[|fs| - 1].value != []
  }

  /** Scanning one plain field: its key becomes the current key and its value the segment. */
  lemma ScanField(k: string, v: string, rest: string, key: string, post: map<string, string>)
    requires '=' !in k && '&' !in k && '=' !in v && '&' !in v
    ensures Scan(k + ("=" + (v + rest)), key, [], post) == Scan(rest, k, v, post)
  {
    ScanPlain(k, "=" + (v + rest), key, [], post);
    assert [] + k == k;
    assert ("=" + (v + rest))[1..] == v + rest;
    ScanPlain(v, rest, k, [], post);
    assert [] + v == v;
  }

  /** Splitting joined fields stores every field in order. */
  lemma {:induction false} ScanJoinForm(fs: seq<Field>, key: string, post: map<string, string>)
    requires PlainForm(fs, post)
    ensures Scan(JoinForm(fs), key, [], post) == AddFields(post, fs)
    decreases |fs|
  {
    var k, v := fs[0].key, fs[0].value;
    if |fs| == 1 {
      ScanField(k, v, [], key, post);
      assert v + [] == v;
      assert AddFields(post, fs) == post[k := v];
    } else {
      var rest := JoinForm(fs[1..]);
      ScanField(k, v, "&" + rest, key, post);
      assert ("&" + rest)[1..] == rest;
      assert Scan("&" + rest, k, v, post) == Scan(rest, k, [], post[k := v]);
      assert PlainForm(fs[1..], post[k := v]);
      ScanJoinForm(fs[1..], k, post[k := v]);
    }
  }

  /** The body a browser would post for these fields. */
  function EncodeForm(fs: seq<Field>): string
    requires |fs| > 0 && forall i :: 0 <= i < |fs| ==> IsBytes(fs[i].key) && IsBytes(fs[i].value)
    decreases |fs|
  {
    if |fs| == 1 then PercentEncode(fs[0].key) + ("=" + PercentEncode(fs[0].value))
    else PercentEncode(fs[0].key) + ("=" + (PercentEncode(fs[0].value) + ("&" + EncodeForm(fs[1..]))))
  }

  /** A separator is decoded as itself. */
  lemma DecodeSeparator(c: char, t: string)
    requires c == '=' || c == '&'
    ensures Decoded([c] + t) == Then([c], Decoded(t))
  {
    assert ([c] + t)[1..] == t;
  }

  /** One encoded field followed by an encoded tail decodes to the plain field and tail. */
  lemma DecodeField(k: string, v: string, tail: string, plain: string)
    requires IsBytes(k) && IsBytes(v) && Decoded(tail) == Success(plain)
    ensures Decoded(PercentEncode(k) + ("=" + (PercentEncode(v) + tail))) == Success(k + ("=" + (v + plain)))
  {
    var afterEq := PercentEncode(v) + tail;
    DecodeEncode(v, tail);
    assert Decoded(afterEq) == Success(v + plain);
    DecodeSeparator('=', afterEq);
    assert Decoded("=" + afterEq) == Success("=" + (v + plain));
    DecodeEncode(k, "=" + afterEq);
  }

  /** Decoding a posted body gives the joined fields back. */
  lemma {:induction false} DecodeEncodeForm(fs: seq<Field>)
    requires |fs| > 0 && forall i :: 0 <= i < |fs| ==> IsBytes(fs[i].key) && IsBytes(fs[i].value)
    ensures Decoded(EncodeForm(fs)) == Success(JoinForm(fs))
    decreases |fs|
  {
    var k, v := fs[0].key, fs[0].value;
    if |fs| == 1 {
      assert Decoded([]) == Success([]);
      DecodeField(k, v, [], []);
      assert PercentEncode(v) + [] == PercentEncode(v) && v + [] == v;
    } else {
      DecodeEncodeForm(fs[1..]);
      var tail := EncodeForm(fs[1..]);
      DecodeSeparator('&', tail);
      DecodeField(k, v, "&" + tail, "&" + JoinForm(fs[1..]));
    }
  }

  /**
   * A form posted by a browser is read back field by field, provided no key or value holds
   * a separator and the last field has a fresh key and a non-empty value.
   */
  lemma UrlencodedRoundTrip(fs: seq<Field>, post: map<string, string>)
    requires forall i :: 0 <= i < |fs| ==> IsBytes(fs[i].key) && IsBytes(fs[i].value)
    requires PlainForm(fs, post)
    ensures Urlencoded(EncodeForm(fs), post) == Success((JoinForm(fs), AddFields(post, fs)))
  {
    DecodeEncodeForm(fs);
    ScanJoinForm(fs, "", post);
  }

  /** An escaped '&' decodes to a plain '&'. */
  lemma EscapedSeparatorDecodes()
    ensures Decoded("a=x%26y") == Success("a=x&y")
  {
    var s := "a=x%26y";
    assert EscapedByte('2', '6') == '&';
    assert Decoded(s[6..]) == Success("y") by {
      assert s[6..][1..] == [];
      assert Decoded([]) == Success([]);
      assert ['y'] + [] == "y";
    }
    assert Decoded(s[3..]) == Success("&y") by {
      assert s[3..][3..] == s[6..];
      assert ['&'] + "y" == "&y";
    }
    assert s[2..][1..] == s[3..] && s[2..][0] == 'x';
    assert ['x'] + "&y" == "x&y";
    assert Decoded(s[2..]) == Success("x&y");
    assert s[1..][1..] == s[2..] && s[1..][0] == '=';
    assert ['='] + "x&y" == "=x&y";
    assert Decoded(s[1..]) == Success("=x&y");
    assert ['a'] + "=x&y" == "a=x&y";
  }

  /** Splitting "a=x&y" stores a=x and drops the key-less trailing part. */
  lemma TrailingPartDropped()
    ensures Scan("a=x&y", "", [], map[]) == map["a" := "x"]
  {
    var d := "a=x&y";
    assert d[1..] == "=x&y" && d[2..] == "x&y" && d[3..] == "&y" && d[4..] == "y" && d[5..] == [];
    var ax := map["a" := "x"];
    assert Scan(d[4..], "a", [], ax) == ax by {
      assert [] + [d[4]] == "y";
    }
    assert Scan(d[2..], "a", [], map[]) == ax by {
      assert Scan(d[3..], "a", "x", map[]) == Scan(d[4..], "a", [], ax);
      assert [] + [d[2]] == "x";
    }
    assert Scan(d[1..], "", "a", map[]) == Scan(d[2..], "a", [], map[]);
    assert [] + [d[0]] == "a";
  }

  /**
   * The body is decoded before it is split, so an escaped '&' inside a value splits it, and
   * the trailing part is dropped because its key is already stored.
   */
  lemma EscapedSeparatorSplits()
    ensures Urlencoded("a=x%26y", map[]) == Success(("a=x&y", map["a" := "x"]))
  {
    EscapedSeparatorDecodes();
    TrailingPartDropped();
  }
}
